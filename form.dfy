/**
  The application/x-www-form-urlencoded format of the WHATWG URL Standard:
  the parser of section 5.1 (what `url.searchParams` holds after `new URL`)
  and the serializer of section 5.2 (what `URLSearchParams.toString()` and
  the query written back by `searchParams.set` produce).
*/
module FormUrlencoded {
  import opened JsString
  import Utf8
  type Byte = Utf8.Byte

  /** A name-value pair of a URLSearchParams list. */
  type Pair = (string, string)

  // ---------------------------------------------------------------------
  // serializer (section 5.2)

  /** ASCII alphanumerics, `*`, `-`, `.` and `_`: the bytes the serializer copies unchanged. */
  predicate IsUnreserved(b: Byte) {
    0x30 <= b <= 0x39 || 0x41 <= b <= 0x5A || 0x61 <= b <= 0x7A
    || b == 0x2A || b == 0x2D || b == 0x2E || b == 0x5F
  }

  /** An upper-case hexadecimal digit, as a byte. */
  function HexByte(v: int): (h: Byte)
    requires 0 <= v < 16
    ensures IsHexByte(h) && HexValue(h) == v
  {
    if v < 10 then 0x30 + v else 0x41 + v - 10
  }

  /** One input byte of the serializer: unchanged, `+` for a space, or `%XY`. */
  function EncodeByte(b: Byte): (r: seq<Byte>)
    ensures forall k :: 0 <= k < |r| ==> IsUnreserved(r[k]) || r[k] == 0x2B || r[k] == 0x25
  {
    if b == 0x20 then [0x2B]
    else if IsUnreserved(b) then [b]
    else [0x25, HexByte(b / 16), HexByte(b % 16)]
  }

  function EncodeBytes(bs: seq<Byte>): (r: seq<Byte>)
    ensures forall k :: 0 <= k < |r| ==> IsUnreserved(r[k]) || r[k] == 0x2B || r[k] == 0x25
  {
    if bs == [] then [] else EncodeByte(bs[0]) + EncodeBytes(bs[1..])
  }

  /** The serializer's output for one name or value. */
  function EncodeComponent(s: string): seq<Byte> {
    EncodeBytes(Utf8.Encode(s))
  }

  /** `name=value` for one pair. */
  function Piece(p: Pair): seq<Byte> {
    EncodeComponent(p.0) + [0x3D] + EncodeComponent(p.1)
  }

  function Pieces(list: seq<Pair>): (r: seq<seq<Byte>>)
    ensures |r| == |list|
    ensures forall k :: 0 <= k < |list| ==> r[k] == Piece(list[k])
  {
    if list == [] then [] else [Piece(list[0])] + Pieces(list[1..])
  }

  /** The serialization of a list, as bytes: the pieces joined by `&`. */
  function SerializeBytes(list: seq<Pair>): seq<Byte> {
    if list == [] then [] else Join(Pieces(list), 0x26)
  }

  /** Bytes as the characters with the same code. */
  function AsChars(bs: seq<Byte>): (s: string)
    ensures |s| == |bs| && forall k :: 0 <= k < |bs| ==> s[k] as int == bs[k]
  {
    if bs == [] then [] else [bs[0] as char] + AsChars(bs[1..])
  }

  /** `URLSearchParams.toString()`: the application/x-www-form-urlencoded serializer. */
  function Serialize(list: seq<Pair>): string {
    AsChars(SerializeBytes(list))
  }

  /** The empty query holds no pairs. */
  lemma ParseEmpty()
    ensures Parse("") == []
  {
    assert Utf8.Encode("") == [];
    assert Split([], 0x26) == [[]];
  }

  /** Text made of bytes the serializer copies unchanged. */
  predicate IsUnreservedText(s: string) {
    forall k :: 0 <= k < |s| ==> s[k] as int < 0x80 && IsUnreserved(s[k] as int)
  }

  lemma {:induction false} EncodeBytesUnreserved(bs: seq<Byte>)
    requires forall k :: 0 <= k < |bs| ==> IsUnreserved(bs[k])
    ensures EncodeBytes(bs) == bs
  {
    if bs != [] {
      EncodeBytesUnreserved(bs[1..]);
    }
  }

  /** A pair of unreserved texts serializes as `name=value`, with nothing escaped. */
  lemma SerializeUnreservedPair(name: string, value: string)
    requires IsUnreservedText(name) && IsUnreservedText(value)
    ensures Serialize([(name, value)]) == name + "=" + value
  {
    var n, v := Utf8.Encode(name), Utf8.Encode(value);
    UnreservedBytes(name);
    UnreservedBytes(value);
    assert SerializeBytes([(name, value)]) == n + [0x3D] + v;
    AsCharsAppend(n + [0x3D], v);
    AsCharsAppend(n, [0x3D]);
  }

  /** Two pairs serialize as the two single serializations joined by `&`. */
  lemma SerializeTwo(p: Pair, q: Pair)
    ensures Serialize([p, q]) == Serialize([p]) + "&" + Serialize([q])
  {
    var a, b := Piece(p), Piece(q);
    assert Pieces([p, q]) == [a, b];
    JoinTwo(a, b, 0x26);
    assert SerializeBytes([p]) == a && SerializeBytes([q]) == b;
    AsCharsAppend(a + [0x26], b);
    AsCharsAppend(a, [0x26]);
  }

  /** Unreserved text is its own encoding, byte for byte. */
  lemma UnreservedBytes(s: string)
    requires IsUnreservedText(s)
    ensures EncodeComponent(s) == Utf8.Encode(s)
    ensures AsChars(Utf8.Encode(s)) == s
  {
    Utf8.EncodeAscii(s);
    EncodeBytesUnreserved(Utf8.Encode(s));
  }

  lemma {:induction false} AsCharsAppend(a: seq<Byte>, b: seq<Byte>)
    ensures AsChars(a + b) == AsChars(a) + AsChars(b)
  {
    if a == [] {
      assert a + b == b;
    } else {
      assert (a + b)[1..] == a[1..] + b;
      AsCharsAppend(a[1..], b);
    }
  }

  // ---------------------------------------------------------------------
  // parser (section 5.1)

  predicate IsHexByte(b: Byte) {
    0x30 <= b <= 0x39 || 0x41 <= b <= 0x46 || 0x61 <= b <= 0x66
  }

  function HexValue(b: Byte): (v: int)
    requires IsHexByte(b)
    ensures 0 <= v < 16
  {
    if b <= 0x39 then b - 0x30 else if b <= 0x46 then b - 0x41 + 10 else b - 0x61 + 10
  }

  /** Percent-decode (section 1.3): `%XY` with two hex digits becomes byte 0xXY, anything else stays. */
  function PercentDecode(bs: seq<Byte>): seq<Byte> {
    if bs == [] then []
    else if bs[0] == 0x25 && |bs| >= 3 && IsHexByte(bs[1]) && IsHexByte(bs[2]) then
      [HexValue(bs[1]) * 16 + HexValue(bs[2])] + PercentDecode(bs[3..])
    else [bs[0]] + PercentDecode(bs[1..])
  }

  /** Replaces every `+` by a space. */
  function PlusToSpace(bs: seq<Byte>): (r: seq<Byte>)
    ensures |r| == |bs|
  {
    if bs == [] then [] else [if bs[0] == 0x2B then 0x20 else bs[0]] + PlusToSpace(bs[1..])
  }

  /** A name or value as the parser reads it. */
  function DecodeComponent(bs: seq<Byte>): string {
    Utf8.Decode(PercentDecode(PlusToSpace(bs)))
  }

  /** One `&`-free byte sequence: the name runs to the first `=`, the value is the rest. */
  function ParseSequence(bs: seq<Byte>): Pair {
    var name := TakeUntil(bs, 0x3D);
    var value := if |name| < |bs| then bs[|name| + 1..] else [];
    (DecodeComponent(name), DecodeComponent(value))
  }

  /** Empty sequences are skipped. */
  function ParseSequences(seqs: seq<seq<Byte>>): seq<Pair> {
    if seqs == [] then []
    else if seqs[0] == [] then ParseSequences(seqs[1..])
    else [ParseSequence(seqs[0])] + ParseSequences(seqs[1..])
  }

  /** The application/x-www-form-urlencoded parser, applied to the UTF-8 encoding of `input`. */
  function Parse(input: string): seq<Pair> {
    ParseSequences(Split(Utf8.Encode(input), 0x26))
  }

  // ---------------------------------------------------------------------
  // round trip

  lemma {:induction false} EncodeAsChars(bs: seq<Byte>)
    requires forall k :: 0 <= k < |bs| ==> bs[k] < 0x80
    ensures Utf8.Encode(AsChars(bs)) == bs
  {
    if bs != [] {
      EncodeAsChars(bs[1..]);
    }
  }

  lemma {:induction false} PlusToSpaceAppend(a: seq<Byte>, b: seq<Byte>)
    ensures PlusToSpace(a + b) == PlusToSpace(a) + PlusToSpace(b)
  {
    if a == [] {
      assert a + b == b;
    } else {
      assert (a + b)[0] == a[0] && (a + b)[1..] == a[1..] + b;
      PlusToSpaceAppend(a[1..], b);
    }
  }

  lemma {:induction false} PlusToSpaceNoPlus(bs: seq<Byte>)
    requires 0x2B !in bs
    ensures PlusToSpace(bs) == bs
  {
    if bs != [] {
      PlusToSpaceNoPlus(bs[1..]);
    }
  }

  /** Decoding the serializer's output for one byte gives the byte back. */
  lemma DecodeOneByte(b: Byte, rest: seq<Byte>)
    ensures PercentDecode(PlusToSpace(EncodeByte(b)) + rest) == [b] + PercentDecode(rest)
  {
    var e := EncodeByte(b);
    if b == 0x20 {
      assert PlusToSpace(e) + rest == [0x20] + rest;
    } else if IsUnreserved(b) {
      assert PlusToSpace(e) + rest == [b] + rest;
    } else {
      PlusToSpaceNoPlus(e);
      var x := e + rest;
      assert x[3..] == rest;
      assert HexValue(x[1]) * 16 + HexValue(x[2]) == b;
    }
  }

  lemma {:induction false} DecodeEncodeBytes(bs: seq<Byte>)
    ensures PercentDecode(PlusToSpace(EncodeBytes(bs))) == bs
  {
    if bs != [] {
      PlusToSpaceAppend(EncodeByte(bs[0]), EncodeBytes(bs[1..]));
      DecodeOneByte(bs[0], PlusToSpace(EncodeBytes(bs[1..])));
      DecodeEncodeBytes(bs[1..]);
    }
  }

  /** The parser reads back every name and value the serializer writes. */
  lemma DecodeEncodeComponent(s: string)
    ensures DecodeComponent(EncodeComponent(s)) == s
  {
    DecodeEncodeBytes(Utf8.Encode(s));
    Utf8.DecodeEncode(s);
  }

  /** No piece holds `&`, and the `=` after the name is its first. */
  lemma PieceShape(p: Pair)
    ensures 0x26 !in Piece(p) && Piece(p) != []
    ensures ParseSequence(Piece(p)) == p
  {
    var n, v := EncodeComponent(p.0), EncodeComponent(p.1);
    assert 0x3D !in n;
    assert forall k :: 0 <= k < |Piece(p)| ==> Piece(p)[k] != 0x26;
    TakeUntilPrefix(n, 0x3D, v);
    assert Piece(p)[|n| + 1..] == v;
    DecodeEncodeComponent(p.0);
    DecodeEncodeComponent(p.1);
  }

  lemma {:induction false} ParsePieces(list: seq<Pair>)
    ensures ParseSequences(Pieces(list)) == list
  {
    if list != [] {
      PieceShape(list[0]);
      ParsePieces(list[1..]);
    }
  }

  /** Printable ASCII other than `#` and `?`: what may stand in a query written back to a URL. */
  predicate IsQueryByte(b: Byte) {
    0x20 < b < 0x80 && b != 0x23 && b != 0x3F
  }

  /** The serialization is printable ASCII and holds no `#` and no `?`. */
  lemma SerializeBytesShape(list: seq<Pair>)
    ensures forall k :: 0 <= k < |SerializeBytes(list)| ==> IsQueryByte(SerializeBytes(list)[k])
  {
    if list != [] {
      var ps := Pieces(list);
      forall i | 0 <= i < |ps| ensures forall k :: 0 <= k < |ps[i]| ==> IsQueryByte(ps[i][k]) {
        PieceBytes(list[i]);
      }
      JoinShape(ps);
    }
  }

  /** Every byte of `name=value` may stand in a query. */
  lemma PieceBytes(p: Pair)
    ensures forall k :: 0 <= k < |Piece(p)| ==> IsQueryByte(Piece(p)[k])
  {
    var n, v := EncodeComponent(p.0), EncodeComponent(p.1);
    forall k | 0 <= k < |Piece(p)| ensures IsQueryByte(Piece(p)[k]) {
      if k < |n| {
        assert Piece(p)[k] == n[k];
      } else if k > |n| {
        assert Piece(p)[k] == v[k - |n| - 1];
      }
    }
  }

  lemma {:induction false} JoinShape(ps: seq<seq<Byte>>)
    requires |ps| >= 1
    requires forall i :: 0 <= i < |ps| ==> forall k :: 0 <= k < |ps[i]| ==> IsQueryByte(ps[i][k])
    ensures forall k :: 0 <= k < |Join(ps, 0x26)| ==> IsQueryByte(Join(ps, 0x26)[k])
  {
    if |ps| > 1 {
      JoinShape(ps[1..]);
    }
  }

  /** Parsing a serialization gives back the list, names, values, order and repeats included. */
  lemma ParseSerialize(list: seq<Pair>)
    ensures Parse(Serialize(list)) == list
  {
    SerializeBytesShape(list);
    EncodeAsChars(SerializeBytes(list));
    if list == [] {
      assert Split(Utf8.Encode(Serialize(list)), 0x26) == [[]];
    } else {
      var ps := Pieces(list);
      forall i | 0 <= i < |ps| ensures 0x26 !in ps[i] {
        PieceShape(list[i]);
      }
      SplitJoin(ps, 0x26);
      ParsePieces(list);
    }
  }

  /** Only the empty list serializes to the empty string. */
  lemma SerializeEmpty(list: seq<Pair>)
    ensures Serialize(list) == "" <==> list == []
  {
    if list != [] {
      var ps := Pieces(list);
      PieceShape(list[0]);
      JoinLength(ps);
    }
  }

  lemma {:induction false} JoinLength(ps: seq<seq<Byte>>)
    requires |ps| >= 1
    ensures |Join(ps, 0x26)| >= |ps[0]|
  {
  }
}
