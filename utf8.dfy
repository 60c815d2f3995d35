/**
  UTF-8 as the URL Standard uses it: "UTF-8 encode" of a string and
  "UTF-8 decode without BOM" of a byte sequence, the latter being the UTF-8
  decoder of the Encoding Standard (section 9.1.1) run in replacement mode.
*/
module Utf8 {

  type Byte = b: int | 0 <= b < 0x100

  /** U+FFFD, emitted for every decoding error. */
  const Replacement: char := '\U{FFFD}'

  // ---------------------------------------------------------------------
  // encoder

  /** The one to four bytes that encode a code point. */
  function EncodeChar(c: char): (bs: seq<Byte>)
    ensures 1 <= |bs| <= 4
    ensures |bs| == 1 <==> c as int < 0x80
    ensures |bs| == 1 ==> bs[0] == c as int
  {
    var n := c as int;
    if n < 0x80 then [n]
    else if n < 0x800 then [0xC0 + n / 0x40, 0x80 + n % 0x40]
    else if n < 0x10000 then [0xE0 + n / 0x1000, 0x80 + n / 0x40 % 0x40, 0x80 + n % 0x40]
    else [0xF0 + n / 0x40000, 0x80 + n / 0x1000 % 0x40, 0x80 + n / 0x40 % 0x40, 0x80 + n % 0x40]
  }

  /** UTF-8 encode. */
  function Encode(s: string): seq<Byte> {
    if s == [] then [] else EncodeChar(s[0]) + Encode(s[1..])
  }

  lemma {:induction false} EncodeAppend(a: string, b: string)
    ensures Encode(a + b) == Encode(a) + Encode(b)
  {
    if a == [] {
      assert a + b == b;
    } else {
      assert (a + b)[0] == a[0] && (a + b)[1..] == a[1..] + b;
      EncodeAppend(a[1..], b);
    }
  }

  predicate IsAscii(s: string) {
    forall k :: 0 <= k < |s| ==> s[k] as int < 0x80
  }

  /** An ASCII string encodes to its own code units, one byte each. */
  lemma {:induction false} EncodeAscii(s: string)
    requires IsAscii(s)
    ensures |Encode(s)| == |s|
    ensures forall k :: 0 <= k < |s| ==> Encode(s)[k] == s[k] as int
  {
    if s != [] {
      EncodeAscii(s[1..]);
    }
  }

  // ---------------------------------------------------------------------
  // decoder

  /** The UTF-8 decoder's variables: code point, bytes seen, bytes needed, lower and upper boundary. */
  datatype Decoder = Decoder(codePoint: int, bytesSeen: nat, bytesNeeded: nat, lower: Byte, upper: Byte)

  const Fresh := Decoder(0, 0, 0, 0x80, 0xBF)

  /**
    The states the decoder can be in between two bytes. The ranges keep
    every code point it completes a Unicode scalar value: the boundaries
    set after E0, ED, F0 and F4 rule out overlong forms, surrogates and
    values above U+10FFFF.
  */
  ghost predicate Consistent(d: Decoder) {
    if d.bytesNeeded == 0 then d == Fresh
    else if d.bytesNeeded == 1 then
      d.bytesSeen == 0 && 2 <= d.codePoint <= 0x1F && d.lower == 0x80 && d.upper == 0xBF
    else if d.bytesNeeded == 2 then
      if d.bytesSeen == 0 then
        0 <= d.codePoint <= 0xF
        && d.lower == (if d.codePoint == 0 then 0xA0 else 0x80)
        && d.upper == (if d.codePoint == 0xD then 0x9F else 0xBF)
      else
        d.bytesSeen == 1 && 0x20 <= d.codePoint <= 0x3FF && !(0x360 <= d.codePoint <= 0x37F)
        && d.lower == 0x80 && d.upper == 0xBF
    else if d.bytesNeeded == 3 then
      if d.bytesSeen == 0 then
        0 <= d.codePoint <= 4
        && d.lower == (if d.codePoint == 0 then 0x90 else 0x80)
        && d.upper == (if d.codePoint == 4 then 0x8F else 0xBF)
      else if d.bytesSeen == 1 then
        0x10 <= d.codePoint <= 0x10F && d.lower == 0x80 && d.upper == 0xBF
      else
        d.bytesSeen == 2 && 0x400 <= d.codePoint <= 0x43FF && d.lower == 0x80 && d.upper == 0xBF
    else false
  }

  /**
    Runs the decoder over `bytes` from state `d`. A byte outside the
    boundaries ends the sequence in progress with U+FFFD and is read again;
    a sequence cut off by the end of input gives one U+FFFD.
  */
  function DecodeFrom(bytes: seq<Byte>, d: Decoder): string
    requires Consistent(d)
    decreases |bytes|, d.bytesNeeded
  {
    if bytes == [] then
      if d.bytesNeeded != 0 then [Replacement] else []
    else
      var b := bytes[0];
      if d.bytesNeeded == 0 then
        if b <= 0x7F then [b as char] + DecodeFrom(bytes[1..], Fresh)
        else if 0xC2 <= b <= 0xDF then
          DecodeFrom(bytes[1..], Decoder(b - 0xC0, 0, 1, 0x80, 0xBF))
        else if 0xE0 <= b <= 0xEF then
          DecodeFrom(bytes[1..], Decoder(b - 0xE0, 0, 2, if b == 0xE0 then 0xA0 else 0x80, if b == 0xED then 0x9F else 0xBF))
        else if 0xF0 <= b <= 0xF4 then
          DecodeFrom(bytes[1..], Decoder(b - 0xF0, 0, 3, if b == 0xF0 then 0x90 else 0x80, if b == 0xF4 then 0x8F else 0xBF))
        else [Replacement] + DecodeFrom(bytes[1..], Fresh)
      else if !(d.lower <= b <= d.upper) then
        [Replacement] + DecodeFrom(bytes, Fresh)
      else
        var cp := d.codePoint * 0x40 + (b - 0x80);
        if d.bytesSeen + 1 < d.bytesNeeded then
          DecodeFrom(bytes[1..], Decoder(cp, d.bytesSeen + 1, d.bytesNeeded, 0x80, 0xBF))
        else [cp as char] + DecodeFrom(bytes[1..], Fresh)
  }

  /** UTF-8 decode without BOM. */
  function Decode(bytes: seq<Byte>): string {
    DecodeFrom(bytes, Fresh)
  }

  lemma DecodeTwo(n: int, rest: seq<Byte>)
    requires 0x80 <= n < 0x800
    ensures DecodeFrom([0xC0 + n / 0x40, 0x80 + n % 0x40] + rest, Fresh) == [n as char] + DecodeFrom(rest, Fresh)
  {
    var bs := [0xC0 + n / 0x40, 0x80 + n % 0x40] + rest;
    var d1 := Decoder(n / 0x40, 0, 1, 0x80, 0xBF);
    assert bs[1..] == [0x80 + n % 0x40] + rest;
    assert DecodeFrom(bs, Fresh) == DecodeFrom(bs[1..], d1);
    assert bs[1..][1..] == rest;
  }

  /** A lead byte of a three-byte sequence sets the decoder up for two more. */
  lemma StartThree(b: Byte, rest: seq<Byte>)
    requires 0xE0 <= b <= 0xEF
    ensures DecodeFrom([b] + rest, Fresh)
         == DecodeFrom(rest, Decoder(b - 0xE0, 0, 2, if b == 0xE0 then 0xA0 else 0x80, if b == 0xED then 0x9F else 0xBF))
  {
    assert ([b] + rest)[1..] == rest;
  }

  /** A lead byte of a four-byte sequence sets the decoder up for three more. */
  lemma StartFour(b: Byte, rest: seq<Byte>)
    requires 0xF0 <= b <= 0xF4
    ensures DecodeFrom([b] + rest, Fresh)
         == DecodeFrom(rest, Decoder(b - 0xF0, 0, 3, if b == 0xF0 then 0x90 else 0x80, if b == 0xF4 then 0x8F else 0xBF))
  {
    assert ([b] + rest)[1..] == rest;
  }

  /** A continuation byte within the boundaries, not the last one needed, adds six bits. */
  lemma Continue(b: Byte, rest: seq<Byte>, d: Decoder)
    requires Consistent(d) && d.bytesNeeded != 0 && d.lower <= b <= d.upper
    requires d.bytesSeen + 1 < d.bytesNeeded
    ensures Consistent(Decoder(d.codePoint * 0x40 + (b - 0x80), d.bytesSeen + 1, d.bytesNeeded, 0x80, 0xBF))
    ensures DecodeFrom([b] + rest, d)
         == DecodeFrom(rest, Decoder(d.codePoint * 0x40 + (b - 0x80), d.bytesSeen + 1, d.bytesNeeded, 0x80, 0xBF))
  {
    assert ([b] + rest)[1..] == rest;
  }

  /** The last continuation byte within the boundaries completes the code point. */
  lemma Finish(b: Byte, rest: seq<Byte>, d: Decoder)
    requires Consistent(d) && d.bytesNeeded != 0 && d.lower <= b <= d.upper
    requires d.bytesSeen + 1 == d.bytesNeeded
    ensures var cp := d.codePoint * 0x40 + (b - 0x80);
      && (0 <= cp < 0xD800 || 0xE000 <= cp < 0x110000)
      && DecodeFrom([b] + rest, d) == [cp as char] + DecodeFrom(rest, Fresh)
  {
    assert ([b] + rest)[1..] == rest;
  }

  lemma ThreeByteDigits(n: int)
    requires 0x800 <= n < 0xD800 || 0xE000 <= n < 0x10000
    ensures 0 <= n / 0x1000 <= 0xF
    ensures n / 0x1000 == 0 ==> n / 0x40 % 0x40 >= 0x20
    ensures n / 0x1000 == 0xD ==> n / 0x40 % 0x40 <= 0x1F
    ensures n / 0x1000 * 0x40 + n / 0x40 % 0x40 == n / 0x40
    ensures n / 0x40 * 0x40 + n % 0x40 == n
  {
  }

  /** Three bytes carrying the six-bit digits `q0`, `q1`, `q2` decode to one code point. */
  lemma DecodeThreeDigits(q0: int, q1: int, q2: int, rest: seq<Byte>)
    requires 0 <= q0 <= 0xF && 0 <= q1 < 0x40 && 0 <= q2 < 0x40
    requires q0 == 0 ==> q1 >= 0x20
    requires q0 == 0xD ==> q1 <= 0x1F
    ensures var n := (q0 * 0x40 + q1) * 0x40 + q2;
      && (0 <= n < 0xD800 || 0xE000 <= n < 0x110000)
      && DecodeFrom([0xE0 + q0, 0x80 + q1, 0x80 + q2] + rest, Fresh) == [n as char] + DecodeFrom(rest, Fresh)
  {
    var b0, b1, b2 := 0xE0 + q0, 0x80 + q1, 0x80 + q2;
    assert [b0, b1, b2] + rest == [b0] + ([b1] + ([b2] + rest));
    StartThree(b0, [b1] + ([b2] + rest));
    var d1 := Decoder(q0, 0, 2, if b0 == 0xE0 then 0xA0 else 0x80, if b0 == 0xED then 0x9F else 0xBF);
    Continue(b1, [b2] + rest, d1);
    Finish(b2, rest, Decoder(q0 * 0x40 + q1, 1, 2, 0x80, 0xBF));
  }

  lemma DecodeThree(c: char, rest: seq<Byte>)
    requires 0x800 <= c as int < 0x10000
    ensures DecodeFrom(EncodeChar(c) + rest, Fresh) == [c] + DecodeFrom(rest, Fresh)
  {
    var n := c as int;
    ThreeByteDigits(n);
    var q0, q1, q2 := n / 0x1000, n / 0x40 % 0x40, n % 0x40;
    assert EncodeChar(c) == [0xE0 + q0, 0x80 + q1, 0x80 + q2];
    DecodeThreeDigits(q0, q1, q2, rest);
  }

  lemma FourByteDigits(n: int)
    requires 0x10000 <= n < 0x110000
    ensures 0 <= n / 0x40000 <= 4
    ensures n / 0x40000 == 0 ==> n / 0x1000 % 0x40 >= 0x10
    ensures n / 0x40000 == 4 ==> n / 0x1000 % 0x40 <= 0xF
    ensures n / 0x40000 * 0x40 + n / 0x1000 % 0x40 == n / 0x1000
    ensures n / 0x1000 * 0x40 + n / 0x40 % 0x40 == n / 0x40
    ensures n / 0x40 * 0x40 + n % 0x40 == n
  {
  }

  /** Four bytes carrying the six-bit digits `q0` to `q3` decode to one code point. */
  lemma DecodeFourDigits(q0: int, q1: int, q2: int, q3: int, rest: seq<Byte>)
    requires 0 <= q0 <= 4 && 0 <= q1 < 0x40 && 0 <= q2 < 0x40 && 0 <= q3 < 0x40
    requires q0 == 0 ==> q1 >= 0x10
    requires q0 == 4 ==> q1 <= 0xF
    ensures var n := ((q0 * 0x40 + q1) * 0x40 + q2) * 0x40 + q3;
      && (0 <= n < 0xD800 || 0xE000 <= n < 0x110000)
      && DecodeFrom([0xF0 + q0, 0x80 + q1, 0x80 + q2, 0x80 + q3] + rest, Fresh) == [n as char] + DecodeFrom(rest, Fresh)
  {
    var b0, b1, b2, b3 := 0xF0 + q0, 0x80 + q1, 0x80 + q2, 0x80 + q3;
    assert [b0, b1, b2, b3] + rest == [b0] + ([b1] + ([b2] + ([b3] + rest)));
    StartFour(b0, [b1] + ([b2] + ([b3] + rest)));
    var d1 := Decoder(q0, 0, 3, if b0 == 0xF0 then 0x90 else 0x80, if b0 == 0xF4 then 0x8F else 0xBF);
    Continue(b1, [b2] + ([b3] + rest), d1);
    LastTwo(Decoder(q0 * 0x40 + q1, 1, 3, 0x80, 0xBF), b2, b3, rest);
  }

  /** The last two continuation bytes of a four-byte sequence complete the code point. */
  lemma LastTwo(d: Decoder, b2: Byte, b3: Byte, rest: seq<Byte>)
    requires Consistent(d) && d.bytesNeeded == 3 && d.bytesSeen == 1
    requires 0x80 <= b2 <= 0xBF && 0x80 <= b3 <= 0xBF
    ensures var n := (d.codePoint * 0x40 + (b2 - 0x80)) * 0x40 + (b3 - 0x80);
      && 0x10000 <= n < 0x110000
      && DecodeFrom([b2] + ([b3] + rest), d) == [n as char] + DecodeFrom(rest, Fresh)
  {
    Continue(b2, [b3] + rest, d);
    Finish(b3, rest, Decoder(d.codePoint * 0x40 + (b2 - 0x80), 2, 3, 0x80, 0xBF));
  }

  lemma DecodeFour(c: char, rest: seq<Byte>)
    requires 0x10000 <= c as int
    ensures DecodeFrom(EncodeChar(c) + rest, Fresh) == [c] + DecodeFrom(rest, Fresh)
  {
    var n := c as int;
    FourByteDigits(n);
    var q0, q1, q2, q3 := n / 0x40000, n / 0x1000 % 0x40, n / 0x40 % 0x40, n % 0x40;
    assert EncodeChar(c) == [0xF0 + q0, 0x80 + q1, 0x80 + q2, 0x80 + q3];
    DecodeFourDigits(q0, q1, q2, q3, rest);
  }

  /** Decoding the bytes of one code point yields that code point and leaves the decoder fresh. */
  lemma DecodeChar(c: char, rest: seq<Byte>)
    ensures DecodeFrom(EncodeChar(c) + rest, Fresh) == [c] + DecodeFrom(rest, Fresh)
  {
    var n := c as int;
    if n < 0x80 {
      assert (EncodeChar(c) + rest)[1..] == rest;
    } else if n < 0x800 {
      DecodeTwo(n, rest);
    } else if n < 0x10000 {
      DecodeThree(c, rest);
    } else {
      DecodeFour(c, rest);
    }
  }

  /** UTF-8 decode without BOM undoes UTF-8 encode. */
  lemma {:induction false} DecodeEncode(s: string)
    ensures Decode(Encode(s)) == s
  {
    if s != [] {
      DecodeChar(s[0], Encode(s[1..]));
      DecodeEncode(s[1..]);
    }
  }
}
