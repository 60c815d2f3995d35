/**
  The JavaScript string built-ins the core relies on: `split`, `includes`,
  `startsWith`, `toLowerCase` (on the ASCII letters it is used for), `trim`
  and the `\d`, `\s` and `.` character classes of regular expressions, plus
  the leftmost and rightmost scans a regular-expression engine performs.
*/
module JsString {
  import opened Optional

  // ---------------------------------------------------------------------
  // split and join

  /** `s.split(sep)` for a one-element separator: the maximal runs between separators. */
  function Split<T(==)>(s: seq<T>, sep: T): (parts: seq<seq<T>>)
    ensures |parts| >= 1
    ensures forall k :: 0 <= k < |parts| ==> sep !in parts[k]
  {
    if s == [] then [[]]
    else
      var rest := Split(s[1..], sep);
      if s[0] == sep then [[]] + rest
      else [[s[0]] + rest[0]] + rest[1..]
  }

  /** `parts.join(sep)`. */
  function Join<T>(parts: seq<seq<T>>, sep: T): seq<T>
    requires |parts| >= 1
  {
    if |parts| == 1 then parts[0] else parts[0] + [sep] + Join(parts[1..], sep)
  }

  lemma JoinTwo<T>(a: seq<T>, b: seq<T>, sep: T)
    ensures Join([a, b], sep) == a + [sep] + b
  {
    assert [a, b][1..] == [b];
  }

  lemma JoinThree<T>(a: seq<T>, b: seq<T>, c: seq<T>, sep: T)
    ensures Join([a, b, c], sep) == a + [sep] + b + [sep] + c
  {
    assert [a, b, c][1..] == [b, c];
    JoinTwo(b, c, sep);
  }

  /** A slice that equals a concatenation holds each piece at its place. */
  lemma SliceSplit<T>(s: seq<T>, i: nat, x: seq<T>, y: seq<T>)
    requires i + |x| + |y| <= |s| && s[i..i + |x| + |y|] == x + y
    ensures s[i..i + |x|] == x && s[i + |x|..i + |x| + |y|] == y
  {
    assert s[i..i + |x|] == s[i..i + |x| + |y|][..|x|];
    assert s[i + |x|..i + |x| + |y|] == s[i..i + |x| + |y|][|x|..];
  }

  /** The elements before the first `sep` (all of `s` when there is none). */
  function TakeUntil<T(==)>(s: seq<T>, sep: T): (r: seq<T>)
    ensures r <= s && sep !in r
    ensures |r| < |s| ==> s[|r|] == sep
  {
    if s == [] || s[0] == sep then [] else [s[0]] + TakeUntil(s[1..], sep)
  }

  /** A separator-free prefix followed by a separator is what TakeUntil returns. */
  lemma {:induction false} TakeUntilPrefix<T>(a: seq<T>, sep: T, b: seq<T>)
    requires sep !in a
    ensures TakeUntil(a + [sep] + b, sep) == a
  {
    if a != [] {
      assert (a + [sep] + b)[1..] == a[1..] + [sep] + b;
      TakeUntilPrefix(a[1..], sep, b);
      assert [a[0]] + a[1..] == a;
    }
  }

  /** The first part of a split is the run before the first separator. */
  lemma {:induction false} SplitHead<T>(s: seq<T>, sep: T)
    ensures Split(s, sep)[0] == TakeUntil(s, sep)
  {
    if s != [] {
      SplitHead(s[1..], sep);
    }
  }

  /** A split has a single part exactly when there is no separator. */
  lemma SplitSingle<T>(s: seq<T>, sep: T)
    ensures |Split(s, sep)| == 1 <==> sep !in s
  {
    if sep in s {
      var a := TakeUntil(s, sep);
      assert s == a + [sep] + s[|a| + 1..];
      SplitAfterFirst(a, sep, s[|a| + 1..]);
    } else {
      SplitNone(s, sep);
    }
  }

  /** Splitting a text that starts with a separator-free run `a` and a separator. */
  lemma {:induction false} SplitAfterFirst<T>(a: seq<T>, sep: T, b: seq<T>)
    requires sep !in a
    ensures Split(a + [sep] + b, sep) == [a] + Split(b, sep)
  {
    if a == [] {
      assert a + [sep] + b == [sep] + b;
      assert ([sep] + b)[1..] == b;
    } else {
      assert (a + [sep] + b)[1..] == a[1..] + [sep] + b;
      SplitAfterFirst(a[1..], sep, b);
      assert [a[0]] + a[1..] == a;
    }
  }

  /** A separator-free text is one part. */
  lemma {:induction false} SplitNone<T>(a: seq<T>, sep: T)
    requires sep !in a
    ensures Split(a, sep) == [a]
  {
    if a != [] {
      SplitNone(a[1..], sep);
      assert [a[0]] + a[1..] == a;
    }
  }

  /** Splitting undoes joining parts that hold no separator. */
  lemma {:induction false} SplitJoin<T>(parts: seq<seq<T>>, sep: T)
    requires |parts| >= 1
    requires forall k :: 0 <= k < |parts| ==> sep !in parts[k]
    ensures Split(Join(parts, sep), sep) == parts
  {
    if |parts| == 1 {
      SplitNone(parts[0], sep);
    } else {
      SplitJoin(parts[1..], sep);
      SplitAfterFirst(parts[0], sep, Join(parts[1..], sep));
      assert [parts[0]] + parts[1..] == parts;
    }
  }

  /** Joining undoes splitting. */
  lemma {:induction false} JoinSplit<T>(s: seq<T>, sep: T)
    ensures Join(Split(s, sep), sep) == s
  {
    if s != [] {
      JoinSplit(s[1..], sep);
      var rest := Split(s[1..], sep);
      if s[0] != sep {
        var parts := Split(s, sep);
        assert parts[0] == [s[0]] + rest[0] && parts[1..] == rest[1..];
        if |rest| > 1 {
          assert Join(rest, sep) == rest[0] + [sep] + Join(rest[1..], sep);
        }
      } else {
        assert Split(s, sep) == [[]] + rest;
      }
    }
  }

  // ---------------------------------------------------------------------
  // scans

  /** The least index in [lo, hi) where `p` holds: the leftmost match a regular-expression engine reports. */
  function FirstWhere(lo: nat, hi: nat, p: nat -> bool): (r: Option<nat>)
    decreases hi - lo
    ensures r.Some? ==> lo <= r.value < hi && p(r.value)
    ensures r.Some? ==> forall k :: lo <= k < r.value ==> !p(k)
    ensures r.None? ==> forall k :: lo <= k < hi ==> !p(k)
  {
    if lo >= hi then None
    else if p(lo) then Some(lo)
    else FirstWhere(lo + 1, hi, p)
  }

  /** The greatest index in [lo, hi) where `p` holds: what a greedy `.*` settles on. */
  function LastWhere(lo: nat, hi: nat, p: nat -> bool): (r: Option<nat>)
    decreases hi - lo
    ensures r.Some? ==> lo <= r.value < hi && p(r.value)
    ensures r.Some? ==> forall k :: r.value < k < hi ==> !p(k)
    ensures r.None? ==> forall k :: lo <= k < hi ==> !p(k)
  {
    if lo >= hi then None
    else if p(hi - 1) then Some(hi - 1)
    else LastWhere(lo, hi - 1, p)
  }

  // ---------------------------------------------------------------------
  // includes

  /** `t` occurs in `s` starting at index `i`. */
  predicate OccursAt(s: string, t: string, i: nat) {
    i + |t| <= |s| && s[i..i + |t|] == t
  }

  /** `s.indexOf(t)`, with `None` for -1. */
  function IndexOf(s: string, t: string): (r: Option<nat>)
    ensures r.Some? ==> OccursAt(s, t, r.value) && forall k :: 0 <= k < r.value ==> !OccursAt(s, t, k)
    ensures r.None? ==> forall k :: 0 <= k ==> !OccursAt(s, t, k)
  {
    var at := (i: nat) => OccursAt(s, t, i);
    assert forall k: nat :: at(k) == OccursAt(s, t, k);
    FirstWhere(0, |s| + 1, at)
  }

  /** `s.includes(t)`, also `/t/.test(s)` for a literal pattern `t`. */
  predicate Includes(s: string, t: string) {
    IndexOf(s, t).Some?
  }

  lemma IncludesAt(s: string, t: string, i: nat)
    requires OccursAt(s, t, i)
    ensures Includes(s, t)
  {
  }

  /** `includes` holds exactly when there is a position where `t` occurs. */
  lemma IncludesExists(s: string, t: string)
    ensures Includes(s, t) <==> exists i: nat :: OccursAt(s, t, i)
  {
  }

  // ---------------------------------------------------------------------
  // ASCII case

  predicate IsAsciiUpper(c: char) { 'A' <= c <= 'Z' }

  function AsciiLowerChar(c: char): char {
    if IsAsciiUpper(c) then (c as int + 32) as char else c
  }

  /**
    `s.toLowerCase()` restricted to ASCII letters. For the tokens this core
    looks for (`iphone`, `ipad`, `ipod`, `android`) the full Unicode mapping
    decides the same way: no other character lowers onto those letters
    without a combining mark after it.
  */
  function AsciiLower(s: string): (r: string)
    ensures |r| == |s|
    ensures forall k :: 0 <= k < |s| ==> r[k] == AsciiLowerChar(s[k])
  {
    if s == [] then [] else [AsciiLowerChar(s[0])] + AsciiLower(s[1..])
  }

  /** Lowering twice is lowering once. */
  lemma AsciiLowerIdempotent(s: string)
    ensures AsciiLower(AsciiLower(s)) == AsciiLower(s)
  {
  }

  // ---------------------------------------------------------------------
  // character classes

  /** `\d`: an ASCII digit (JavaScript regular expressions without the `u` flag). */
  predicate IsAsciiDigit(c: char) { '0' <= c <= '9' }

  /** `\s`, and what `trim` removes: WhiteSpace and LineTerminator of ECMAScript. */
  predicate IsJsSpace(c: char) {
    c == '\t' || c == '\n' || c == '\U{000B}' || c == '\U{000C}' || c == '\r' || c == ' '
    || c == '\U{00A0}' || c == '\U{1680}' || ('\U{2000}' <= c <= '\U{200A}')
    || c == '\U{2028}' || c == '\U{2029}' || c == '\U{202F}' || c == '\U{205F}'
    || c == '\U{3000}' || c == '\U{FEFF}'
  }

  /** The characters `.` does not match: ECMAScript LineTerminator. */
  predicate IsLineTerminator(c: char) {
    c == '\n' || c == '\r' || c == '\U{2028}' || c == '\U{2029}'
  }

  /** Length of the longest run of ASCII digits starting at `i` (a greedy `\d*`). */
  function DigitRun(s: string, i: nat): (n: nat)
    requires i <= |s|
    decreases |s| - i
    ensures i + n <= |s|
  {
    if i < |s| && IsAsciiDigit(s[i]) then 1 + DigitRun(s, i + 1) else 0
  }

  /** The run DigitRun measures is all digits, and no digit follows it. */
  lemma {:induction false} DigitRunDigits(s: string, i: nat)
    requires i <= |s|
    decreases |s| - i
    ensures forall k :: i <= k < i + DigitRun(s, i) ==> IsAsciiDigit(s[k])
    ensures i + DigitRun(s, i) == |s| || !IsAsciiDigit(s[i + DigitRun(s, i)])
  {
    if i < |s| && IsAsciiDigit(s[i]) {
      DigitRunDigits(s, i + 1);
    }
  }

  /** A digit run followed by a non-digit (or the end) is what DigitRun measures. */
  lemma {:induction false} DigitRunOf(s: string, i: nat, d: string)
    requires i + |d| <= |s| && s[i..i + |d|] == d
    requires forall k :: 0 <= k < |d| ==> IsAsciiDigit(d[k])
    requires i + |d| == |s| || !IsAsciiDigit(s[i + |d|])
    ensures DigitRun(s, i) == |d|
    decreases |d|
  {
    if d != [] {
      assert s[i] == s[i..i + |d|][0] == d[0];
      assert s[i + 1..i + 1 + |d[1..]|] == d[1..];
      DigitRunOf(s, i + 1, d[1..]);
    }
  }

  // ---------------------------------------------------------------------
  // trim

  /** Every character of `s` is white space. */
  predicate AllJsSpace(s: string) {
    forall k :: 0 <= k < |s| ==> IsJsSpace(s[k])
  }

  /** Where the white space at the start of `s[i..]` ends: the first non-white-space index, or `|s|`. */
  function SpaceEnd(s: string, i: nat): (n: nat)
    requires i <= |s|
    decreases |s| - i
    ensures i <= n <= |s|
    ensures forall k :: i <= k < n ==> IsJsSpace(s[k])
    ensures n == |s| || !IsJsSpace(s[n])
  {
    if i < |s| && IsJsSpace(s[i]) then SpaceEnd(s, i + 1) else i
  }

  /** Where the white space at the end of `s[lo..j]` starts: just past its last non-white-space character, or `lo`. */
  function SpaceStart(s: string, lo: nat, j: nat): (m: nat)
    requires lo <= j <= |s|
    decreases j
    ensures lo <= m <= j
    ensures forall k :: m <= k < j ==> IsJsSpace(s[k])
    ensures m == lo || !IsJsSpace(s[m - 1])
  {
    if lo < j && IsJsSpace(s[j - 1]) then SpaceStart(s, lo, j - 1) else j
  }

  /**
    `s.trim()`: `s` with the white space at both ends dropped. The result
    is the part of `s` that starts after the leading white space, everything
    dropped before and after it is white space, it neither starts nor ends
    with white space, and it is empty exactly when `s` is all white space;
    together these fix the result. An already trimmed text is kept as it is.
  */
  function Trim(s: string): (r: string)
    ensures SpaceEnd(s, 0) + |r| <= |s| && r == s[SpaceEnd(s, 0)..SpaceEnd(s, 0) + |r|]
    ensures forall k :: 0 <= k < SpaceEnd(s, 0) ==> IsJsSpace(s[k])
    ensures forall k :: SpaceEnd(s, 0) + |r| <= k < |s| ==> IsJsSpace(s[k])
    ensures r == [] || (!IsJsSpace(r[0]) && !IsJsSpace(r[|r| - 1]))
    ensures r == [] <==> AllJsSpace(s)
    ensures s == [] || (!IsJsSpace(s[0]) && !IsJsSpace(s[|s| - 1])) ==> r == s
  {
    var i := SpaceEnd(s, 0);
    var j := SpaceStart(s, i, |s|);
    assert i < j ==> s[i..j][0] == s[i] && s[i..j][j - i - 1] == s[j - 1];
    s[i..j]
  }

  /** An occurrence survives lowering both texts. */
  lemma LowerOccurs(s: string, t: string, i: nat)
    requires OccursAt(s, t, i)
    ensures OccursAt(AsciiLower(s), AsciiLower(t), i)
  {
    var ls, lt := AsciiLower(s), AsciiLower(t);
    assert forall k :: 0 <= k < |t| ==> ls[i..i + |t|][k] == lt[k] by {
      forall k | 0 <= k < |t| ensures ls[i..i + |t|][k] == lt[k] {
        assert s[i..i + |t|][k] == t[k];
      }
    }
  }
}
