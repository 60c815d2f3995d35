/**
  The device fingerprint the site sends along with an app install: the
  platform, OS version and device model read off the user-agent with
  regular expressions, the screen size, time zone and language of the
  browser, and the user-agent itself. Each regular expression is modelled
  by the match a backtracking engine finds: the leftmost start, greedy
  repetition, and the groups it captures there.
*/
module DeviceFingerprint {
  import opened Optional
  import opened JsString
  import Deeplink
  import Env = Environment

  /** The `platform` field: `'iOS' | 'Android' | 'Web'`. */
  datatype Platform = IOS | Android | Web

  // ---------------------------------------------------------------------
  // platform

  /** `/iPhone|iPad|iPod/.test(userAgent)`: case-sensitive. */
  predicate NamesAppleDevice(ua: string) {
    Includes(ua, "iPhone") || Includes(ua, "iPad") || Includes(ua, "iPod")
  }

  /** The platform of a user-agent: iOS for an Apple device name, else Android for `Android`, else Web. */
  function ClassifyPlatform(ua: string): (p: Platform)
    ensures p == IOS <==> NamesAppleDevice(ua)
    ensures p == Android <==> !NamesAppleDevice(ua) && Includes(ua, "Android")
  {
    if NamesAppleDevice(ua) then IOS
    else if Includes(ua, "Android") then Android
    else Web
  }

  // ---------------------------------------------------------------------
  // iOS version: /OS (\d+)_(\d+)_?(\d+)?/

  /**
    The groups of `/OS (\d+)_(\d+)_?(\d+)?/` matched at `i`, if it matches
    there: two digit runs, and a third when `_` and a digit follow. Each
    `\d+` takes the whole run (a shorter one leaves a digit where `_` or the
    end is needed). The groups are what the matched text holds between
    the underscores.
  */
  function IosMatchAt(ua: string, i: nat): (g: Option<seq<string>>)
    ensures g.Some? ==> OccursAt(ua, "OS ", i)
  {
    if !OccursAt(ua, "OS ", i) then None else IosGroupsFrom(ua, i + 3)
  }

  /** The groups of `(\d+)_(\d+)_?(\d+)?` matched at `p`. */
  function IosGroupsFrom(ua: string, p: nat): (g: Option<seq<string>>)
    requires p <= |ua|
  {
    var q := p + DigitRun(ua, p);
    if q == p || q == |ua| || ua[q] != '_' then None
    else
      var r := q + 1 + DigitRun(ua, q + 1);
      if r == q + 1 then None
      else if r < |ua| && ua[r] == '_' && DigitRun(ua, r + 1) > 0 then
        Some([ua[p..q], ua[q + 1..r], ua[r + 1..r + 1 + DigitRun(ua, r + 1)]])
      else
        Some([ua[p..q], ua[q + 1..r]])
  }

  predicate AllDigits(s: string) {
    forall k :: 0 <= k < |s| ==> IsAsciiDigit(s[k])
  }

  /** One run: the matched text is the run. */
  lemma MatchedOne(ua: string, p: nat, q: nat)
    requires p <= q <= |ua|
    ensures OccursAt(ua, Join([ua[p..q]], '.'), p)
  {
  }

  /** Two runs with a separator between them: the matched text is their join. */
  lemma MatchedTwo(ua: string, p: nat, q: nat, r: nat, sep: char)
    requires p <= q < r <= |ua| && ua[q] == sep
    ensures OccursAt(ua, Join([ua[p..q], ua[q + 1..r]], sep), p)
  {
    JoinTwo(ua[p..q], ua[q + 1..r], sep);
    assert ua[p..q] + [sep] + ua[q + 1..r] == ua[p..r];
  }

  /** Three runs with separators between them: the matched text is their join. */
  lemma MatchedThree(ua: string, p: nat, q: nat, r: nat, e: nat, sep: char)
    requires p <= q < r < e <= |ua| && ua[q] == sep && ua[r] == sep
    ensures OccursAt(ua, Join([ua[p..q], ua[q + 1..r], ua[r + 1..e]], sep), p)
  {
    JoinThree(ua[p..q], ua[q + 1..r], ua[r + 1..e], sep);
    assert ua[p..q] + [sep] + ua[q + 1..r] + [sep] + ua[r + 1..e] == ua[p..e];
  }

  /** An occurrence of `x` followed by one of `y` is an occurrence of `x + y`. */
  lemma OccursJoin(s: string, i: nat, x: string, y: string)
    requires OccursAt(s, x, i) && OccursAt(s, y, i + |x|)
    ensures OccursAt(s, x + y, i)
  {
    assert s[i..i + |x| + |y|] == s[i..i + |x|] + s[i + |x|..i + |x| + |y|];
  }

  /** The leftmost start of an iOS version match. */
  function IosMatchStart(ua: string): (at: Option<nat>)
    ensures at.Some? ==> IosMatchAt(ua, at.value).Some?
    ensures at.Some? ==> forall k :: 0 <= k < at.value ==> IosMatchAt(ua, k).None?
    ensures at.None? ==> forall k: nat :: IosMatchAt(ua, k).None?
  {
    var matches := (i: nat) => IosMatchAt(ua, i).Some?;
    assert forall k: nat :: matches(k) == IosMatchAt(ua, k).Some?;
    var at := FirstWhere(0, |ua| + 1, matches);
    assert forall k: nat :: k > |ua| ==> !OccursAt(ua, "OS ", k);
    at
  }

  /**
    The `osVersion` of an iOS user-agent: `${major}.${minor}`, followed by
    `.${patch}` when the third group matched, at the leftmost match.
  */
  function IosOsVersion(ua: string): string {
    var at := IosMatchStart(ua);
    if at.None? then "Unknown" else Join(IosMatchAt(ua, at.value).value, '.')
  }

  // ---------------------------------------------------------------------
  // Android version: /Android (\d+\.?\d*\.?\d*)/

  /**
    The `.`-separated parts of the group of `/Android (\d+\.?\d*\.?\d*)/`
    matched at `i`, if it matches there: a digit run, then up to two more
    steps of `.` and a digit run, each taken greedily (a step's run may be
    empty). The group is the parts joined by `.`.
  */
  function AndroidVersionAt(ua: string, i: nat): (v: Option<seq<string>>)
    ensures v.Some? ==> OccursAt(ua, "Android ", i)
  {
    if !OccursAt(ua, "Android ", i) then None else AndroidPartsFrom(ua, i + 8)
  }

  /** The parts of `\d+\.?\d*\.?\d*` matched at `p`. */
  function AndroidPartsFrom(ua: string, p: nat): (v: Option<seq<string>>)
    requires p <= |ua|
  {
    var q := p + DigitRun(ua, p);
    if q == p then None
    else if q < |ua| && ua[q] == '.' then
      var r := q + 1 + DigitRun(ua, q + 1);
      if r < |ua| && ua[r] == '.' then
        Some([ua[p..q], ua[q + 1..r], ua[r + 1..r + 1 + DigitRun(ua, r + 1)]])
      else
        Some([ua[p..q], ua[q + 1..r]])
    else
      Some([ua[p..q]])
  }

  /** The leftmost start of an Android version match. */
  function AndroidVersionStart(ua: string): (at: Option<nat>)
    ensures at.Some? ==> AndroidVersionAt(ua, at.value).Some?
    ensures at.Some? ==> forall k :: 0 <= k < at.value ==> AndroidVersionAt(ua, k).None?
    ensures at.None? ==> forall k: nat :: AndroidVersionAt(ua, k).None?
  {
    var matches := (i: nat) => AndroidVersionAt(ua, i).Some?;
    assert forall k: nat :: matches(k) == AndroidVersionAt(ua, k).Some?;
    var at := FirstWhere(0, |ua| + 1, matches);
    assert forall k: nat :: k > |ua| ==> !OccursAt(ua, "Android ", k);
    at
  }

  /** The `osVersion` of an Android user-agent. */
  function AndroidOsVersion(ua: string): string {
    var at := AndroidVersionStart(ua);
    if at.None? then "Unknown" else Join(AndroidVersionAt(ua, at.value).value, '.')
  }

  /** The text DigitRun measures is all digits. */
  lemma RunIsDigits(s: string, i: nat)
    requires i <= |s|
    ensures AllDigits(s[i..i + DigitRun(s, i)])
  {
    DigitRunDigits(s, i);
    var run := s[i..i + DigitRun(s, i)];
    forall k | 0 <= k < |run| ensures IsAsciiDigit(run[k]) {
      assert run[k] == s[i + k];
    }
  }

  /** The iOS groups are two or three non-empty digit runs. */
  lemma IosGroupsDigits(ua: string, i: nat)
    requires IosMatchAt(ua, i).Some?
    ensures var g := IosMatchAt(ua, i).value;
      && 2 <= |g| <= 3
      && forall k :: 0 <= k < |g| ==> g[k] != [] && AllDigits(g[k])
  {
    IosMatchFrom(ua, i);
    var p := i + 3;
    var q := p + DigitRun(ua, p);
    RunIsDigits(ua, p);
    RunIsDigits(ua, q + 1);
    var r := q + 1 + DigitRun(ua, q + 1);
    if r < |ua| {
      RunIsDigits(ua, r + 1);
    }
  }

  /** The Android parts are one to three digit runs, the first non-empty. */
  lemma AndroidPartsDigits(ua: string, i: nat)
    requires AndroidVersionAt(ua, i).Some?
    ensures var v := AndroidVersionAt(ua, i).value;
      && 1 <= |v| <= 3 && v[0] != []
      && forall k :: 0 <= k < |v| ==> AllDigits(v[k])
  {
    AndroidMatchFrom(ua, i);
    var p := i + 8;
    var q := p + DigitRun(ua, p);
    RunIsDigits(ua, p);
    if q < |ua| {
      RunIsDigits(ua, q + 1);
      var r := q + 1 + DigitRun(ua, q + 1);
      if r < |ua| {
        RunIsDigits(ua, r + 1);
      }
    }
  }

  /** Where the opener occurs, the match is the groups that follow it. */
  lemma IosMatchFrom(ua: string, i: nat)
    requires OccursAt(ua, "OS ", i)
    ensures i + 3 <= |ua| && IosMatchAt(ua, i) == IosGroupsFrom(ua, i + 3)
  {
  }

  /** Where the opener occurs, the match is the parts that follow it. */
  lemma AndroidMatchFrom(ua: string, i: nat)
    requires OccursAt(ua, "Android ", i)
    ensures i + 8 <= |ua| && AndroidVersionAt(ua, i) == AndroidPartsFrom(ua, i + 8)
  {
  }

  /** The iOS groups, joined by `_`, are the text matched after the opener. */
  lemma IosGroupsOccur(ua: string, p: nat)
    requires p <= |ua| && IosGroupsFrom(ua, p).Some?
    ensures OccursAt(ua, Join(IosGroupsFrom(ua, p).value, '_'), p)
  {
    var q := p + DigitRun(ua, p);
    var r := q + 1 + DigitRun(ua, q + 1);
    if r < |ua| && ua[r] == '_' && DigitRun(ua, r + 1) > 0 {
      MatchedThree(ua, p, q, r, r + 1 + DigitRun(ua, r + 1), '_');
    } else {
      MatchedTwo(ua, p, q, r, '_');
    }
  }

  /** The Android parts, joined by `.`, are the text matched after the opener. */
  lemma AndroidPartsOccur(ua: string, p: nat)
    requires p <= |ua| && AndroidPartsFrom(ua, p).Some?
    ensures OccursAt(ua, Join(AndroidPartsFrom(ua, p).value, '.'), p)
  {
    var q := p + DigitRun(ua, p);
    if q < |ua| && ua[q] == '.' {
      var r := q + 1 + DigitRun(ua, q + 1);
      if r < |ua| && ua[r] == '.' {
        MatchedThree(ua, p, q, r, r + 1 + DigitRun(ua, r + 1), '.');
      } else {
        MatchedTwo(ua, p, q, r, '.');
      }
    } else {
      MatchedOne(ua, p, q);
    }
  }

  /** The groups of an iOS match, joined by `_` after `OS `, are the text matched there. */
  lemma IosMatchOccurs(ua: string, i: nat)
    requires IosMatchAt(ua, i).Some?
    ensures OccursAt(ua, "OS " + Join(IosMatchAt(ua, i).value, '_'), i)
  {
    IosMatchFrom(ua, i);
    IosGroupsOccur(ua, i + 3);
    OccursJoin(ua, i, "OS ", Join(IosMatchAt(ua, i).value, '_'));
  }

  /** The parts of an Android match, joined by `.` after `Android `, are the text matched there. */
  lemma AndroidMatchOccurs(ua: string, i: nat)
    requires AndroidVersionAt(ua, i).Some?
    ensures OccursAt(ua, "Android " + Join(AndroidVersionAt(ua, i).value, '.'), i)
  {
    AndroidMatchFrom(ua, i);
    AndroidPartsOccur(ua, i + 8);
    OccursJoin(ua, i, "Android ", Join(AndroidVersionAt(ua, i).value, '.'));
  }

  /** A version's parts hold no `.`, so splitting the version at `.` gives them back. */
  lemma VersionSplits(parts: seq<string>)
    requires |parts| >= 1
    requires forall k :: 0 <= k < |parts| ==> AllDigits(parts[k])
    ensures Split(Join(parts, '.'), '.') == parts
  {
    forall k | 0 <= k < |parts| ensures '.' !in parts[k] {
      assert !IsAsciiDigit('.');
    }
    SplitJoin(parts, '.');
  }

  /** A version starts with its first part's first digit, so it is never `Unknown`. */
  lemma VersionNotUnknown(parts: seq<string>)
    requires |parts| >= 1 && parts[0] != [] && IsAsciiDigit(parts[0][0])
    ensures Join(parts, '.') != "Unknown"
  {
    assert Join(parts, '.')[0] == parts[0][0];
    assert !IsAsciiDigit("Unknown"[0]);
  }

  /**
    The iOS version read back: `Unknown` exactly when nothing matches, and
    otherwise two or three digit runs separated by `.` that, joined by `_`
    after `OS `, occur in the user-agent at the leftmost match.
  */
  lemma IosVersionReadBack(ua: string)
    ensures IosOsVersion(ua) == "Unknown" <==> forall k: nat :: IosMatchAt(ua, k).None?
    ensures IosOsVersion(ua) != "Unknown" ==>
      var parts := Split(IosOsVersion(ua), '.');
      && 2 <= |parts| <= 3
      && (forall k :: 0 <= k < |parts| ==> parts[k] != [] && AllDigits(parts[k]))
      && OccursAt(ua, "OS " + Join(parts, '_'), IosMatchStart(ua).value)
  {
    var at := IosMatchStart(ua);
    if at.Some? {
      var g := IosMatchAt(ua, at.value).value;
      IosMatchOccurs(ua, at.value);
      IosGroupsDigits(ua, at.value);
      VersionNotUnknown(g);
      VersionSplits(g);
    }
  }

  /**
    The Android version read back: `Unknown` exactly when nothing matches,
    and otherwise at most three `.`-separated digit runs, the first
    non-empty, that occur right after `Android ` at the leftmost match.
  */
  lemma AndroidVersionReadBack(ua: string)
    ensures AndroidOsVersion(ua) == "Unknown" <==> forall k: nat :: AndroidVersionAt(ua, k).None?
    ensures AndroidOsVersion(ua) != "Unknown" ==>
      var parts := Split(AndroidOsVersion(ua), '.');
      && 1 <= |parts| <= 3 && parts[0] != []
      && (forall k :: 0 <= k < |parts| ==> AllDigits(parts[k]))
      && OccursAt(ua, "Android " + AndroidOsVersion(ua), AndroidVersionStart(ua).value)
  {
    var at := AndroidVersionStart(ua);
    if at.Some? {
      var v := AndroidVersionAt(ua, at.value).value;
      AndroidMatchOccurs(ua, at.value);
      AndroidPartsDigits(ua, at.value);
      VersionNotUnknown(v);
      VersionSplits(v);
    }
  }

  /** Where two runs joined by `sep` occur, each piece is at its place. */
  lemma TwoRuns(ua: string, p: nat, a: string, b: string, sep: char)
    requires OccursAt(ua, Join([a, b], sep), p)
    ensures var q := p + |a|;
      && q + 1 + |b| <= |ua|
      && ua[p..q] == a && ua[q] == sep && ua[q + 1..q + 1 + |b|] == b
  {
    JoinTwo(a, b, sep);
    var q := p + |a|;
    SliceSplit(ua, p, a + [sep], b);
    SliceSplit(ua, p, a, [sep]);
  }

  /** Where three runs joined by `sep` occur, each piece is at its place. */
  lemma ThreeRuns(ua: string, p: nat, a: string, b: string, c: string, sep: char)
    requires OccursAt(ua, Join([a, b, c], sep), p)
    ensures var q := p + |a|; var r := q + 1 + |b|;
      && r + 1 + |c| <= |ua|
      && ua[p..q] == a && ua[q] == sep && ua[q + 1..r] == b
      && ua[r] == sep && ua[r + 1..r + 1 + |c|] == c
  {
    JoinThree(a, b, c, sep);
    JoinTwo(a, b, sep);
    SliceSplit(ua, p, Join([a, b], sep) + [sep], c);
    SliceSplit(ua, p, Join([a, b], sep), [sep]);
    TwoRuns(ua, p, a, b, sep);
  }

  /** An occurrence of `x + y` is an occurrence of `x` followed by one of `y`. */
  lemma OccursSplit(s: string, i: nat, x: string, y: string)
    requires OccursAt(s, x + y, i)
    ensures OccursAt(s, x, i) && OccursAt(s, y, i + |x|)
  {
    SliceSplit(s, i, x, y);
  }

  /**
    The iOS groups where the user-agent holds `OS ` and two or three digit
    runs joined by `_`, followed by neither a digit nor (after two runs) `_`.
  */
  lemma IosMatchesAt(ua: string, i: nat, parts: seq<string>)
    requires 2 <= |parts| <= 3
    requires forall k :: 0 <= k < |parts| ==> parts[k] != [] && AllDigits(parts[k])
    requires OccursAt(ua, "OS " + Join(parts, '_'), i)
    requires var e := i + 3 + |Join(parts, '_')|;
      e < |ua| ==> !IsAsciiDigit(ua[e]) && (|parts| == 2 ==> ua[e] != '_')
    ensures IosMatchAt(ua, i) == Some(parts)
  {
    OccursSplit(ua, i, "OS ", Join(parts, '_'));
    IosMatchFrom(ua, i);
    IosGroupsOf(ua, i + 3, parts);
  }

  /** Two or three digit runs joined by `_`, suitably ended, are the groups found there. */
  lemma IosGroupsOf(ua: string, p: nat, parts: seq<string>)
    requires 2 <= |parts| <= 3
    requires forall k :: 0 <= k < |parts| ==> parts[k] != [] && AllDigits(parts[k])
    requires OccursAt(ua, Join(parts, '_'), p)
    requires var e := p + |Join(parts, '_')|;
      e < |ua| ==> !IsAsciiDigit(ua[e]) && (|parts| == 2 ==> ua[e] != '_')
    ensures IosGroupsFrom(ua, p) == Some(parts)
  {
    if |parts| == 2 {
      IosGroupsOfTwo(ua, p, parts);
    } else {
      IosGroupsOfThree(ua, p, parts);
    }
  }

  lemma IosGroupsOfTwo(ua: string, p: nat, parts: seq<string>)
    requires |parts| == 2 && parts[0] != [] && AllDigits(parts[0]) && parts[1] != [] && AllDigits(parts[1])
    requires OccursAt(ua, Join(parts, '_'), p)
    requires var e := p + |Join(parts, '_')|;
      e < |ua| ==> !IsAsciiDigit(ua[e]) && ua[e] != '_'
    ensures IosGroupsFrom(ua, p) == Some(parts)
  {
    assert parts == [parts[0], parts[1]];
    JoinTwo(parts[0], parts[1], '_');
    IosGroupsTwo(ua, p, parts[0], parts[1]);
  }

  lemma IosGroupsOfThree(ua: string, p: nat, parts: seq<string>)
    requires |parts| == 3
    requires parts[0] != [] && AllDigits(parts[0]) && parts[1] != [] && AllDigits(parts[1])
    requires parts[2] != [] && AllDigits(parts[2])
    requires OccursAt(ua, Join(parts, '_'), p)
    requires p + |Join(parts, '_')| < |ua| ==> !IsAsciiDigit(ua[p + |Join(parts, '_')|])
    ensures IosGroupsFrom(ua, p) == Some(parts)
  {
    assert parts == [parts[0], parts[1], parts[2]];
    JoinThree(parts[0], parts[1], parts[2], '_');
    IosGroupsThree(ua, p, parts[0], parts[1], parts[2]);
  }

  lemma IosGroupsTwo(ua: string, p: nat, a: string, b: string)
    requires a != [] && AllDigits(a) && b != [] && AllDigits(b)
    requires OccursAt(ua, Join([a, b], '_'), p)
    requires var e := p + |a| + 1 + |b|;
      e < |ua| ==> !IsAsciiDigit(ua[e]) && ua[e] != '_'
    ensures IosGroupsFrom(ua, p) == Some([a, b])
  {
    TwoRuns(ua, p, a, b, '_');
    var q := p + |a|;
    DigitRunOf(ua, p, a);
    DigitRunOf(ua, q + 1, b);
  }

  lemma IosGroupsThree(ua: string, p: nat, a: string, b: string, c: string)
    requires a != [] && AllDigits(a) && b != [] && AllDigits(b) && c != [] && AllDigits(c)
    requires OccursAt(ua, Join([a, b, c], '_'), p)
    requires var e := p + |a| + 1 + |b| + 1 + |c|;
      e < |ua| ==> !IsAsciiDigit(ua[e])
    ensures IosGroupsFrom(ua, p) == Some([a, b, c])
  {
    ThreeRuns(ua, p, a, b, c, '_');
    var q := p + |a|;
    var r := q + 1 + |b|;
    DigitRunOf(ua, p, a);
    DigitRunOf(ua, q + 1, b);
    DigitRunOf(ua, r + 1, c);
    IosThreeGroups(ua, p, q, r, r + 1 + |c|);
    SameThree(ua[p..q], ua[q + 1..r], ua[r + 1..r + 1 + |c|], a, b, c);
  }

  /** Three equal elements make equal three-element sequences. */
  lemma SameThree<T>(x: T, y: T, z: T, a: T, b: T, c: T)
    requires x == a && y == b && z == c
    ensures [x, y, z] == [a, b, c]
  {
  }

  /** The three-group branch of the iOS matcher, on positions alone. */
  lemma IosThreeGroups(ua: string, p: nat, q: nat, r: nat, e: nat)
    requires p < q < |ua| && DigitRun(ua, p) == q - p && ua[q] == '_'
    requires q + 1 < r < |ua| && DigitRun(ua, q + 1) == r - (q + 1) && ua[r] == '_'
    requires r + 1 < e && DigitRun(ua, r + 1) == e - (r + 1)
    ensures IosGroupsFrom(ua, p) == Some([ua[p..q], ua[q + 1..r], ua[r + 1..e]])
  {
  }

  /**
    A user-agent with no `O` before `OS a_b[_c]` has that version, with the
    underscores read as dots.
  */
  lemma IosVersionOf(prefix: string, parts: seq<string>, rest: string)
    requires 'O' !in prefix
    requires 2 <= |parts| <= 3
    requires forall k :: 0 <= k < |parts| ==> parts[k] != [] && AllDigits(parts[k])
    requires rest == [] || (!IsAsciiDigit(rest[0]) && (|parts| == 2 ==> rest[0] != '_'))
    ensures IosOsVersion(prefix + ("OS " + Join(parts, '_')) + rest) == Join(parts, '.')
  {
    var m := "OS " + Join(parts, '_');
    var ua := prefix + m + rest;
    assert |m| == 3 + |Join(parts, '_')|;
    Placed(prefix, m, rest);
    IosMatchesAt(ua, |prefix|, parts);
    forall k: nat | k < |prefix| ensures IosMatchAt(ua, k).None? {
      NotOccursAt(ua, "OS ", k, 'O');
    }
    IosLeftmost(ua, |prefix|);
  }

  /** A match with none before it is the leftmost one. */
  lemma IosLeftmost(ua: string, at: nat)
    requires IosMatchAt(ua, at).Some?
    requires forall k: nat :: k < at ==> IosMatchAt(ua, k).None?
    ensures IosMatchStart(ua) == Some(at)
    ensures IosOsVersion(ua) == Join(IosMatchAt(ua, at).value, '.')
  {
  }

  /** A text does not occur where its first character is missing. */
  lemma NotOccursAt(s: string, t: string, k: nat, first: char)
    requires t != [] && t[0] == first && k < |s| && s[k] != first
    ensures !OccursAt(s, t, k)
  {
    if k + |t| <= |s| {
      assert s[k..k + |t|][0] == s[k];
    }
  }

  /** The middle of `prefix + m + rest` occurs after the prefix, with the rest's first element after it. */
  lemma Placed(prefix: string, m: string, rest: string)
    ensures OccursAt(prefix + m + rest, m, |prefix|)
    ensures forall k :: 0 <= k < |prefix| ==> (prefix + m + rest)[k] == prefix[k]
    ensures rest != [] ==> (prefix + m + rest)[|prefix| + |m|] == rest[0]
  {
    assert (prefix + m + rest)[|prefix|..|prefix| + |m|] == m;
  }

  /**
    The Android version parts where the user-agent holds `Android ` and up
    to three digit runs joined by `.`, followed by neither a digit nor
    (after fewer than three runs) `.`.
  */
  lemma AndroidMatchesAt(ua: string, i: nat, parts: seq<string>)
    requires 1 <= |parts| <= 3 && parts[0] != []
    requires forall k :: 0 <= k < |parts| ==> AllDigits(parts[k])
    requires OccursAt(ua, "Android " + Join(parts, '.'), i)
    requires var e := i + 8 + |Join(parts, '.')|;
      e < |ua| ==> !IsAsciiDigit(ua[e]) && (|parts| < 3 ==> ua[e] != '.')
    ensures AndroidVersionAt(ua, i) == Some(parts)
  {
    OccursSplit(ua, i, "Android ", Join(parts, '.'));
    AndroidMatchFrom(ua, i);
    AndroidPartsOf(ua, i + 8, parts);
  }

  /** Up to three digit runs joined by `.`, suitably ended, are the parts found there. */
  lemma AndroidPartsOf(ua: string, p: nat, parts: seq<string>)
    requires 1 <= |parts| <= 3 && parts[0] != []
    requires forall k :: 0 <= k < |parts| ==> AllDigits(parts[k])
    requires OccursAt(ua, Join(parts, '.'), p)
    requires var e := p + |Join(parts, '.')|;
      e < |ua| ==> !IsAsciiDigit(ua[e]) && (|parts| < 3 ==> ua[e] != '.')
    ensures AndroidPartsFrom(ua, p) == Some(parts)
  {
    if |parts| == 1 {
      AndroidPartsOfOne(ua, p, parts);
    } else if |parts| == 2 {
      AndroidPartsOfTwo(ua, p, parts);
    } else {
      AndroidPartsOfThree(ua, p, parts);
    }
  }

  lemma AndroidPartsOfOne(ua: string, p: nat, parts: seq<string>)
    requires |parts| == 1 && parts[0] != [] && AllDigits(parts[0])
    requires OccursAt(ua, Join(parts, '.'), p)
    requires var e := p + |Join(parts, '.')|;
      e < |ua| ==> !IsAsciiDigit(ua[e]) && ua[e] != '.'
    ensures AndroidPartsFrom(ua, p) == Some(parts)
  {
    assert parts == [parts[0]];
    AndroidPartsOne(ua, p, parts[0]);
  }

  lemma AndroidPartsOfTwo(ua: string, p: nat, parts: seq<string>)
    requires |parts| == 2 && parts[0] != [] && AllDigits(parts[0]) && AllDigits(parts[1])
    requires OccursAt(ua, Join(parts, '.'), p)
    requires var e := p + |Join(parts, '.')|;
      e < |ua| ==> !IsAsciiDigit(ua[e]) && ua[e] != '.'
    ensures AndroidPartsFrom(ua, p) == Some(parts)
  {
    assert parts == [parts[0], parts[1]];
    JoinTwo(parts[0], parts[1], '.');
    AndroidPartsTwo(ua, p, parts[0], parts[1]);
  }

  lemma AndroidPartsOfThree(ua: string, p: nat, parts: seq<string>)
    requires |parts| == 3 && parts[0] != [] && AllDigits(parts[0]) && AllDigits(parts[1]) && AllDigits(parts[2])
    requires OccursAt(ua, Join(parts, '.'), p)
    requires p + |Join(parts, '.')| < |ua| ==> !IsAsciiDigit(ua[p + |Join(parts, '.')|])
    ensures AndroidPartsFrom(ua, p) == Some(parts)
  {
    assert parts == [parts[0], parts[1], parts[2]];
    JoinThree(parts[0], parts[1], parts[2], '.');
    AndroidPartsThree(ua, p, parts[0], parts[1], parts[2]);
  }

  lemma AndroidPartsOne(ua: string, p: nat, a: string)
    requires a != [] && AllDigits(a)
    requires OccursAt(ua, Join([a], '.'), p)
    requires var e := p + |a|;
      e < |ua| ==> !IsAsciiDigit(ua[e]) && ua[e] != '.'
    ensures AndroidPartsFrom(ua, p) == Some([a])
  {
    assert Join([a], '.') == a;
    DigitRunOf(ua, p, a);
  }

  lemma AndroidPartsTwo(ua: string, p: nat, a: string, b: string)
    requires a != [] && AllDigits(a) && AllDigits(b)
    requires OccursAt(ua, Join([a, b], '.'), p)
    requires var e := p + |a| + 1 + |b|;
      e < |ua| ==> !IsAsciiDigit(ua[e]) && ua[e] != '.'
    ensures AndroidPartsFrom(ua, p) == Some([a, b])
  {
    TwoRuns(ua, p, a, b, '.');
    var q := p + |a|;
    DigitRunOf(ua, p, a);
    DigitRunOf(ua, q + 1, b);
  }

  lemma AndroidPartsThree(ua: string, p: nat, a: string, b: string, c: string)
    requires a != [] && AllDigits(a) && AllDigits(b) && AllDigits(c)
    requires OccursAt(ua, Join([a, b, c], '.'), p)
    requires var e := p + |a| + 1 + |b| + 1 + |c|;
      e < |ua| ==> !IsAsciiDigit(ua[e])
    ensures AndroidPartsFrom(ua, p) == Some([a, b, c])
  {
    ThreeRuns(ua, p, a, b, c, '.');
    AndroidThreeRuns(ua, p, p + |a|, p + |a| + 1 + |b|, a, b, c);
  }

  /** The three-part branch of the Android matcher, on runs already placed. */
  lemma AndroidThreeRuns(ua: string, p: nat, q: nat, r: nat, a: string, b: string, c: string)
    requires q == p + |a| && r == q + 1 + |b| && r + 1 + |c| <= |ua|
    requires ua[p..q] == a && ua[q] == '.' && ua[q + 1..r] == b
    requires ua[r] == '.' && ua[r + 1..r + 1 + |c|] == c
    requires a != [] && AllDigits(a) && AllDigits(b) && AllDigits(c)
    requires r + 1 + |c| < |ua| ==> !IsAsciiDigit(ua[r + 1 + |c|])
    ensures AndroidPartsFrom(ua, p) == Some([a, b, c])
  {
    DigitRunOf(ua, p, a);
    DigitRunOf(ua, q + 1, b);
    DigitRunOf(ua, r + 1, c);
    AndroidThreeParts(ua, p, q, r, r + 1 + |c|);
    SameThree(ua[p..q], ua[q + 1..r], ua[r + 1..r + 1 + |c|], a, b, c);
  }

  /** The three-part branch of the Android matcher, on positions alone. */
  lemma AndroidThreeParts(ua: string, p: nat, q: nat, r: nat, e: nat)
    requires p < q < |ua| && DigitRun(ua, p) == q - p && ua[q] == '.'
    requires q < r < |ua| && DigitRun(ua, q + 1) == r - (q + 1) && ua[r] == '.'
    requires r < e && DigitRun(ua, r + 1) == e - (r + 1)
    ensures AndroidPartsFrom(ua, p) == Some([ua[p..q], ua[q + 1..r], ua[r + 1..e]])
  {
  }

  /** A user-agent with no `A` before `Android <version>` has that version. */
  lemma AndroidVersionOf(prefix: string, parts: seq<string>, rest: string)
    requires 'A' !in prefix
    requires 1 <= |parts| <= 3 && parts[0] != []
    requires forall k :: 0 <= k < |parts| ==> AllDigits(parts[k])
    requires rest == [] || (!IsAsciiDigit(rest[0]) && (|parts| < 3 ==> rest[0] != '.'))
    ensures AndroidOsVersion(prefix + ("Android " + Join(parts, '.')) + rest) == Join(parts, '.')
  {
    var m := "Android " + Join(parts, '.');
    var ua := prefix + m + rest;
    assert |m| == 8 + |Join(parts, '.')|;
    assert OccursAt(ua, "Android " + Join(parts, '.'), |prefix|);
    var e := |prefix| + 8 + |Join(parts, '.')|;
    assert e < |ua| ==> ua[e] == rest[0];
    Placed(prefix, m, rest);
    AndroidMatchesAt(ua, |prefix|, parts);
    forall k: nat | k < |prefix| ensures AndroidVersionAt(ua, k).None? {
      NotOccursAt(ua, "Android ", k, 'A');
    }
    AndroidLeftmost(ua, |prefix|);
  }

  /** A match with none before it is the leftmost one. */
  lemma AndroidLeftmost(ua: string, at: nat)
    requires AndroidVersionAt(ua, at).Some?
    requires forall k: nat :: k < at ==> AndroidVersionAt(ua, k).None?
    ensures AndroidVersionStart(ua) == Some(at)
    ensures AndroidOsVersion(ua) == Join(AndroidVersionAt(ua, at).value, '.')
  {
  }

  // ---------------------------------------------------------------------
  // Android device model: /Android.*;\s([^)]+)\)/

  /** The first `)` at or after `k`: where a greedy `[^)]+` must stop. */
  function CloseParen(ua: string, k: nat): (c: Option<nat>)
    decreases |ua| - k
    ensures c.Some? ==> k <= c.value < |ua| && ua[c.value] == ')'
    ensures c.Some? ==> forall n :: k <= n < c.value ==> ua[n] != ')'
    ensures c.None? ==> forall n :: k <= n < |ua| ==> ua[n] != ')'
  {
    if k >= |ua| then None
    else if ua[k] == ')' then Some(k)
    else CloseParen(ua, k + 1)
  }

  /**
    The group of `;\s([^)]+)\)` matched at `j`: the text from `j + 2` up to
    the first `)` after it, which must exist and leave the text non-empty.
  */
  function ModelTailAt(ua: string, j: nat): (m: Option<string>)
    ensures m.Some? ==> j + 1 < |ua| && ua[j] == ';' && IsJsSpace(ua[j + 1])
    ensures m.Some? ==> m.value != [] && j + 2 + |m.value| < |ua|
    ensures m.Some? ==> m.value == ua[j + 2..j + 2 + |m.value|] && ua[j + 2 + |m.value|] == ')'
    ensures m.Some? ==> forall k :: 0 <= k < |m.value| ==> m.value[k] != ')'
  {
    if j + 1 >= |ua| || ua[j] != ';' || !IsJsSpace(ua[j + 1]) then None
    else
      var close := CloseParen(ua, j + 2);
      if close.None? || close.value == j + 2 then None else Some(ua[j + 2..close.value])
  }

  /** Where `.` stops matching after `from`: the first line terminator, or the end. */
  function LineEnd(ua: string, from: nat): (e: nat)
    decreases |ua| - from
    ensures from <= |ua| ==> from <= e <= |ua|
    ensures forall k :: from <= k < e && k < |ua| ==> !IsLineTerminator(ua[k])
    ensures e < |ua| ==> IsLineTerminator(ua[e])
  {
    if from >= |ua| || IsLineTerminator(ua[from]) then from else LineEnd(ua, from + 1)
  }

  /**
    The last `j` in [lo, hi) where `;\s([^)]+)\)` matches: where the greedy
    `.*` before it, backing off from the end of the line, stops.
  */
  function LastTail(ua: string, lo: nat, hi: nat): (j: Option<nat>)
    decreases hi - lo
    ensures j.Some? ==> lo <= j.value < hi && ModelTailAt(ua, j.value).Some?
    ensures j.Some? ==> forall k: nat :: j.value < k < hi ==> ModelTailAt(ua, k).None?
    ensures j.None? ==> forall k: nat :: lo <= k < hi ==> ModelTailAt(ua, k).None?
  {
    if lo >= hi then None
    else if ModelTailAt(ua, hi - 1).Some? then Some(hi - 1)
    else LastTail(ua, lo, hi - 1)
  }

  /**
    The group of `/Android.*;\s([^)]+)\)/` matched at `i`, if any: the
    tail at the last place on the line of `Android` where it matches.
  */
  function AndroidModelAt(ua: string, i: nat): (m: Option<string>)
    ensures m.Some? ==> OccursAt(ua, "Android", i)
  {
    if !OccursAt(ua, "Android", i) then None
    else
      var j := LastTail(ua, i + 7, LineEnd(ua, i + 7));
      if j.None? then None else ModelTailAt(ua, j.value)
  }

  /** The leftmost start of an Android device-model match. */
  function AndroidModelStart(ua: string): (at: Option<nat>)
    ensures at.Some? ==> AndroidModelAt(ua, at.value).Some?
    ensures at.Some? ==> forall k :: 0 <= k < at.value ==> AndroidModelAt(ua, k).None?
    ensures at.None? ==> forall k: nat :: AndroidModelAt(ua, k).None?
  {
    var matches := (i: nat) => AndroidModelAt(ua, i).Some?;
    assert forall k: nat :: matches(k) == AndroidModelAt(ua, k).Some?;
    var at := FirstWhere(0, |ua| + 1, matches);
    assert forall k: nat :: k > |ua| ==> !OccursAt(ua, "Android", k);
    at
  }

  /** The `deviceModel` of an Android user-agent: the trimmed group, or `Unknown`. */
  function AndroidDeviceModel(ua: string): string {
    var at := AndroidModelStart(ua);
    if at.None? then "Unknown" else Trim(AndroidModelAt(ua, at.value).value)
  }

  /** `;`, a space, a `)`-free model and `)` at `j` make the tail match there with that model. */
  lemma ModelTailOf(ua: string, j: nat, model: string)
    requires j + 1 < |ua| && ua[j] == ';' && IsJsSpace(ua[j + 1])
    requires model != [] && ')' !in model
    requires OccursAt(ua, model + ")", j + 2)
    ensures ModelTailAt(ua, j) == Some(model)
  {
    SliceSplit(ua, j + 2, model, ")");
    var close := j + 2 + |model|;
    assert ua[close] == ua[j + 2 + |model|..close + 1][0];
    forall k | j + 2 <= k < close ensures ua[k] != ')' {
      assert ua[k] == model[k - (j + 2)];
    }
  }

  /** Past a point from which no `;` follows, the tail matches nowhere. */
  lemma NoTailAfter(ua: string, j: nat)
    requires forall k :: j < k < |ua| ==> ua[k] != ';'
    ensures forall k: nat :: j < k ==> ModelTailAt(ua, k).None?
  {
  }

  /** The line `.` can cover from `from` reaches past `j` when no line terminator comes before. */
  lemma LineReaches(ua: string, from: nat, j: nat)
    requires from <= j < |ua|
    requires forall k :: from <= k <= j ==> !IsLineTerminator(ua[k])
    ensures j < LineEnd(ua, from)
  {
  }

  /**
    The device-model match at `i`: with `Android` there, a tail match at
    `j` on the same line and none after it, the group is the tail's.
  */
  lemma ModelAt(ua: string, i: nat, j: nat)
    requires OccursAt(ua, "Android", i)
    requires i + 7 <= j && j < LineEnd(ua, i + 7)
    requires ModelTailAt(ua, j).Some?
    requires forall k: nat :: j < k ==> ModelTailAt(ua, k).None?
    ensures AndroidModelAt(ua, i) == ModelTailAt(ua, j)
  {
  }

  /** A match with none before it is the leftmost one. */
  lemma ModelLeftmost(ua: string, at: nat)
    requires AndroidModelAt(ua, at).Some?
    requires forall k: nat :: k < at ==> AndroidModelAt(ua, k).None?
    ensures AndroidDeviceModel(ua) == Trim(AndroidModelAt(ua, at).value)
  {
    assert AndroidModelStart(ua) == Some(at);
  }

  /**
    A user-agent with no `A` before `Android`, then a single line up to the
    last `;`, a space, a model without `)` or `;`, and `)`, has that model,
    trimmed.
  */
  lemma AndroidModelOf(prefix: string, mid: string, space: char, model: string, rest: string)
    requires 'A' !in prefix
    requires forall k :: 0 <= k < |mid| ==> !IsLineTerminator(mid[k])
    requires IsJsSpace(space)
    requires model != [] && ')' !in model && ';' !in model
    requires ';' !in rest
    ensures AndroidDeviceModel(prefix + ("Android" + mid) + ([';', space] + model + ")" + rest)) == Trim(model)
  {
    var head := "Android" + mid;
    var tail := [';', space] + model + ")" + rest;
    var ua := prefix + head + tail;
    var i, j := |prefix|, |prefix| + 7 + |mid|;
    HeadPlaced(prefix, mid, tail);
    TailPlaced(prefix + head, space, model, rest);
    assert ua[j] == ';';
    LineReaches(ua, i + 7, j);
    ModelTailOf(ua, j, model);
    NoTailAfter(ua, j);
    ModelAt(ua, i, j);
    ModelLeftmost(ua, i);
  }

  /** Where `Android` and the rest of its line sit after a prefix without `A`. */
  lemma HeadPlaced(prefix: string, mid: string, tail: string)
    requires 'A' !in prefix
    requires forall k :: 0 <= k < |mid| ==> !IsLineTerminator(mid[k])
    ensures var ua := prefix + ("Android" + mid) + tail; var i := |prefix|;
      && OccursAt(ua, "Android", i)
      && (forall k :: i + 7 <= k < i + 7 + |mid| ==> !IsLineTerminator(ua[k]))
      && (forall k: nat :: k < i ==> AndroidModelAt(ua, k).None?)
  {
    var head := "Android" + mid;
    var ua := prefix + head + tail;
    var i := |prefix|;
    Placed(prefix, head, tail);
    OccursSplit(ua, i, "Android", mid);
    forall k | i + 7 <= k < i + 7 + |mid| ensures !IsLineTerminator(ua[k]) {
      assert ua[k] == ua[i + 7..i + 7 + |mid|][k - (i + 7)];
    }
    forall k: nat | k < i ensures AndroidModelAt(ua, k).None? {
      NotOccursAt(ua, "Android", k, 'A');
    }
  }

  /** Where the tail `; <model>)<rest>` sits after `head`. */
  lemma TailPlaced(head: string, space: char, model: string, rest: string)
    requires ';' !in model && ';' !in rest
    ensures var ua := head + ([';', space] + model + ")" + rest); var j := |head|;
      && j + 1 < |ua| && ua[j] == ';' && ua[j + 1] == space
      && OccursAt(ua, model + ")", j + 2)
      && forall k :: j + 1 < k < |ua| ==> ua[k] != ';'
  {
    var ua := head + ([';', space] + model + ")" + rest);
    var j := |head|;
    assert ua[j + 2..j + 2 + |model| + 1] == model + ")";
    forall k | j + 1 < k < |ua| ensures ua[k] != ';' {
      if k < j + 2 + |model| {
        assert ua[k] == model[k - (j + 2)];
      } else if k > j + 2 + |model| {
        assert ua[k] == rest[k - (j + 3 + |model|)];
      }
    }
  }

  // ---------------------------------------------------------------------
  // the fingerprint

  /** The `osVersion` field: read only for iOS and Android user-agents. */
  function OsVersion(platform: Platform, ua: string): (v: string)
    ensures platform == Web ==> v == "Unknown"
  {
    match platform
    case IOS => IosOsVersion(ua)
    case Android => AndroidOsVersion(ua)
    case Web => "Unknown"
  }

  /** The `deviceModel` field: the first Apple device name for iOS, the regular-expression group for Android. */
  function DeviceModel(platform: Platform, ua: string): (m: string)
    ensures platform == Web ==> m == "Unknown"
    ensures platform == IOS ==> (m == "iPhone" <==> Includes(ua, "iPhone"))
    ensures platform == IOS ==> (m == "iPad" <==> !Includes(ua, "iPhone") && Includes(ua, "iPad"))
    ensures platform == IOS ==>
      (m == "iPod" <==> !Includes(ua, "iPhone") && !Includes(ua, "iPad") && Includes(ua, "iPod"))
  {
    match platform
    case IOS =>
      if Includes(ua, "iPhone") then "iPhone"
      else if Includes(ua, "iPad") then "iPad"
      else if Includes(ua, "iPod") then "iPod"
      else "Unknown"
    case Android => AndroidDeviceModel(ua)
    case Web => "Unknown"
  }

  /** `${n}` for a non-negative integer: its decimal digits. */
  function DecimalDigits(n: nat): (s: string)
    ensures s != [] && AllDigits(s)
  {
    if n < 10 then [('0' as int + n) as char]
    else DecimalDigits(n / 10) + [('0' as int + n % 10) as char]
  }

  /** The number a digit string denotes. */
  function DecimalValue(s: string): nat
    requires AllDigits(s)
  {
    if s == [] then 0 else DecimalValue(s[..|s| - 1]) * 10 + (s[|s| - 1] as int - '0' as int)
  }

  /** Reading the digits back gives the number. */
  lemma {:induction false} DecimalRoundTrip(n: nat)
    ensures DecimalValue(DecimalDigits(n)) == n
  {
    var s := DecimalDigits(n);
    if n >= 10 {
      DecimalRoundTrip(n / 10);
      assert s[..|s| - 1] == DecimalDigits(n / 10);
    }
  }

  /** `value || fallback` for a string that may be absent. */
  function OrElse(v: Option<string>, fallback: string): (r: string)
    ensures r == fallback || (v.Some? && r == v.value && r != "")
  {
    if v.Some? && v.value != "" then v.value else fallback
  }

  /**
    What the browser provides: `navigator.userAgent`, `window.screen`'s width
    and height, the resolved time zone of `Intl.DateTimeFormat`, and
    `navigator.language` and `navigator.languages`.
  */
  datatype Browser = Browser(
    userAgent: Option<string>,
    screenWidth: nat,
    screenHeight: nat,
    timeZone: Option<string>,
    language: Option<string>,
    languages: Option<seq<string>>)

  /** `DeviceFingerprint`. */
  datatype Fingerprint = Fingerprint(
    platform: Platform,
    osVersion: string,
    deviceModel: string,
    screenResolution: string,
    timezone: string,
    language: string,
    userAgent: string)

  /** `${width}x${height}`. */
  function Resolution(width: nat, height: nat): string {
    DecimalDigits(width) + "x" + DecimalDigits(height)
  }

  /** `navigator.language || navigator.languages?.[0] || 'en-US'`. */
  function Language(language: Option<string>, languages: Option<seq<string>>): string {
    var first := if languages.Some? && |languages.value| > 0 then Some(languages.value[0]) else None;
    OrElse(language, OrElse(first, "en-US"))
  }

  /** `generateDeviceFingerprint()`, on what the browser provides. */
  function GenerateDeviceFingerprint(b: Browser): Fingerprint {
    var ua := OrElse(b.userAgent, "");
    var platform := ClassifyPlatform(ua);
    Fingerprint(
      platform,
      OsVersion(platform, ua),
      DeviceModel(platform, ua),
      Resolution(b.screenWidth, b.screenHeight),
      OrElse(b.timeZone, "Unknown"),
      Language(b.language, b.languages),
      ua)
  }

  /**
    The fields of a fingerprint: the user-agent is echoed (empty when the
    browser has none), the platform is read off it, a Web fingerprint has
    neither version nor model, an iOS one always has a model, named after
    the first Apple device in the user-agent, and no text field is empty.
  */
  lemma FingerprintFields(b: Browser)
    ensures var f := GenerateDeviceFingerprint(b);
      && f.userAgent == b.userAgent.GetOr("")
      && f.platform == ClassifyPlatform(f.userAgent)
      && (f.platform == Web ==> f.osVersion == "Unknown" && f.deviceModel == "Unknown")
      && (f.platform == IOS ==> f.deviceModel in {"iPhone", "iPad", "iPod"})
      && (f.platform == IOS ==> (f.deviceModel == "iPhone" <==> Includes(f.userAgent, "iPhone")))
      && (f.platform == IOS ==>
            (f.deviceModel == "iPad" <==> !Includes(f.userAgent, "iPhone") && Includes(f.userAgent, "iPad")))
      && (f.platform == Android && (forall k: nat :: AndroidModelAt(f.userAgent, k).None?) ==> f.deviceModel == "Unknown")
      && f.timezone != "" && f.language != ""
  {
    var f := GenerateDeviceFingerprint(b);
    if f.platform == IOS {
      assert "iPhone" != "iPad" && "iPhone" != "iPod";
    }
    assert f.timezone != "" by {
      assert "Unknown" != "";
    }
    assert f.language != "" by {
      assert "en-US" != "";
    }
  }

  /** The resolution splits at its `x` into the two numbers. */
  lemma ResolutionReadBack(width: nat, height: nat)
    ensures var parts := Split(Resolution(width, height), 'x');
      && |parts| == 2
      && AllDigits(parts[0]) && DecimalValue(parts[0]) == width
      && AllDigits(parts[1]) && DecimalValue(parts[1]) == height
  {
    var w, h := DecimalDigits(width), DecimalDigits(height);
    assert 'x' !in w && 'x' !in h by {
      assert !IsAsciiDigit('x');
    }
    JoinTwo(w, h, 'x');
    SplitJoin([w, h], 'x');
    DecimalRoundTrip(width);
    DecimalRoundTrip(height);
  }

  // ---------------------------------------------------------------------
  // isMobileDevice

  /**
    `/t/i.test(s)` for a pattern `t` of ASCII letters: without the `u` flag
    a character matches a letter exactly when it is that letter in either
    case, which is comparing ASCII-lowered texts.
  */
  predicate IncludesIgnoringCase(s: string, t: string) {
    Includes(AsciiLower(s), AsciiLower(t))
  }

  /** `isMobileDevice()`: an Apple device name or `Android` in any letter case. */
  function IsMobileDevice(userAgent: Option<string>): bool {
    var ua := OrElse(userAgent, "");
    IncludesIgnoringCase(ua, "iPhone") || IncludesIgnoringCase(ua, "iPad")
    || IncludesIgnoringCase(ua, "iPod") || IncludesIgnoringCase(ua, "Android")
  }

  lemma LoweredNames()
    ensures AsciiLower("iPhone") == "iphone" && AsciiLower("iPad") == "ipad"
    ensures AsciiLower("iPod") == "ipod" && AsciiLower("Android") == "android"
  {
    LoweredIPhone();
    LoweredIPad();
    LoweredIPod();
    LoweredAndroid();
  }

  lemma LoweredIPhone() ensures AsciiLower("iPhone") == "iphone" { }
  lemma LoweredIPad() ensures AsciiLower("iPad") == "ipad" { }
  lemma LoweredIPod() ensures AsciiLower("iPod") == "ipod" { }
  lemma LoweredAndroid() ensures AsciiLower("Android") == "android" { }

  /**
    The mobile check and the deep-link platform detection decide alike:
    a user-agent is mobile exactly when `detectPlatform` does not answer
    desktop.
  */
  lemma MobileAgreesWithDetect(ua: string)
    ensures IsMobileDevice(Some(ua)) <==> Deeplink.DetectPlatform(Some(ua)) != Deeplink.Desktop
  {
    LoweredNames();
  }

  /** A name that occurs also occurs once both texts are lowered. */
  lemma IncludesLowered(s: string, t: string)
    requires Includes(s, t)
    ensures IncludesIgnoringCase(s, t)
  {
    LowerOccurs(s, t, IndexOf(s, t).value);
    IncludesAt(AsciiLower(s), AsciiLower(t), IndexOf(s, t).value);
  }

  /**
    A user-agent the fingerprint calls iOS or Android is mobile, and one it
    calls iOS is iOS to `detectPlatform` too.
  */
  lemma ClassifiedIsMobile(ua: string)
    ensures ClassifyPlatform(ua) != Web ==> IsMobileDevice(Some(ua))
    ensures ClassifyPlatform(ua) == IOS ==> Deeplink.DetectPlatform(Some(ua)) == Deeplink.Ios
  {
    LoweredNames();
    if Includes(ua, "iPhone") {
      IncludesLowered(ua, "iPhone");
    } else if Includes(ua, "iPad") {
      IncludesLowered(ua, "iPad");
    } else if Includes(ua, "iPod") {
      IncludesLowered(ua, "iPod");
    } else if Includes(ua, "Android") {
      IncludesLowered(ua, "Android");
    }
  }

  /** A text without capitals cannot contain a name that has one. */
  lemma NoCapitalNoMatch(s: string, t: string, j: nat)
    requires j < |t| && IsAsciiUpper(t[j])
    requires forall k :: 0 <= k < |s| ==> !IsAsciiUpper(s[k])
    ensures !Includes(s, t)
  {
    forall i: nat | i + |t| <= |s| ensures !OccursAt(s, t, i) {
      assert s[i..i + |t|][j] == s[i + j];
    }
  }

  /**
    The two checks part ways on letter case: a lowered user-agent is always
    Web to the fingerprint, while the mobile check gives the same answer as
    for the original.
  */
  lemma LoweredUserAgent(ua: string)
    ensures ClassifyPlatform(AsciiLower(ua)) == Web
    ensures IsMobileDevice(Some(AsciiLower(ua))) == IsMobileDevice(Some(ua))
  {
    LoweredIsWeb(ua);
    LoweredMobile(ua);
  }

  lemma LoweredIsWeb(ua: string)
    ensures ClassifyPlatform(AsciiLower(ua)) == Web
  {
    var lower := AsciiLower(ua);
    assert "iPhone"[1] == 'P' && "iPad"[1] == 'P' && "iPod"[1] == 'P' && "Android"[0] == 'A';
    NoCapitalNoMatch(lower, "iPhone", 1);
    NoCapitalNoMatch(lower, "iPad", 1);
    NoCapitalNoMatch(lower, "iPod", 1);
    NoCapitalNoMatch(lower, "Android", 0);
  }

  lemma LoweredMobile(ua: string)
    ensures IsMobileDevice(Some(AsciiLower(ua))) == IsMobileDevice(Some(ua))
  {
    assert OrElse(Some(AsciiLower(ua)), "") == AsciiLower(ua);
    assert OrElse(Some(ua), "") == ua;
    LoweredIncludes(ua, "iPhone");
    LoweredIncludes(ua, "iPad");
    LoweredIncludes(ua, "iPod");
    LoweredIncludes(ua, "Android");
  }

  lemma LoweredIncludes(ua: string, t: string)
    ensures IncludesIgnoringCase(AsciiLower(ua), t) == IncludesIgnoringCase(ua, t)
  {
    AsciiLowerIdempotent(ua);
  }

  /**
    An Apple device name anywhere makes the fingerprint iOS with that
    device's model or an earlier-checked one, whatever else the user-agent
    says, `Android` included.
  */
  lemma AppleNameWins(before: string, name: string, after: string)
    requires name == "iPhone" || name == "iPad" || name == "iPod"
    ensures ClassifyPlatform(before + name + after) == IOS
    ensures name == "iPhone" ==> DeviceModel(IOS, before + name + after) == "iPhone"
    ensures name == "iPad" ==> DeviceModel(IOS, before + name + after) in {"iPhone", "iPad"}
    ensures name == "iPod" ==> DeviceModel(IOS, before + name + after) in {"iPhone", "iPad", "iPod"}
  {
    var ua := before + name + after;
    assert ua[|before|..|before| + |name|] == name;
    IncludesAt(ua, name, |before|);
  }

  // ---------------------------------------------------------------------
  // getStoreURL

  /** `getStoreURL(platform)`. */
  function GetStoreURL(platform: Platform): string {
    match platform
    case IOS => "https://apps.apple.com/us/app/tripwiser-social-travel/id6751107025"
    case Android => "https://play.google.com/store/apps/details?id=com.tripwiser.android.app"
    case Web => "https://tripwiser-web-lmgo.vercel.app/"
  }

  /**
    The store URLs against the configuration's defaults: Android gets the
    configured Play URL and Web the site itself, but iOS gets an App Store
    listing other than the configured one.
  */
  lemma StoreUrlsAgainstConfig()
    ensures GetStoreURL(Android) == Env.Default(Env.ANDROID_STORE_URL)
    ensures GetStoreURL(Web) == Env.Default(Env.APP_URL)
    ensures GetStoreURL(IOS) != Env.Default(Env.IOS_STORE_URL)
    ensures GetStoreURL(IOS) != GetStoreURL(Android) && GetStoreURL(IOS) != GetStoreURL(Web)
  {
    StoreUrlAndroid();
    StoreUrlWeb();
    StoreUrlIosLength();
    StoreUrlOthersLength();
    assert |Env.Default(Env.IOS_STORE_URL)| == 47;
  }

  lemma StoreUrlAndroid() ensures GetStoreURL(Android) == Env.Default(Env.ANDROID_STORE_URL) { }
  lemma StoreUrlWeb() ensures GetStoreURL(Web) == Env.Default(Env.APP_URL) { }

  lemma StoreUrlIosLength() ensures |GetStoreURL(IOS)| == 66 { }
  lemma StoreUrlOthersLength() ensures |GetStoreURL(Android)| == 71 && |GetStoreURL(Web)| == 38 { }
}
