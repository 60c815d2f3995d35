/**
  The parts of the WHATWG URL Standard that `new URL(...)`, `url.searchParams`
  and `new URLSearchParams()` contribute to the core: whether an href parses,
  where its query and fragment are, the name-value list of the query, and the
  `get`, `set` and `append` operations on that list.
*/
module WhatwgUrl {
  import opened Optional
  import opened JsString
  import Form = FormUrlencoded

  type Pair = Form.Pair

  // ---------------------------------------------------------------------
  // name-value lists

  /** The pairs of `l` whose name is `name`, in order. */
  function Named(l: seq<Pair>, name: string): (r: seq<Pair>)
    ensures |r| <= |l|
    ensures forall k :: 0 <= k < |r| ==> r[k].0 == name
  {
    if l == [] then []
    else if l[0].0 == name then [l[0]] + Named(l[1..], name)
    else Named(l[1..], name)
  }

  /** `searchParams.get(name)`: the value of the first pair with that name, or null. */
  function Get(l: seq<Pair>, name: string): (r: Option<string>)
    ensures r.None? <==> Named(l, name) == []
    ensures r.Some? ==> r.value == Named(l, name)[0].1
  {
    if l == [] then None
    else if l[0].0 == name then Some(l[0].1)
    else Get(l[1..], name)
  }

  lemma {:induction false} NamedAppend(a: seq<Pair>, b: seq<Pair>, name: string)
    ensures Named(a + b, name) == Named(a, name) + Named(b, name)
  {
    if a == [] {
      assert a + b == b;
    } else {
      assert (a + b)[0] == a[0] && (a + b)[1..] == a[1..] + b;
      NamedAppend(a[1..], b, name);
    }
  }

  /** Drops every pair named `name`. */
  function RemoveNamed(l: seq<Pair>, name: string): (r: seq<Pair>)
    ensures Named(r, name) == []
    ensures forall n :: n != name ==> Named(r, n) == Named(l, n)
  {
    if l == [] then []
    else if l[0].0 == name then RemoveNamed(l[1..], name)
    else [l[0]] + RemoveNamed(l[1..], name)
  }

  /** Gives the first pair named `name` the value `value` and drops the later ones. */
  function ReplaceFirst(l: seq<Pair>, name: string, value: string): (r: seq<Pair>)
    requires Named(l, name) != []
    ensures Named(r, name) == [(name, value)]
    ensures forall n :: n != name ==> Named(r, n) == Named(l, n)
  {
    if l[0].0 == name then [(name, value)] + RemoveNamed(l[1..], name)
    else [l[0]] + ReplaceFirst(l[1..], name, value)
  }

  /**
    `searchParams.set(name, value)` on the list: afterwards exactly one pair
    has that name, holding `value`, in the place of the first old one or at
    the end; the pairs of every other name are kept, in order.
  */
  function SetPair(l: seq<Pair>, name: string, value: string): (r: seq<Pair>)
    ensures Named(r, name) == [(name, value)]
    ensures forall n :: n != name ==> Named(r, n) == Named(l, n)
    ensures Named(l, name) == [] ==> r == l + [(name, value)]
  {
    if Named(l, name) != [] then ReplaceFirst(l, name, value)
    else
      assert forall n :: Named(l + [(name, value)], n) == Named(l, n) + Named([(name, value)], n) by {
        forall n { NamedAppend(l, [(name, value)], n); }
      }
      l + [(name, value)]
  }

  // ---------------------------------------------------------------------
  // hrefs

  /** C0 control or space: what the URL parser strips from both ends. */
  predicate IsC0OrSpace(c: char) { c as int <= 0x20 }

  predicate IsTabOrNewline(c: char) { c == '\t' || c == '\n' || c == '\r' }

  function StripLeading(s: string): (r: string)
    ensures r == [] || !IsC0OrSpace(r[0])
    ensures s == [] || !IsC0OrSpace(s[0]) ==> r == s
    ensures forall c :: c in r ==> c in s
  {
    if s != [] && IsC0OrSpace(s[0]) then StripLeading(s[1..]) else s
  }

  function StripTrailing(s: string): (r: string)
    ensures r == [] || !IsC0OrSpace(r[|r| - 1])
    ensures s == [] || !IsC0OrSpace(s[|s| - 1]) ==> r == s
    ensures r <= s
  {
    if s != [] && IsC0OrSpace(s[|s| - 1]) then StripTrailing(s[..|s| - 1]) else s
  }

  function RemoveTabNewline(s: string): (r: string)
    ensures forall c :: c in r ==> c in s && !IsTabOrNewline(c)
    ensures (forall c :: c in s ==> !IsTabOrNewline(c)) ==> r == s
  {
    if s == [] then []
    else if IsTabOrNewline(s[0]) then RemoveTabNewline(s[1..])
    else [s[0]] + RemoveTabNewline(s[1..])
  }

  /** The first steps of the basic URL parser. */
  function Preprocess(href: string): string {
    RemoveTabNewline(StripTrailing(StripLeading(href)))
  }

  predicate IsAsciiAlpha(c: char) { 'a' <= c <= 'z' || 'A' <= c <= 'Z' }

  predicate IsSchemeChar(c: char) {
    IsAsciiAlpha(c) || '0' <= c <= '9' || c == '+' || c == '-' || c == '.'
  }

  /** From index `i` on, scheme characters up to a `:`. */
  predicate SchemeRest(s: string, i: nat)
    decreases |s| - i
  {
    i < |s| && (s[i] == ':' || (IsSchemeChar(s[i]) && SchemeRest(s, i + 1)))
  }

  /** The text starts with `scheme:`, an ASCII letter followed by scheme characters. */
  predicate HasScheme(s: string) {
    s != [] && IsAsciiAlpha(s[0]) && SchemeRest(s, 1)
  }

  lemma {:induction false} SchemeRestPrefix(s: string, t: string, i: nat)
    requires s <= t && SchemeRest(s, i)
    ensures SchemeRest(t, i)
    decreases |s| - i
  {
    if s[i] != ':' {
      SchemeRestPrefix(s, t, i + 1);
    }
  }

  lemma {:induction false} SchemeRestHasColon(s: string, i: nat)
    requires SchemeRest(s, i)
    ensures ':' in s[i..]
    decreases |s| - i
  {
    if s[i] != ':' {
      SchemeRestHasColon(s, i + 1);
      assert s[i + 1..] == s[i..][1..];
    }
  }

  /** Stripping the end never reaches into a leading part that ends in a visible character. */
  lemma {:induction false} StripTrailingKeeps(a: string, b: string)
    requires a != [] && !IsC0OrSpace(a[|a| - 1])
    ensures a <= StripTrailing(a + b)
    decreases |b|
  {
    if b != [] && IsC0OrSpace((a + b)[|a + b| - 1]) {
      assert (a + b)[..|a + b| - 1] == a + b[..|b| - 1];
      StripTrailingKeeps(a, b[..|b| - 1]);
    } else if b == [] {
      assert a + b == a;
    }
  }

  lemma {:induction false} RemoveTabNewlineAppend(a: string, b: string)
    ensures RemoveTabNewline(a + b) == RemoveTabNewline(a) + RemoveTabNewline(b)
  {
    if a == [] {
      assert a + b == b;
    } else {
      assert (a + b)[1..] == a[1..] + b;
      RemoveTabNewlineAppend(a[1..], b);
    }
  }

  /**
    An href that starts with a scheme written in full, `scheme:` and then
    anything up to a visible character, always parses, whatever follows.
  */
  lemma ParsesAfterScheme(scheme: string, rest: string)
    requires HasScheme(scheme) && !IsC0OrSpace(scheme[|scheme| - 1])
    requires forall c :: c in scheme ==> !IsTabOrNewline(c)
    ensures ParseHref(scheme + rest).Some?
  {
    var h := scheme + rest;
    assert StripLeading(h) == h;
    var t := StripTrailing(h);
    StripTrailingKeeps(scheme, rest);
    assert t == scheme + t[|scheme|..];
    RemoveTabNewlineAppend(scheme, t[|scheme|..]);
    SchemeRestPrefix(scheme, Preprocess(h), 1);
  }

  /** A URL as the core sees it: what precedes the query, the query and the fragment. */
  datatype UrlRecord = UrlRecord(prefix: string, query: Option<string>, fragment: Option<string>)

  /**
    `new URL(href)`, with `None` where it throws: the href parses when, once
    stripped, it starts with a scheme. The query runs from the first `?`
    before any `#`, the fragment from the first `#`.
  */
  function ParseHref(href: string): (r: Option<UrlRecord>)
    ensures r.Some? <==> HasScheme(Preprocess(href))
    ensures r.Some? ==> '?' !in r.value.prefix && '#' !in r.value.prefix
    ensures r.Some? && r.value.query.Some? ==> '#' !in r.value.query.value
  {
    var s := Preprocess(href);
    if !HasScheme(s) then None else Some(Cut(s))
  }

  /** Cuts a preprocessed href at its first `#`, then what precedes it at its first `?`. */
  function Cut(s: string): (r: UrlRecord)
    ensures '?' !in r.prefix && '#' !in r.prefix
    ensures r.query.Some? ==> '#' !in r.query.value
    ensures r.fragment.Some? ==> |r.fragment.value| < |s| && s[|s| - |r.fragment.value|..] == r.fragment.value
  {
    var beforeHash := TakeUntil(s, '#');
    var fragment := if |beforeHash| < |s| then Some(s[|beforeHash| + 1..]) else None;
    var prefix := TakeUntil(beforeHash, '?');
    var query := if |prefix| < |beforeHash| then Some(beforeHash[|prefix| + 1..]) else None;
    UrlRecord(prefix, query, fragment)
  }

  /** `url.href` / `url.toString()`. */
  function HrefOf(r: UrlRecord): string {
    r.prefix
    + (if r.query.Some? then "?" + r.query.value else "")
    + (if r.fragment.Some? then "#" + r.fragment.value else "")
  }

  /** The URLSearchParams list of a URL: its query, parsed. */
  function QueryList(r: UrlRecord): seq<Pair> {
    Form.Parse(r.query.GetOr(""))
  }

  /** The query a URL gets when its URLSearchParams list changes: null for an empty serialization. */
  function QueryOf(l: seq<Pair>): (q: Option<string>)
    ensures q.None? <==> l == []
  {
    Form.SerializeEmpty(l);
    var s := Form.Serialize(l);
    if s == "" then None else Some(s)
  }

  /** Serializing a parsed URL gives back the href, as the parser saw it. */
  lemma HrefOfParse(href: string)
    requires ParseHref(href).Some?
    ensures HrefOf(ParseHref(href).value) == Preprocess(href)
  {
    HrefOfCut(Preprocess(href));
  }

  lemma HrefOfCut(s: string)
    ensures HrefOf(Cut(s)) == s
  {
    var beforeHash := TakeUntil(s, '#');
    CutRejoins(s, '#');
    CutRejoins(beforeHash, '?');
  }

  /** Text cut at its first `sep` is what precedes it, then `sep` and the rest if there is one. */
  lemma CutRejoins(s: string, sep: char)
    ensures var b := TakeUntil(s, sep);
      s == b + (if |b| < |s| then [sep] + s[|b| + 1..] else "")
  {
    var b := TakeUntil(s, sep);
    if |b| < |s| {
      assert s == b + [sep] + s[|b| + 1..];
    }
  }

  /** Parsing the href of a parsed URL gives that URL again. */
  lemma ReparseHref(href: string)
    requires ParseHref(href).Some?
    ensures ParseHref(HrefOf(ParseHref(href).value)) == ParseHref(href)
  {
    HrefOfParse(href);
    PreprocessedEnds(href);
    PreprocessStable(Preprocess(href));
  }

  /** Hrefs the parser reads back unchanged: what serializing a URL with a written query gives. */
  ghost predicate WellFormed(r: UrlRecord) {
    var h := HrefOf(r);
    HasScheme(r.prefix)
    && '?' !in r.prefix && '#' !in r.prefix
    && (r.query.Some? ==> '#' !in r.query.value)
    && (forall c :: c in h ==> !IsTabOrNewline(c))
    && !IsC0OrSpace(h[|h| - 1])
  }

  lemma PreprocessStable(h: string)
    requires h != [] && !IsC0OrSpace(h[0]) && !IsC0OrSpace(h[|h| - 1])
    requires forall c :: c in h ==> !IsTabOrNewline(c)
    ensures Preprocess(h) == h
  {
  }

  /** Where the parser cuts `h`, which is `before` + `#` + fragment, or `before` alone. */
  lemma CutAt(h: string, sep: char, before: string, after: Option<string>)
    requires sep !in before
    requires h == before + (if after.Some? then [sep] + after.value else "")
    ensures TakeUntil(h, sep) == before
    ensures after.Some? <==> |before| < |h|
    ensures after.Some? ==> h[|before| + 1..] == after.value
  {
    if after.Some? {
      assert h == before + [sep] + after.value;
      TakeUntilPrefix(before, sep, after.value);
    } else {
      TakeUntilAll(before, sep);
    }
  }

  /** A well-formed URL survives serializing and parsing. */
  lemma ParseHrefOf(r: UrlRecord)
    requires WellFormed(r)
    ensures ParseHref(HrefOf(r)) == Some(r)
  {
    var h := HrefOf(r);
    assert r.prefix <= h;
    PreprocessStable(h);
    SchemeRestPrefix(r.prefix, h, 1);
    CutHrefOf(r);
  }

  lemma CutHrefOf(r: UrlRecord)
    requires '?' !in r.prefix && '#' !in r.prefix
    requires r.query.Some? ==> '#' !in r.query.value
    ensures Cut(HrefOf(r)) == r
  {
    var h := HrefOf(r);
    var beforeHash := r.prefix + (if r.query.Some? then "?" + r.query.value else "");
    assert h == beforeHash + (if r.fragment.Some? then "#" + r.fragment.value else "");
    CutAt(h, '#', beforeHash, r.fragment);
    CutAt(beforeHash, '?', r.prefix, r.query);
  }

  lemma {:induction false} TakeUntilAll(s: string, sep: char)
    requires sep !in s
    ensures TakeUntil(s, sep) == s
  {
    if s != [] {
      TakeUntilAll(s[1..], sep);
      assert [s[0]] + s[1..] == s;
    }
  }

  /** A parsed URL whose query the list rewrote is still well-formed. */
  lemma RewrittenQueryWellFormed(r: UrlRecord, l: seq<Pair>)
    requires HasScheme(r.prefix) && '?' !in r.prefix && '#' !in r.prefix
    requires forall c :: c in r.prefix ==> !IsTabOrNewline(c)
    requires r.fragment.Some? ==> FragmentTail(r.fragment.value)
    requires l != []
    ensures WellFormed(r.(query := QueryOf(l)))
  {
    var q := Form.Serialize(l);
    Form.SerializeBytesShape(l);
    Form.SerializeEmpty(l);
    var bs := Form.SerializeBytes(l);
    assert forall k :: 0 <= k < |q| ==> q[k] as int == bs[k];
    forall c | c in q ensures !IsTabOrNewline(c) && c != '#' && !IsC0OrSpace(c) {
      var k :| 0 <= k < |q| && q[k] == c;
      assert bs[k] > 0x20;
    }
    var r' := r.(query := QueryOf(l));
    var h := HrefOf(r');
    if r.fragment.None? {
      assert h == r.prefix + "?" + q;
      assert h[|h| - 1] == q[|q| - 1];
    }
  }

  /** A fragment that may end an href: no tab or newline, not ending in a C0 control or space. */
  ghost predicate FragmentTail(f: string) {
    (forall c :: c in f ==> !IsTabOrNewline(c)) && (f == [] || !IsC0OrSpace(f[|f| - 1]))
  }

  lemma {:induction false} RemoveTabNewlineLast(t: string)
    requires t != [] && !IsTabOrNewline(t[|t| - 1])
    ensures RemoveTabNewline(t) != [] && RemoveTabNewline(t)[|RemoveTabNewline(t)| - 1] == t[|t| - 1]
  {
    if |t| > 1 {
      assert t[1..][|t[1..]| - 1] == t[|t| - 1];
      RemoveTabNewlineLast(t[1..]);
    }
  }

  /** What the parser hands on has a scheme in its prefix and a fragment that may end an href. */
  lemma ParsedParts(href: string)
    requires ParseHref(href).Some?
    ensures HasScheme(ParseHref(href).value.prefix)
    ensures forall c :: c in ParseHref(href).value.prefix ==> !IsTabOrNewline(c)
    ensures ParseHref(href).value.fragment.Some? ==> FragmentTail(ParseHref(href).value.fragment.value)
  {
    PreprocessedEnds(href);
    CutParts(Preprocess(href));
  }

  /** What the parser goes on with ends in a visible character and holds no tab or newline. */
  lemma PreprocessedEnds(href: string)
    requires HasScheme(Preprocess(href))
    ensures !IsC0OrSpace(Preprocess(href)[|Preprocess(href)| - 1])
    ensures forall c :: c in Preprocess(href) ==> !IsTabOrNewline(c)
  {
    var t := StripTrailing(StripLeading(href));
    if t != [] {
      RemoveTabNewlineLast(t);
    }
  }

  lemma CutParts(s: string)
    requires HasScheme(s) && !IsC0OrSpace(s[|s| - 1])
    requires forall c :: c in s ==> !IsTabOrNewline(c)
    ensures HasScheme(Cut(s).prefix)
    ensures forall c :: c in Cut(s).prefix ==> !IsTabOrNewline(c)
    ensures Cut(s).fragment.Some? ==> FragmentTail(Cut(s).fragment.value)
  {
    var r := Cut(s);
    HrefOfCut(s);
    PrefixSchemeFromHref(s, r);
    SubstringChars(s, r.prefix, 0);
    if r.fragment.Some? {
      var f := r.fragment.value;
      var i := |s| - |f|;
      assert s[i..i + |f|] == f;
      SubstringChars(s, f, i);
      if f != [] {
        assert f[|f| - 1] == s[|s| - 1];
      }
    }
  }

  lemma SubstringChars(s: string, t: string, i: nat)
    requires i + |t| <= |s| && s[i..i + |t|] == t
    requires forall c :: c in s ==> !IsTabOrNewline(c)
    ensures forall c :: c in t ==> !IsTabOrNewline(c)
  {
    forall c | c in t ensures !IsTabOrNewline(c) {
      var k :| 0 <= k < |t| && t[k] == c;
      assert s[i + k] == c;
    }
  }

  lemma PrefixSchemeFromHref(s: string, r: UrlRecord)
    requires HasScheme(s) && s == HrefOf(r) && '?' !in r.prefix && '#' !in r.prefix
    ensures HasScheme(r.prefix)
  {
    assert r.prefix <= s;
    if |r.prefix| < |s| {
      assert s[|r.prefix|] == '?' || s[|r.prefix|] == '#';
    }
    SchemeRestWithin(s, r.prefix, 1);
  }

  /** The scheme ends before the first `?` or `#`, so it lies within the prefix. */
  lemma {:induction false} SchemeRestWithin(s: string, p: string, i: nat)
    requires SchemeRest(s, i) && p <= s && i <= |p|
    requires |p| < |s| ==> s[|p|] == '?' || s[|p|] == '#'
    ensures SchemeRest(p, i)
    decreases |s| - i
  {
    if i == |p| {
      assert false;
    } else if s[i] != ':' {
      SchemeRestWithin(s, p, i + 1);
    }
  }

  /** An ASCII letter, digit, `-` or `.`: never a forbidden host code point of the URL Standard. */
  predicate IsHostNameChar(c: char) {
    IsAsciiAlpha(c) || '0' <= c <= '9' || c == '-' || c == '.'
  }

  /** The first `n` characters of `s` are such a host name, ended by `/` or by the end of `s`. */
  predicate HostNameEnds(s: string, n: nat) {
    n <= |s| && (forall k :: 0 <= k < n ==> IsHostNameChar(s[k])) && (n == |s| || s[n] == '/')
  }

  /**
    What follows `scheme://` starts with a host the host parser accepts:
    no port, no user info, no bracketed address, no forbidden character.
  */
  ghost predicate OpensWithHostName(s: string) {
    exists n: nat :: HostNameEnds(s, n)
  }

  /** Text without controls, spaces, `?` or `#`: an href made of it parses as a whole prefix. */
  predicate Plain(s: string) {
    forall k :: 0 <= k < |s| ==> s[k] as int > 0x20 && s[k] != '?' && s[k] != '#'
  }

  lemma PlainAppend(a: string, b: string)
    requires Plain(a) && Plain(b)
    ensures Plain(a + b)
  {
    forall k | 0 <= k < |a + b| ensures (a + b)[k] as int > 0x20 && (a + b)[k] != '?' && (a + b)[k] != '#' {
      if k >= |a| {
        assert (a + b)[k] == b[k - |a|];
      }
    }
  }

  /** A plain href that parses has neither query nor fragment. */
  lemma ParsePlain(h: string)
    requires ParseHref(h).Some? && Plain(h)
    ensures ParseHref(h) == Some(UrlRecord(h, None, None))
  {
    PreprocessStable(h);
    TakeUntilAll(h, '#');
    TakeUntilAll(h, '?');
  }

  /**
    A plain href followed by a serialized non-empty list parses with that
    text as its query, and its list is the list serialized.
  */
  lemma ParseWithQuery(base: string, l: seq<Pair>)
    requires ParseHref(base).Some? && Plain(base) && l != []
    ensures ParseHref(base + "?" + Form.Serialize(l)) == Some(UrlRecord(base, Some(Form.Serialize(l)), None))
    ensures QueryList(UrlRecord(base, Some(Form.Serialize(l)), None)) == l
  {
    WithQueryWellFormed(base, l);
    ParseQueryHref(base, Form.Serialize(l));
    Form.ParseSerialize(l);
  }

  /** A well-formed href made of a prefix and a query parses into those two. */
  lemma ParseQueryHref(base: string, q: string)
    requires WellFormed(UrlRecord(base, Some(q), None))
    ensures ParseHref(base + "?" + q) == Some(UrlRecord(base, Some(q), None))
  {
    ParseHrefOf(UrlRecord(base, Some(q), None));
    HrefOfQuery(base, q);
  }

  /** The href of a URL with a query and no fragment. */
  lemma HrefOfQuery(prefix: string, q: string)
    ensures HrefOf(UrlRecord(prefix, Some(q), None)) == prefix + "?" + q
  {
    assert prefix + ("?" + q) + "" == prefix + "?" + q;
  }

  lemma WithQueryWellFormed(base: string, l: seq<Pair>)
    requires ParseHref(base).Some? && Plain(base) && l != []
    ensures WellFormed(UrlRecord(base, Some(Form.Serialize(l)), None))
  {
    ParsePlain(base);
    ParsedParts(base);
    RewrittenQueryWellFormed(UrlRecord(base, None, None), l);
    Form.SerializeEmpty(l);
  }

  // ---------------------------------------------------------------------
  // URL and URLSearchParams objects

  /** A URL object and the URLSearchParams list attached to it. */
  class Url {
    var prefix: string
    var query: Option<string>
    var fragment: Option<string>
    var list: seq<Pair>

    function Record(): UrlRecord
      reads this
    {
      UrlRecord(prefix, query, fragment)
    }

    /** The list always mirrors the query. */
    ghost predicate Valid()
      reads this
    {
      list == QueryList(Record())
    }

    /** `new URL(href)` once the href has parsed to `r`. */
    constructor (r: UrlRecord)
      ensures Record() == r && Valid()
    {
      prefix, query, fragment := r.prefix, r.query, r.fragment;
      list := QueryList(r);
    }

    /** `url.toString()`. */
    function Href(): string
      reads this
    {
      HrefOf(Record())
    }

    /** `url.searchParams.set(name, value)`: updates the list, then writes it back as the query. */
    method SetParam(name: string, value: string)
      requires Valid()
      modifies this
      ensures Valid()
      ensures list == SetPair(old(list), name, value)
      ensures query == QueryOf(list)
      ensures prefix == old(prefix) && fragment == old(fragment)
    {
      list := SetPair(list, name, value);
      query := QueryOf(list);
      Form.ParseSerialize(list);
    }
  }

  /** A URLSearchParams object made with `new URLSearchParams()`. */
  class SearchParams {
    var list: seq<Pair>

    constructor ()
      ensures list == []
    {
      list := [];
    }

    /** `params.append(name, value)`. */
    method Append(name: string, value: string)
      modifies this
      ensures list == old(list) + [(name, value)]
    {
      list := list + [(name, value)];
    }

    /** `params.toString()`. */
    function ToString(): string
      reads this
    {
      Form.Serialize(list)
    }
  }
}
