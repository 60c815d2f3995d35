/**
  The deep-link helpers: reading a web path such as `/trip/abc` into a
  content type, an id and the app's parameters; mapping a type back to the
  path the app routes; building the `tripwiser://` URL with its query; and
  picking the platform and store from the user-agent.
*/
module Deeplink {
  import opened Optional
  import opened JsString
  import Url = WhatwgUrl
  import Env = Environment
  import Form = FormUrlencoded

  type Pair = Url.Pair

  // ---------------------------------------------------------------------
  // parameter objects

  /** A property value of a `DeeplinkParams` object. */
  datatype Value = Text(text: string) | Flag(flag: bool) | Undefined | Null

  /** Neither `undefined` nor `null`. */
  predicate Defined(v: Value) {
    v.Text? || v.Flag?
  }

  /** `String(value)` for a defined value. */
  function Stringify(v: Value): (s: string)
    requires Defined(v)
    ensures v.Text? ==> s == v.text
    ensures v.Flag? ==> (s == "true" <==> v.flag)
  {
    match v
    case Text(t) => t
    case Flag(b) => if b then "true" else "false"
  }

  /**
    A plain object as `Object.entries` lists it: its own properties in the
    order they were first assigned.
  */
  type Params = seq<(string, Value)>

  function Keys(p: Params): seq<string> {
    if p == [] then [] else [p[0].0] + Keys(p[1..])
  }

  /** No property is listed twice, as in any object. */
  predicate UniqueKeys(p: Params) {
    var ks := Keys(p);
    forall i, j :: 0 <= i < j < |ks| ==> ks[i] != ks[j]
  }

  /** `obj[key]`, with `None` where the object has no such property. */
  function Prop(p: Params, key: string): (v: Option<Value>)
    ensures v.None? <==> key !in Keys(p)
  {
    if p == [] then None else if p[0].0 == key then Some(p[0].1) else Prop(p[1..], key)
  }

  /** `obj[key] = v`: an existing property keeps its place, a new one goes last. */
  function Assign(p: Params, key: string, v: Value): (r: Params)
    ensures Prop(r, key) == Some(v)
    ensures forall k :: k != key ==> Prop(r, k) == Prop(p, k)
    ensures Keys(r) == if key in Keys(p) then Keys(p) else Keys(p) + [key]
  {
    if p == [] then [(key, v)]
    else if p[0].0 == key then [(key, v)] + p[1..]
    else [p[0]] + Assign(p[1..], key, v)
  }

  /** Assignment never lists a property twice. */
  lemma AssignUnique(p: Params, key: string, v: Value)
    requires UniqueKeys(p)
    ensures UniqueKeys(Assign(p, key, v))
  {
    var ks := Keys(p);
    if key !in ks {
      var ks' := ks + [key];
      forall i, j | 0 <= i < j < |ks'| ensures ks'[i] != ks'[j] {
        if j == |ks| {
          assert ks'[i] == ks[i];
        }
      }
    }
  }

  // ---------------------------------------------------------------------
  // parseUrlPath and buildAppPath

  /** The six keys `parseUrlPath` may set: no parsed path carries any other. */
  predicate IsParamKey(key: string) {
    key in {"tripId", "id", "userId", "templateId", "tipId", "postId"}
  }

  /** What `parseUrlPath` returns when it does not return null. */
  datatype Parsed = Parsed(kind: string, id: string, params: Params)

  /** The types whose id is also passed on as `tripId`. */
  predicate IsTripKind(kind: string) {
    kind == "trip" || kind == "packing" || kind == "journal" || kind == "itinerary"
  }

  /** The types `buildAppPath` routes as `<type>/<id>`. */
  predicate IsPlainKind(kind: string) {
    IsTripKind(kind) || kind == "profile" || kind == "template" || kind == "tip"
  }

  /** The nine types `buildAppPath` knows. */
  predicate IsKnownKind(kind: string) {
    IsPlainKind(kind) || kind == "discover" || kind == "create"
  }

  /** `pathname` without one leading slash, if it has one. */
  function StripSlash(pathname: string): (path: string)
    ensures path == pathname || (pathname != [] && pathname[0] == '/' && path == pathname[1..])
  {
    if |pathname| > 0 && pathname[0] == '/' then pathname[1..] else pathname
  }

  /** The segments `parseUrlPath` splits the path into. */
  function Segments(pathname: string): seq<string> {
    Split(StripSlash(pathname), '/')
  }

  /**
    `parseUrlPath(pathname)`, with `None` for null: the first segment is the
    type and the second the id, which must be present and non-empty; the
    parameters start with `tripId` for a trip and `id` otherwise, and then
    each type adds its own key.
  */
  function ParseUrlPath(pathname: string): (r: Option<Parsed>)
  {
    var segments := Segments(pathname);
    if |segments| == 0 then None
    else if |segments| < 2 || segments[1] == "" then None
    else
      var kind := segments[0];
      var id := segments[1];
      Some(Parsed(kind, id, TypeParams(kind, id, segments, InitialParams(kind, id))))
  }

  /** The object `parseUrlPath` starts from: `tripId` for a trip, `id` for any other type. */
  function InitialParams(kind: string, id: string): Params {
    [(if kind == "trip" then "tripId" else "id", Text(id))]
  }

  /** The `switch` of `parseUrlPath`. */
  function TypeParams(kind: string, id: string, segments: seq<string>, params: Params): Params
    requires |segments| >= 2
  {
    if IsTripKind(kind) then Assign(params, "tripId", Text(id))
    else if kind == "profile" then Assign(params, "userId", Text(id))
    else if kind == "discover" then
      if segments[1] == "post" && |segments| > 2 && segments[2] != "" then Assign(params, "postId", Text(segments[2]))
      else params
    else if kind == "template" then Assign(params, "templateId", Text(id))
    else if kind == "tip" then Assign(params, "tipId", Text(id))
    else params
  }

  /**
    Where the path parses, stated on its characters: after the optional
    leading slash there is a first `/`, and the character after it is
    neither the end nor another `/`. The type is the text before that
    slash and the id the text after it, up to the next slash.
  */
  lemma ParseUrlPathSome(pathname: string)
    ensures var path := StripSlash(pathname);
      var k := |TakeUntil(path, '/')|;
      ParseUrlPath(pathname).Some? <==> k + 1 < |path| && path[k + 1] != '/'
    ensures var path := StripSlash(pathname);
      var k := |TakeUntil(path, '/')|;
      ParseUrlPath(pathname).Some? ==>
        ParseUrlPath(pathname).value.kind == TakeUntil(path, '/')
        && ParseUrlPath(pathname).value.id == TakeUntil(path[k + 1..], '/')
  {
    var path := StripSlash(pathname);
    var kind := TakeUntil(path, '/');
    var k := |kind|;
    if k < |path| {
      var rest := path[k + 1..];
      assert path == kind + ['/'] + rest;
      SplitAfterFirst(kind, '/', rest);
      SplitHead(rest, '/');
    } else {
      assert kind == path;
      SplitNone(path, '/');
    }
  }

  /** The parameters of a parsed path, type by type, in the order they were set. */
  lemma ParsedParams(pathname: string)
    requires ParseUrlPath(pathname).Some?
    ensures var p := ParseUrlPath(pathname).value;
      && UniqueKeys(p.params)
      && Keys(p.params)[0] == (if p.kind == "trip" then "tripId" else "id")
      && Prop(p.params, "tripId") == (if IsTripKind(p.kind) then Some(Text(p.id)) else None)
      && Prop(p.params, "id") == (if p.kind != "trip" then Some(Text(p.id)) else None)
      && Prop(p.params, "userId") == (if p.kind == "profile" then Some(Text(p.id)) else None)
      && Prop(p.params, "templateId") == (if p.kind == "template" then Some(Text(p.id)) else None)
      && Prop(p.params, "tipId") == (if p.kind == "tip" then Some(Text(p.id)) else None)
    ensures var p := ParseUrlPath(pathname).value;
      var segments := Segments(pathname);
      Prop(p.params, "postId") ==
        (if p.kind == "discover" && p.id == "post" && |segments| > 2 && segments[2] != ""
         then Some(Text(segments[2])) else None)
    ensures var p := ParseUrlPath(pathname).value;
      forall key :: key in Keys(p.params) ==> Prop(p.params, key).value.Text?
    ensures var p := ParseUrlPath(pathname).value;
      forall key :: key in Keys(p.params) ==> IsParamKey(key)
  {
    var p := ParseUrlPath(pathname).value;
    var segments := Segments(pathname);
    assert p.params == TypeParams(p.kind, p.id, segments, InitialParams(p.kind, p.id));
    TypeParamsEntries(p.kind, p.id, segments);
    ShortParams(p.params);
    TypeParamsProps(p.kind, p.id, segments);
  }

  /** The `switch` keeps the first entry and adds at most one more, under a new key, holding text. */
  lemma TypeParamsEntries(kind: string, id: string, segments: seq<string>)
    requires |segments| >= 2 && segments[1] == id
    ensures var ps := TypeParams(kind, id, segments, InitialParams(kind, id));
      && 1 <= |ps| <= 2 && ps[0] == InitialParams(kind, id)[0]
      && (|ps| == 2 ==> ps[1].0 != ps[0].0 && ps[1].1.Text?)
      && IsParamKey(ps[0].0) && (|ps| == 2 ==> IsParamKey(ps[1].0))
  {
    TypeParamsCases(kind, id, segments);
  }

  /** What the `switch` adds to the first entry, case by case. */
  lemma TypeParamsCases(kind: string, id: string, segments: seq<string>)
    requires |segments| >= 2 && segments[1] == id
    ensures var init := InitialParams(kind, id);
      var ps := TypeParams(kind, id, segments, init);
      && (kind == "trip" ==> ps == init)
      && (IsTripKind(kind) && kind != "trip" ==> ps == init + [("tripId", Text(id))])
      && (kind == "profile" ==> ps == init + [("userId", Text(id))])
      && (kind == "template" ==> ps == init + [("templateId", Text(id))])
      && (kind == "tip" ==> ps == init + [("tipId", Text(id))])
      && (kind == "discover" ==>
            ps == if id == "post" && |segments| > 2 && segments[2] != ""
                  then init + [("postId", Text(segments[2]))] else init)
      && (!IsKnownKind(kind) || kind == "create" ==> ps == init)
  {
    if IsTripKind(kind) {
      TripParams(kind, id, segments);
    } else {
      OtherParams(kind, id, segments);
    }
  }

  lemma TripParams(kind: string, id: string, segments: seq<string>)
    requires |segments| >= 2 && IsTripKind(kind)
    ensures var init := InitialParams(kind, id);
      TypeParams(kind, id, segments, init) == if kind == "trip" then init else init + [("tripId", Text(id))]
  {
    AssignOne(InitialParams(kind, id)[0], "tripId", Text(id));
  }

  lemma OtherParams(kind: string, id: string, segments: seq<string>)
    requires |segments| >= 2 && segments[1] == id && !IsTripKind(kind)
    ensures var init := InitialParams(kind, id);
      var key := if kind == "profile" then "userId" else if kind == "template" then "templateId" else "tipId";
      TypeParams(kind, id, segments, init) ==
        if kind == "profile" || kind == "template" || kind == "tip" then init + [(key, Text(id))]
        else if kind == "discover" && id == "post" && |segments| > 2 && segments[2] != ""
        then init + [("postId", Text(segments[2]))]
        else init
  {
    var init := InitialParams(kind, id);
    assert init == [("id", Text(id))];
    if kind == "profile" {
      AssignOne(init[0], "userId", Text(id));
    } else if kind == "template" {
      AssignOne(init[0], "templateId", Text(id));
    } else if kind == "tip" {
      AssignOne(init[0], "tipId", Text(id));
    } else if kind == "discover" && id == "post" && |segments| > 2 && segments[2] != "" {
      AssignOne(init[0], "postId", Text(segments[2]));
    }
  }

  /** Assigning to an object of one entry. */
  lemma AssignOne(e: (string, Value), key: string, v: Value)
    ensures Assign([e], key, v) == if key == e.0 then [(key, v)] else [e] + [(key, v)]
  {
    assert [e][1..] == [];
  }

  /** An object of one or two text entries under different keys. */
  lemma ShortParams(ps: Params)
    requires 1 <= |ps| <= 2 && ps[0].1.Text?
    requires |ps| == 2 ==> ps[1].0 != ps[0].0 && ps[1].1.Text?
    ensures UniqueKeys(ps) && Keys(ps)[0] == ps[0].0
    ensures forall key :: key in Keys(ps) ==> Prop(ps, key).value.Text?
    ensures forall key :: key in Keys(ps) ==> key == ps[0].0 || (|ps| == 2 && key == ps[1].0)
  {
    if |ps| == 1 {
      assert Keys(ps) == [ps[0].0];
    } else {
      assert ps[1..][1..] == [];
      assert Keys(ps[1..]) == [ps[1].0];
      assert Keys(ps) == [ps[0].0, ps[1].0];
    }
  }

  /** The value of each key the `switch` may set. */
  lemma TypeParamsProps(kind: string, id: string, segments: seq<string>)
    requires |segments| >= 2 && segments[1] == id
    ensures var ps := TypeParams(kind, id, segments, InitialParams(kind, id));
      && Prop(ps, "tripId") == (if IsTripKind(kind) then Some(Text(id)) else None)
      && Prop(ps, "id") == (if kind != "trip" then Some(Text(id)) else None)
      && Prop(ps, "userId") == (if kind == "profile" then Some(Text(id)) else None)
      && Prop(ps, "templateId") == (if kind == "template" then Some(Text(id)) else None)
      && Prop(ps, "tipId") == (if kind == "tip" then Some(Text(id)) else None)
    ensures Prop(TypeParams(kind, id, segments, InitialParams(kind, id)), "postId") ==
      (if kind == "discover" && id == "post" && |segments| > 2 && segments[2] != ""
       then Some(Text(segments[2])) else None)
  {
    TypeParamsCases(kind, id, segments);
    var init := InitialParams(kind, id);
    var ps := TypeParams(kind, id, segments, init);
    if |ps| == 2 {
      PropOfTwo(ps);
    }
  }

  /** The properties of an object of two entries. */
  lemma PropOfTwo(ps: Params)
    requires |ps| == 2
    ensures forall key :: Prop(ps, key) == (if key == ps[0].0 then Some(ps[0].1) else if key == ps[1].0 then Some(ps[1].1) else None)
  {
    assert ps[1..][1..] == [];
  }

  /**
    `buildAppPath(type, id, params)`: the path the app routes for a type,
    and `''` for an unknown type; the parameters are never read.
  */
  function BuildAppPath(kind: string, id: string, params: Params): (path: string)
    ensures path == "" <==> !IsKnownKind(kind)
  {
    if IsPlainKind(kind) then kind + "/" + id
    else if kind == "discover" then "discover/post/" + id
    else if kind == "create" then "create"
    else ""
  }

  /**
    The path of each known type: `<type>/<id>` for the plain types, the
    post route for `discover` whatever the id, and `create` alone.
  */
  lemma AppPathOfKind(kind: string, id: string, params: Params)
    ensures IsPlainKind(kind) ==> BuildAppPath(kind, id, params) == kind + "/" + id
    ensures kind == "discover" ==> BuildAppPath(kind, id, params) == "discover/post/" + id
    ensures kind == "create" ==> BuildAppPath(kind, id, params) == "create"
    ensures BuildAppPath(kind, id, params) == BuildAppPath(kind, id, [])
  {
  }

  /** The app path of a known type opens with the type's name, a valid host name. */
  lemma KnownKindHostName(kind: string, id: string, params: Params)
    requires IsKnownKind(kind)
    ensures Url.OpensWithHostName(BuildAppPath(kind, id, params))
  {
    var path := BuildAppPath(kind, id, params);
    if kind == "create" {
      assert Url.HostNameEnds(path, 6);
    } else if kind == "discover" {
      assert Url.HostNameEnds(path, 8);
    } else {
      assert path == kind + "/" + id;
      assert Url.HostNameEnds(path, |kind|);
    }
  }

  /** A known type has no slash in its name. */
  lemma KnownKindNoSlash(kind: string)
    requires IsKnownKind(kind)
    ensures '/' !in kind
  {
  }

  /** `<type>/<id>` splits back into the type and the id. */
  lemma {:induction false} SegmentsOfPair(kind: string, id: string)
    requires '/' !in kind && '/' !in id
    ensures Segments("/" + kind + "/" + id) == [kind, id]
  {
    assert StripSlash("/" + kind + "/" + id) == kind + ['/'] + id;
    SplitAfterFirst(kind, '/', id);
    SplitNone(id, '/');
  }

  /**
    The app path of a `<type>/<id>` route, read back as a web path, gives
    the same type and id, for every such type and every slash-free id.
  */
  lemma AppPathRoundTrip(kind: string, id: string, params: Params)
    requires IsPlainKind(kind) && id != "" && '/' !in id
    ensures ParseUrlPath("/" + BuildAppPath(kind, id, params)).Some?
    ensures ParseUrlPath("/" + BuildAppPath(kind, id, params)).value.kind == kind
    ensures ParseUrlPath("/" + BuildAppPath(kind, id, params)).value.id == id
  {
    KnownKindNoSlash(kind);
    assert "/" + BuildAppPath(kind, id, params) == "/" + kind + "/" + id;
    SegmentsOfPair(kind, id);
  }

  /**
    Conversely, for a `<type>/<id>` route the app path is the start of the
    web path without its slash, and all of it when the path has just the
    two segments.
  */
  lemma ParsedAppPath(pathname: string)
    requires ParseUrlPath(pathname).Some?
    requires IsPlainKind(ParseUrlPath(pathname).value.kind)
    ensures var p := ParseUrlPath(pathname).value;
      BuildAppPath(p.kind, p.id, p.params) <= StripSlash(pathname)
    ensures var p := ParseUrlPath(pathname).value;
      |Segments(pathname)| == 2 ==> BuildAppPath(p.kind, p.id, p.params) == StripSlash(pathname)
  {
    var p := ParseUrlPath(pathname).value;
    var path := StripSlash(pathname);
    ParseUrlPathSome(pathname);
    var rest := path[|p.kind| + 1..];
    FirstSlashSplits(path, p.kind);
    PairPrefix(p.kind, p.id, rest);
    if |Segments(pathname)| == 2 {
      SecondSegmentLast(path, p.kind, rest);
    }
  }

  /** A path with a slash is the text before its first slash, the slash and the rest. */
  lemma FirstSlashSplits(path: string, kind: string)
    requires kind <= path && |kind| < |path| && path[|kind|] == '/'
    ensures path == kind + ['/'] + path[|kind| + 1..]
  {
    var k := |kind|;
    assert path == path[..k] + [path[k]] + path[k + 1..];
  }

  /** `<type>/<id>` starts `<type>/<rest>` when the id starts the rest, and is all of it when the id is. */
  lemma PairPrefix(kind: string, id: string, rest: string)
    requires id == TakeUntil(rest, '/')
    ensures kind + "/" + id <= kind + ['/'] + rest
    ensures id == rest ==> kind + "/" + id == kind + ['/'] + rest
  {
    assert rest == id + rest[|id|..];
    assert kind + ['/'] + rest == (kind + "/" + id) + rest[|id|..];
  }

  /** With just two segments, the second is all that follows the first slash. */
  lemma SecondSegmentLast(path: string, kind: string, rest: string)
    requires '/' !in kind && path == kind + ['/'] + rest
    requires |Split(path, '/')| == 2
    ensures TakeUntil(rest, '/') == rest
  {
    SplitAfterFirst(kind, '/', rest);
    SplitSingle(rest, '/');
  }

  /**
    A path with a type and no id parses to null, with or without a trailing
    slash: `/create` and `/create/` among them, so `create` never reaches
    `buildAppPath` from a web path.
  */
  lemma NoIdIsNull(kind: string)
    requires '/' !in kind
    ensures ParseUrlPath("/" + kind) == None
    ensures ParseUrlPath("/" + kind + "/") == None
  {
    assert StripSlash("/" + kind) == kind;
    SplitNone(kind, '/');
    assert StripSlash("/" + kind + "/") == kind + ['/'] + [];
    SplitAfterFirst(kind, '/', []);
    assert Split([], '/') == [[]];
  }

  /** An unknown type is returned, not rejected; only `buildAppPath` turns it away. */
  lemma UnknownKindParses(kind: string, id: string)
    requires !IsKnownKind(kind) && '/' !in kind && '/' !in id && id != ""
    ensures ParseUrlPath("/" + kind + "/" + id) == Some(Parsed(kind, id, [("id", Text(id))]))
    ensures BuildAppPath(kind, id, [("id", Text(id))]) == ""
  {
    SegmentsOfPair(kind, id);
    var segs := Segments("/" + kind + "/" + id);
    assert segs[0] == kind && segs[1] == id;
  }

  /** Only one leading slash is stripped: `//a/b` has the empty type and the id `a`. */
  lemma DoubleSlashAt(a: string, b: string)
    requires a != "" && '/' !in a && '/' !in b
    ensures ParseUrlPath("//" + a + "/" + b) == Some(Parsed("", a, [("id", Text(a))]))
  {
    assert StripSlash("//" + a + "/" + b) == [] + ['/'] + (a + ['/'] + b);
    SplitAfterFirst([], '/', a + ['/'] + b);
    SplitAfterFirst(a, '/', b);
    SplitNone(b, '/');
    assert Segments("//" + a + "/" + b) == ["", a, b];
  }

  /** `//trip/x` has the empty type and the id `trip`. */
  lemma DoubleSlash()
    ensures ParseUrlPath("//trip/x") == Some(Parsed("", "trip", [("id", Text("trip"))]))
  {
    DoubleSlashAt("trip", "x");
    assert "//trip/x" == "//" + "trip" + "/" + "x";
  }

  /**
    `/discover/post/X` keeps `post` as the id and `X` as `postId`, so the
    app path built from it is `discover/post/post`: `X` reaches the app only
    as a parameter.
  */
  lemma DiscoverPost(x: string)
    requires x != "" && '/' !in x
    ensures ParseUrlPath("/discover/post/" + x)
      == Some(Parsed("discover", "post", [("id", Text("post")), ("postId", Text(x))]))
    ensures BuildAppPath("discover", "post", [("id", Text("post")), ("postId", Text(x))]) == "discover/post/post"
  {
    DiscoverSegments(x);
    DiscoverParsed("/discover/post/" + x, x);
    DiscoverAppPath([("id", Text("post")), ("postId", Text(x))]);
  }

  /** The post route built for the id `post`. */
  lemma DiscoverAppPath(params: Params)
    ensures BuildAppPath("discover", "post", params) == "discover/post/post"
  {
  }

  /** A path whose segments are `discover`, `post` and `x` parses to the post record. */
  lemma DiscoverParsed(pathname: string, x: string)
    requires x != "" && Segments(pathname) == ["discover", "post", x]
    ensures ParseUrlPath(pathname)
      == Some(Parsed("discover", "post", [("id", Text("post")), ("postId", Text(x))]))
  {
    var segs := Segments(pathname);
    TypeParamsCases("discover", "post", segs);
    var init := InitialParams("discover", "post");
    assert init == [("id", Text("post"))];
    assert init + [("postId", Text(x))] == [("id", Text("post")), ("postId", Text(x))];
  }

  lemma {:induction false} DiscoverSegments(x: string)
    requires x != "" && '/' !in x
    ensures Segments("/discover/post/" + x) == ["discover", "post", x]
  {
    assert StripSlash("/discover/post/" + x) == "discover" + ['/'] + ("post" + ['/'] + x);
    SplitAfterFirst("discover", '/', "post" + ['/'] + x);
    SplitAfterFirst("post", '/', x);
    SplitNone(x, '/');
  }

  // ---------------------------------------------------------------------
  // detectPlatform and getStoreUrl

  datatype Platform = Ios | Android | Desktop

  /** `/iphone|ipad|ipod/.test(lower)`. */
  predicate NamesAppleDevice(lower: string) {
    Includes(lower, "iphone") || Includes(lower, "ipad") || Includes(lower, "ipod")
  }

  /**
    `detectPlatform()`, with the user-agent of `window.navigator` as a
    parameter and `None` where there is no window.
  */
  function DetectPlatform(userAgent: Option<string>): (p: Platform)
    ensures userAgent.None? ==> p == Desktop
  {
    if userAgent.None? then Desktop
    else
      var lower := AsciiLower(userAgent.value);
      if NamesAppleDevice(lower) then Ios
      else if Includes(lower, "android") then Android
      else Desktop
  }

  /** An Apple device name occurs in the lowered user-agent at position `i`. */
  predicate AppleDeviceAt(lower: string, i: nat) {
    OccursAt(lower, "iphone", i) || OccursAt(lower, "ipad", i) || OccursAt(lower, "ipod", i)
  }

  /**
    The platform by positions in the lowered user-agent: iOS exactly when an
    Apple device name occurs anywhere, so it wins over `android`; Android
    when only `android` occurs.
  */
  lemma DetectPlatformOccurs(ua: string)
    ensures DetectPlatform(Some(ua)) == Ios <==> exists i: nat :: AppleDeviceAt(AsciiLower(ua), i)
    ensures DetectPlatform(Some(ua)) == Android <==>
      (forall i: nat :: !AppleDeviceAt(AsciiLower(ua), i)) && exists i: nat :: OccursAt(AsciiLower(ua), "android", i)
  {
    assert DetectPlatform(Some(ua)) == Ios <==> NamesAppleDevice(AsciiLower(ua));
    assert DetectPlatform(Some(ua)) == Android <==> !NamesAppleDevice(AsciiLower(ua)) && Includes(AsciiLower(ua), "android");
    AppleDeviceExists(AsciiLower(ua));
    assert NamesAppleDevice(AsciiLower(ua)) <==> exists i: nat :: AppleDeviceAt(AsciiLower(ua), i);
    IncludesExists(AsciiLower(ua), "android");
  }

  /** An Apple device name is included exactly when one of the three occurs at some position. */
  lemma AppleDeviceExists(lower: string)
    ensures NamesAppleDevice(lower) <==> exists i: nat :: AppleDeviceAt(lower, i)
  {
    if Includes(lower, "iphone") {
      assert AppleDeviceAt(lower, IndexOf(lower, "iphone").value);
    } else if Includes(lower, "ipad") {
      assert AppleDeviceAt(lower, IndexOf(lower, "ipad").value);
    } else if Includes(lower, "ipod") {
      assert AppleDeviceAt(lower, IndexOf(lower, "ipod").value);
    }
    forall i: nat | AppleDeviceAt(lower, i) ensures NamesAppleDevice(lower) {
      if OccursAt(lower, "iphone", i) {
        IncludesAt(lower, "iphone", i);
      } else if OccursAt(lower, "ipad", i) {
        IncludesAt(lower, "ipad", i);
      } else {
        IncludesAt(lower, "ipod", i);
      }
    }
  }

  /** Letter case never matters: the lowered user-agent gives the same platform. */
  lemma DetectPlatformIgnoresCase(ua: string)
    ensures DetectPlatform(Some(AsciiLower(ua))) == DetectPlatform(Some(ua))
  {
    AsciiLowerIdempotent(ua);
  }

  /** `iPhone` anywhere makes the platform iOS, whatever else the user-agent says. */
  lemma IPhoneWins(before: string, after: string)
    ensures DetectPlatform(Some(before + "iPhone" + after)) == Ios
  {
    var ua := before + "iPhone" + after;
    assert OccursAt(ua, "iPhone", |before|) by {
      assert ua[|before|..|before| + 6] == "iPhone";
    }
    LowerOccurs(ua, "iPhone", |before|);
    assert AsciiLower("iPhone") == "iphone";
    IncludesExists(AsciiLower(ua), "iphone");
  }

  /**
    `getStoreUrl()`: the App Store for iOS and the Play Store for Android
    and for the desktop, including when there is no window.
  */
  function GetStoreUrl(cfg: Env.Config, userAgent: Option<string>): (url: string)
    ensures url == cfg.iosStoreUrl || url == cfg.androidStoreUrl
    ensures DetectPlatform(userAgent) == Ios ==> url == cfg.iosStoreUrl
    ensures DetectPlatform(userAgent) != Ios ==> url == cfg.androidStoreUrl
    ensures userAgent.None? ==> url == cfg.androidStoreUrl
  {
    if DetectPlatform(userAgent) == Ios then cfg.iosStoreUrl else cfg.androidStoreUrl
  }

  // ---------------------------------------------------------------------
  // buildDeeplinkUrl

  /**
    The `searchParams.set` calls `buildDeeplinkUrl` makes for the entries
    of its parameter object, in order: one per entry that is neither
    undefined nor null, with the value as `String(value)`.
  */
  function SetCalls(entries: Params): (calls: seq<Pair>)
    ensures |calls| <= |entries|
  {
    if entries == [] then []
    else
      var last := entries[|entries| - 1];
      SetCalls(entries[..|entries| - 1]) + (if Defined(last.1) then [(last.0, Stringify(last.1))] else [])
  }

  /** A query list after a sequence of `set` calls. */
  function ApplySets(l: seq<Pair>, calls: seq<Pair>): seq<Pair> {
    if calls == [] then l
    else
      var last := calls[|calls| - 1];
      Url.SetPair(ApplySets(l, calls[..|calls| - 1]), last.0, last.1)
  }

  /**
    What `buildDeeplinkUrl(path, params)` returns, with `None` where
    `new URL(scheme + path)` throws: the URL as parsed, its query replaced
    by the serialized list when at least one `set` call was made.
  */
  function DeeplinkHref(scheme: string, path: string, params: Option<Params>): Option<string> {
    var parsed := Url.ParseHref(scheme + path);
    if parsed.None? then None
    else Some(Url.HrefOf(AfterSets(parsed.value, SetCalls(params.GetOr([])))))
  }

  /** A URL after `set` calls: untouched when there were none, otherwise with the list serialized as its query. */
  function AfterSets(r: Url.UrlRecord, calls: seq<Pair>): Url.UrlRecord {
    if calls == [] then r else r.(query := Url.QueryOf(ApplySets(Url.QueryList(r), calls)))
  }

  /** One more entry adds its `set` call, if any, at the end. */
  lemma SetCallsStep(entries: Params, i: nat)
    requires i < |entries|
    ensures SetCalls(entries[..i + 1])
      == SetCalls(entries[..i]) + (if Defined(entries[i].1) then [(entries[i].0, Stringify(entries[i].1))] else [])
  {
    assert entries[..i + 1][..i] == entries[..i];
  }

  /** A further `set` call applies to the list the earlier ones left. */
  lemma ApplySetsStep(l: seq<Pair>, calls: seq<Pair>, name: string, value: string)
    ensures ApplySets(l, calls + [(name, value)]) == Url.SetPair(ApplySets(l, calls), name, value)
  {
    assert (calls + [(name, value)])[..|calls|] == calls;
  }

  /**
    `buildDeeplinkUrl(path, params)`: parses the configured scheme followed
    by the path, then sets each defined entry on the URL's search
    parameters, one after the other.
  */
  method BuildDeeplinkUrl(cfg: Env.Config, path: string, params: Option<Params>) returns (href: Option<string>)
    ensures href == DeeplinkHref(cfg.urlScheme, path, params)
  {
    var parsed := Url.ParseHref(cfg.urlScheme + path);
    if parsed.None? {
      return None;
    }
    var r := parsed.value;
    var url := new Url.Url(r);
    SetEntries(url, params.GetOr([]));
    assert url.Record() == AfterSets(r, SetCalls(params.GetOr([])));
    return Some(url.Href());
  }

  /** The loop of `buildDeeplinkUrl`: one `set` call per defined entry, in order. */
  method SetEntries(url: Url.Url, entries: Params)
    requires url.Valid()
    modifies url
    ensures url.Valid()
    ensures url.list == ApplySets(old(url.list), SetCalls(entries))
    ensures url.prefix == old(url.prefix) && url.fragment == old(url.fragment)
    ensures url.query == if SetCalls(entries) == [] then old(url.query) else Url.QueryOf(url.list)
  {
    ghost var list0, query0 := url.list, url.query;
    var i := 0;
    while i < |entries|
      invariant 0 <= i <= |entries|
      invariant url.Valid()
      invariant url.list == ApplySets(list0, SetCalls(entries[..i]))
      invariant url.prefix == old(url.prefix) && url.fragment == old(url.fragment)
      invariant SetCalls(entries[..i]) == [] ==> url.query == query0
      invariant SetCalls(entries[..i]) != [] ==> url.query == Url.QueryOf(url.list)
    {
      var entry := entries[i];
      SetEntryStep(list0, entries, i);
      if Defined(entry.1) {
        url.SetParam(entry.0, Stringify(entry.1));
      }
      i := i + 1;
    }
    assert entries[..i] == entries;
  }

  /** The `set` calls and the list after them, one entry further on. */
  lemma SetEntryStep(l: seq<Pair>, entries: Params, i: nat)
    requires i < |entries|
    ensures var before, after := SetCalls(entries[..i]), SetCalls(entries[..i + 1]);
      && (Defined(entries[i].1) ==> after != [])
      && (Defined(entries[i].1) ==>
            ApplySets(l, after) == Url.SetPair(ApplySets(l, before), entries[i].0, Stringify(entries[i].1)))
      && (!Defined(entries[i].1) ==> after == before)
  {
    SetCallsStep(entries, i);
    if Defined(entries[i].1) {
      ApplySetsStep(l, SetCalls(entries[..i]), entries[i].0, Stringify(entries[i].1));
    } else {
      assert SetCalls(entries[..i]) + [] == SetCalls(entries[..i]);
    }
  }

  // ---------------------------------------------------------------------
  // what the deep link carries

  /** The value the last `set` call for `name` wrote, if there was one. */
  function LastSet(calls: seq<Pair>, name: string): Option<string> {
    if calls == [] then None
    else if calls[|calls| - 1].0 == name then Some(calls[|calls| - 1].1)
    else LastSet(calls[..|calls| - 1], name)
  }

  /**
    After a sequence of `set` calls each name that was set occurs exactly
    once, with the last value set; every other name keeps its pairs.
  */
  lemma {:induction false} ApplySetsNamed(l: seq<Pair>, calls: seq<Pair>, name: string)
    ensures Url.Named(ApplySets(l, calls), name)
      == if LastSet(calls, name).Some? then [(name, LastSet(calls, name).value)] else Url.Named(l, name)
  {
    if calls != [] {
      ApplySetsNamed(l, calls[..|calls| - 1], name);
    }
  }

  /** An object's value for a key as the query carries it: nothing for undefined, null or absent. */
  function Stringified(v: Option<Value>): Option<string> {
    if v.Some? && Defined(v.value) then Some(Stringify(v.value)) else None
  }

  lemma {:induction false} KeysAppend(p: Params, e: (string, Value))
    ensures Keys(p + [e]) == Keys(p) + [e.0]
  {
    if p != [] {
      assert (p + [e])[1..] == p[1..] + [e];
      KeysAppend(p[1..], e);
    }
  }

  lemma {:induction false} PropAppend(p: Params, e: (string, Value), key: string)
    ensures Prop(p + [e], key) == if key in Keys(p) then Prop(p, key) else if e.0 == key then Some(e.1) else None
  {
    if p != [] {
      assert (p + [e])[1..] == p[1..] + [e];
      PropAppend(p[1..], e, key);
    }
  }

  lemma LastSetAppend(calls: seq<Pair>, c: Pair, name: string)
    ensures LastSet(calls + [c], name) == if c.0 == name then Some(c.1) else LastSet(calls, name)
  {
    assert (calls + [c])[..|calls|] == calls;
  }

  /**
    For an object, where every key is listed once, the last `set` call for
    a key writes that key's value as a string, and there is none for an
    undefined, null or absent one.
  */
  lemma {:induction false} SetCallsLast(entries: Params, name: string)
    requires UniqueKeys(entries)
    ensures LastSet(SetCalls(entries), name) == Stringified(Prop(entries, name))
  {
    if entries != [] {
      var init, e := entries[..|entries| - 1], entries[|entries| - 1];
      assert entries == init + [e];
      KeysAppend(init, e);
      PropAppend(init, e, name);
      var ks := Keys(entries);
      assert UniqueKeys(init) by {
        forall i, j | 0 <= i < j < |Keys(init)| ensures Keys(init)[i] != Keys(init)[j] {
          assert ks[i] == Keys(init)[i] && ks[j] == Keys(init)[j];
        }
      }
      forall i | 0 <= i < |Keys(init)| ensures Keys(init)[i] != e.0 {
        assert ks[i] == Keys(init)[i] && ks[|ks| - 1] == e.0;
      }
      SetCallsLast(init, name);
      if Defined(e.1) {
        LastSetAppend(SetCalls(init), (e.0, Stringify(e.1)), name);
      } else {
        assert SetCalls(entries) == SetCalls(init) + [];
        assert SetCalls(entries) == SetCalls(init);
        if e.0 == name {
          assert Prop(init, name).None?;
        }
      }
    }
  }

  /** No `set` call is made exactly when every entry is undefined or null. */
  lemma {:induction false} SetCallsNone(entries: Params)
    ensures SetCalls(entries) == [] <==> forall k :: 0 <= k < |entries| ==> !Defined(entries[k].1)
  {
    if entries != [] {
      var init := entries[..|entries| - 1];
      SetCallsNone(init);
      assert forall k :: 0 <= k < |init| ==> init[k] == entries[k];
    }
  }

  /**
    With nothing to set (no object, or only undefined and null values) the
    deep link is the parsed `scheme + path` as it stands, so it has no `?`
    unless the path brought one.
  */
  lemma NothingSetKeepsHref(scheme: string, path: string, params: Option<Params>)
    requires Url.ParseHref(scheme + path).Some?
    requires forall k :: 0 <= k < |params.GetOr([])| ==> !Defined(params.GetOr([])[k].1)
    ensures DeeplinkHref(scheme, path, params) == Some(Url.Preprocess(scheme + path))
    ensures '?' !in scheme + path ==> '?' !in DeeplinkHref(scheme, path, params).value
  {
    SetCallsNone(params.GetOr([]));
    Url.HrefOfParse(scheme + path);
    var h := scheme + path;
    var t := Url.StripLeading(h);
    assert Url.StripTrailing(t) <= t;
  }

  /**
    Reading the deep link back with the URL parser: the part before the
    query and the fragment are those of `scheme + path`, and in the query
    each key with a defined value occurs exactly once, as `String(value)`,
    while every other name keeps the pairs the path's own query had.
  */
  lemma DeeplinkReadBack(scheme: string, path: string, params: Option<Params>)
    requires Url.ParseHref(scheme + path).Some?
    requires params.Some? ==> UniqueKeys(params.value)
    ensures DeeplinkHref(scheme, path, params).Some?
    ensures var r := Url.ParseHref(scheme + path).value;
      var back := Url.ParseHref(DeeplinkHref(scheme, path, params).value);
      && back.Some? && back.value.prefix == r.prefix && back.value.fragment == r.fragment
      && (forall name :: Url.Named(Url.QueryList(back.value), name) ==
            var v := Stringified(Prop(params.GetOr([]), name));
            if v.Some? then [(name, v.value)] else Url.Named(Url.QueryList(r), name))
  {
    var r := Url.ParseHref(scheme + path).value;
    var entries := params.GetOr([]);
    var calls := SetCalls(entries);
    var href := DeeplinkHref(scheme, path, params).value;
    if calls == [] {
      Url.ReparseHref(scheme + path);
      forall name ensures Stringified(Prop(entries, name)).None? {
        SetCallsLast(entries, name);
      }
    } else {
      var l := ApplySets(Url.QueryList(r), calls);
      var r' := AfterSets(r, calls);
      ApplySetsNamed(Url.QueryList(r), calls, calls[|calls| - 1].0);
      Url.ParsedParts(scheme + path);
      Url.RewrittenQueryWellFormed(r, l);
      Url.ParseHrefOf(r');
      Form.ParseSerialize(l);
      assert Url.QueryList(r') == l;
      forall name ensures Url.Named(l, name) ==
        var v := Stringified(Prop(entries, name));
        if v.Some? then [(name, v.value)] else Url.Named(Url.QueryList(r), name)
      {
        ApplySetsNamed(Url.QueryList(r), calls, name);
        SetCallsLast(entries, name);
      }
    }
  }

  /**
    With the default `tripwiser://` scheme and a path that opens with a
    valid host name, the URL parses, so `buildDeeplinkUrl` does not throw.
  */
  lemma DefaultSchemeParses(path: string)
    requires Url.OpensWithHostName(path)
    ensures Url.ParseHref(Env.Default(Env.URL_SCHEME) + path).Some?
    ensures DeeplinkHref(Env.Default(Env.URL_SCHEME), path, None).Some?
  {
    var scheme := Env.Default(Env.URL_SCHEME);
    assert scheme == "tripwiser://";
    assert Url.SchemeRest(scheme, 9);
    Url.ParsesAfterScheme(scheme, path);
  }

  /**
    A flag set on a plain URL: the deep link is the URL followed by
    `?<name>=true`, the flag written as the string `true`.
  */
  lemma FlagLink(scheme: string, path: string, name: string)
    requires Url.ParseHref(scheme + path).Some? && Url.Plain(scheme + path)
    requires Form.IsUnreservedText(name)
    ensures DeeplinkHref(scheme, path, Some([(name, Flag(true))])) == Some(scheme + path + "?" + (name + "=" + "true"))
  {
    Url.ParsePlain(scheme + path);
    FlagQuery(name);
    LinkOnBareUrl(scheme, path, [(name, Flag(true))], name + "=" + "true");
  }

  /** On a URL without query or fragment, the deep link is the URL, `?` and the serialized sets. */
  lemma LinkOnBareUrl(scheme: string, path: string, entries: Params, q: string)
    requires Url.ParseHref(scheme + path) == Some(Url.UrlRecord(scheme + path, None, None))
    requires SetCalls(entries) != [] && Url.QueryOf(ApplySets([], SetCalls(entries))) == Some(q)
    ensures DeeplinkHref(scheme, path, Some(entries)) == Some(scheme + path + "?" + q)
  {
    var h := scheme + path;
    var r := Url.UrlRecord(h, None, None);
    Form.ParseEmpty();
    assert Url.QueryList(r) == [];
    assert AfterSets(r, SetCalls(entries)) == Url.UrlRecord(h, Some(q), None);
    Url.HrefOfQuery(h, q);
  }

  /** The query one flag produces on a URL that had none. */
  lemma FlagQuery(name: string)
    requires Form.IsUnreservedText(name)
    ensures SetCalls([(name, Flag(true))]) == [(name, "true")]
    ensures Url.QueryOf(ApplySets([], [(name, "true")])) == Some(name + "=" + "true")
  {
    var calls := SetCalls([(name, Flag(true))]);
    assert calls == [(name, "true")];
    assert ApplySets([], calls) == [(name, "true")];
    TrueIsUnreserved();
    Form.SerializeUnreservedPair(name, "true");
  }

  lemma TrueIsUnreserved()
    ensures Form.IsUnreservedText("true")
  {
  }

  /**
    The deep link the site's own checks expect for a shared itinerary:
    `tripwiser://itinerary/<id>?viewOnly=true`.
  */
  lemma ViewOnlyLink(id: string)
    requires Form.IsUnreservedText(id)
    ensures DeeplinkHref("tripwiser://", "itinerary/" + id, Some([("viewOnly", Flag(true))]))
      == Some("tripwiser://" + ("itinerary/" + id) + "?" + ("viewOnly" + "=" + "true"))
  {
    ViewOnlyLiterals();
    var h := "tripwiser://" + ("itinerary/" + id);
    Url.PlainAppend("tripwiser://", "itinerary/" + id);
    assert Url.Plain(id) by {
      forall k | 0 <= k < |id| ensures id[k] as int > 0x20 && id[k] != '?' && id[k] != '#' {
        assert Form.IsUnreserved(id[k] as int);
      }
    }
    Url.PlainAppend("itinerary/", id);
    Url.PlainAppend("tripwiser://", "itinerary/" + id);
    assert Url.HostNameEnds("itinerary/" + id, 9);
    DefaultSchemeParses("itinerary/" + id);
    FlagLink("tripwiser://", "itinerary/" + id, "viewOnly");
  }

  lemma ViewOnlyLiterals()
    ensures Url.Plain("tripwiser://") && Url.Plain("itinerary/")
    ensures Env.Default(Env.URL_SCHEME) == "tripwiser://"
    ensures Form.IsUnreservedText("viewOnly")
  {
  }

  // ---------------------------------------------------------------------
  // the redirect pipeline

  /**
    The one name an assignment to an ordinary object does not turn into an
    own property: `obj.__proto__ = value` runs `Object.prototype`'s setter,
    which ignores a string value.
  */
  const ProtoKey: string := "__proto__"

  /**
    `params[key] = value` for each pair of the page's query, in order: the
    last value for a name wins, `__proto__` is never added, and every
    other name keeps its parsed value.
  */
  function Override(p: Params, query: seq<Pair>): (r: Params)
    ensures forall key ::
      Prop(r, key) ==
        if key != ProtoKey && LastSet(query, key).Some? then Some(Text(LastSet(query, key).value)) else Prop(p, key)
  {
    if query == [] then p
    else
      var last := query[|query| - 1];
      var before := Override(p, query[..|query| - 1]);
      if last.0 == ProtoKey then before else Assign(before, last.0, Text(last.1))
  }

  lemma {:induction false} OverrideUnique(p: Params, query: seq<Pair>)
    requires UniqueKeys(p)
    ensures UniqueKeys(Override(p, query))
  {
    if query != [] {
      var last := query[|query| - 1];
      OverrideUnique(p, query[..|query| - 1]);
      if last.0 != ProtoKey {
        AssignUnique(Override(p, query[..|query| - 1]), last.0, Text(last.1));
      }
    }
  }

  /**
    What a page hands the redirect handler as `searchParams`: nothing, a
    `URLSearchParams` (its pairs in order), or a plain `Record<string,
    string>` object (its entries in insertion order), which the TypeScript
    type does not admit but several pages pass.
  */
  datatype PageQuery = Absent | Search(pairs: seq<Pair>) | Record(entries: seq<Pair>)

  /** The pairs of a page query, read in order. */
  function QueryPairs(query: PageQuery): seq<Pair> {
    match query
    case Absent => []
    case Search(pairs) => pairs
    case Record(entries) => entries
  }

  /** How the redirect page ends before it tries to open the app. */
  datatype Redirect = InvalidUrl | InvalidContentType | Failed | Open(deeplink: string)

  /** The link step of the pipeline: override, then build; a throw is caught as a failure. */
  function LinkStep(cfg: Env.Config, parsed: Parsed, appPath: string, pairs: seq<Pair>): Redirect {
    var link := DeeplinkHref(cfg.urlScheme, appPath, Some(Override(parsed.params, pairs)));
    if link.None? then Failed else Open(link.value)
  }

  /**
    The redirect page's pipeline as written: parse the path, build the app
    path, let the page's query override the parsed parameters, and build
    the deep link. A plain object passed as the query is truthy and has no
    `forEach`, so the call throws and the page reports a failure.
  */
  function RedirectTarget(cfg: Env.Config, pathname: string, query: PageQuery): (r: Redirect)
    ensures r == InvalidUrl <==> ParseUrlPath(pathname).None?
    ensures r == InvalidContentType <==> ParseUrlPath(pathname).Some? && !IsKnownKind(ParseUrlPath(pathname).value.kind)
    ensures query.Record? && ParseUrlPath(pathname).Some? && IsKnownKind(ParseUrlPath(pathname).value.kind) ==> r == Failed
    ensures !query.Record? ==> r == IntendedRedirectTarget(cfg, pathname, query)
  {
    var parsed := ParseUrlPath(pathname);
    if parsed.None? then InvalidUrl
    else
      var appPath := BuildAppPath(parsed.value.kind, parsed.value.id, parsed.value.params);
      if appPath == "" then InvalidContentType
      else if query.Record? then Failed
      else LinkStep(cfg, parsed.value, appPath, QueryPairs(query))
  }

  /**
    The pipeline as the pages evidently intend it: the entries of a plain
    object override the parsed parameters just as the pairs of a
    `URLSearchParams` do.
  */
  function IntendedRedirectTarget(cfg: Env.Config, pathname: string, query: PageQuery): (r: Redirect)
    ensures r == InvalidUrl <==> ParseUrlPath(pathname).None?
    ensures r == InvalidContentType <==> ParseUrlPath(pathname).Some? && !IsKnownKind(ParseUrlPath(pathname).value.kind)
  {
    var parsed := ParseUrlPath(pathname);
    if parsed.None? then InvalidUrl
    else
      var appPath := BuildAppPath(parsed.value.kind, parsed.value.id, parsed.value.params);
      if appPath == "" then InvalidContentType
      else LinkStep(cfg, parsed.value, appPath, QueryPairs(query))
  }

  /**
    As written, every page that passes a plain object fails: `/<kind>/<id>`
    of a known type parses and builds, and the object (the trip page's
    empty one or holding `viewOnly`, the itinerary page's holding
    `viewOnly` and `itineraryId`) makes the handler throw, whatever the
    scheme.
  */
  lemma PlainObjectPageFails(cfg: Env.Config, kind: string, id: string, entries: seq<Pair>)
    requires IsKnownKind(kind) && '/' !in kind && id != "" && '/' !in id
    ensures RedirectTarget(cfg, "/" + kind + "/" + id, Record(entries)) == Failed
  {
    ParsedAppPathOf(kind, id);
  }

  /** `/<kind>/<id>` parses to that known type. */
  lemma ParsedAppPathOf(kind: string, id: string)
    requires IsKnownKind(kind) && '/' !in kind && id != "" && '/' !in id
    ensures ParseUrlPath("/" + kind + "/" + id).Some?
    ensures ParseUrlPath("/" + kind + "/" + id).value.kind == kind
  {
    SegmentsOfPair(kind, id);
    var segs := Segments("/" + kind + "/" + id);
    assert segs[0] == kind && segs[1] == id;
  }

  /**
    With the default scheme the intended pipeline never fails once the path
    is valid, and neither does the pipeline as written when the page passes
    a `URLSearchParams` or nothing.
  */
  lemma RedirectNeverFailsByDefault(cfg: Env.Config, pathname: string, query: PageQuery)
    requires cfg.urlScheme == Env.Default(Env.URL_SCHEME)
    ensures IntendedRedirectTarget(cfg, pathname, query) != Failed
    ensures !query.Record? ==> RedirectTarget(cfg, pathname, query) != Failed
  {
    var parsed := ParseUrlPath(pathname);
    if parsed.Some? {
      var appPath := BuildAppPath(parsed.value.kind, parsed.value.id, parsed.value.params);
      if appPath != "" {
        KnownKindHostName(parsed.value.kind, parsed.value.id, parsed.value.params);
        DefaultSchemeParses(appPath);
      }
    }
  }

  /**
    Intended, every page for a known type, the trip and itinerary pages
    among them, opens the app with the default scheme, whatever query
    it passes.
  */
  lemma IntendedPagesOpen(cfg: Env.Config, kind: string, id: string, query: PageQuery)
    requires cfg.urlScheme == Env.Default(Env.URL_SCHEME)
    requires IsKnownKind(kind) && '/' !in kind && id != "" && '/' !in id
    ensures IntendedRedirectTarget(cfg, "/" + kind + "/" + id, query).Open?
  {
    ParsedAppPathOf(kind, id);
    RedirectNeverFailsByDefault(cfg, "/" + kind + "/" + id, query);
  }

  /**
    What the app receives: the deep link's query holds each name of the
    page's query once, with its last value (`__proto__` excepted);
    otherwise each parameter `parseUrlPath` set, once, with its value;
    otherwise whatever the app path's own query had.
  */
  lemma RedirectReadBack(cfg: Env.Config, pathname: string, query: PageQuery)
    requires IntendedRedirectTarget(cfg, pathname, query).Open?
    ensures var p := ParseUrlPath(pathname).value;
      var r := Url.ParseHref(cfg.urlScheme + BuildAppPath(p.kind, p.id, p.params)).value;
      var back := Url.ParseHref(IntendedRedirectTarget(cfg, pathname, query).deeplink);
      && back.Some?
      && (forall name :: Url.Named(Url.QueryList(back.value), name) ==
            var v := MergedValue(p.params, QueryPairs(query), name);
            if v.Some? then [(name, v.value)] else Url.Named(Url.QueryList(r), name))
  {
    var p := ParseUrlPath(pathname).value;
    var appPath := BuildAppPath(p.kind, p.id, p.params);
    var q := QueryPairs(query);
    var merged := Override(p.params, q);
    ParsedParams(pathname);
    OverrideUnique(p.params, q);
    DeeplinkReadBack(cfg.urlScheme, appPath, Some(merged));
    forall name ensures Stringified(Prop(merged, name)) == MergedValue(p.params, q, name) {
      OverrideStringified(p.params, q, name);
    }
  }

  /**
    The value a name ends up with: the page's query first (never for
    `__proto__`), then the parsed parameters.
  */
  function MergedValue(p: Params, query: seq<Pair>, name: string): Option<string> {
    var q := if name == ProtoKey then None else LastSet(query, name);
    if q.Some? then q
    else if Prop(p, name).Some? && Prop(p, name).value.Text? then Some(Prop(p, name).value.text)
    else None
  }

  lemma OverrideStringified(p: Params, query: seq<Pair>, name: string)
    requires forall key :: key in Keys(p) ==> Prop(p, key).value.Text?
    ensures Stringified(Prop(Override(p, query), name)) == MergedValue(p, query, name)
  {
  }
}
