/**
  The affiliate helpers of the registration page: reading the `affiliate`,
  `linkId` and `id` query values of the page URL into an affiliate record,
  checking the record, and writing it into a `tripwiser://register` link
  for the app.
*/
module Affiliate {
  import opened Optional
  import Url = WhatwgUrl
  import Form = FormUrlencoded
  import Deeplink
  import Env = Environment

  type Pair = Url.Pair

  /** The `type` of an affiliate record: `'elite'`, `'influencer'` or `null`. */
  datatype AffiliateType = Elite | Influencer | NoType

  /** `AffiliateData`, with `None` for an absent optional field. */
  datatype AffiliateData = AffiliateData(kind: AffiliateType, linkId: Option<string>, influencerId: Option<string>)

  /** JavaScript truthiness of a string that may be absent: present and non-empty. */
  predicate Truthy(v: Option<string>) {
    v.Some? && v.value != ""
  }

  /** `value || undefined`: drops null and the empty string, keeps the rest. */
  function OrUndefined(v: Option<string>): (r: Option<string>)
    ensures r.Some? <==> Truthy(v)
    ensures r.Some? ==> r == v
  {
    if Truthy(v) then v else None
  }

  // ---------------------------------------------------------------------
  // parseAffiliateUrl

  /** The record the query list of a page URL describes, if any. */
  function FromQuery(list: seq<Pair>): (r: Option<AffiliateData>)
    ensures r.Some? ==> r.value.kind != NoType
    ensures r.Some? <==> Url.Get(list, "affiliate") in {Some("elite"), Some("influencer")}
  {
    var affiliate := Url.Get(list, "affiliate");
    if affiliate == Some("elite") then Some(AffiliateData(Elite, OrUndefined(Url.Get(list, "linkId")), None))
    else if affiliate == Some("influencer") then Some(AffiliateData(Influencer, None, OrUndefined(Url.Get(list, "id"))))
    else None
  }

  /**
    `parseAffiliateUrl(url)`: null when the URL does not parse, and
    otherwise the record its query describes.
  */
  function ParseAffiliateUrl(url: string): (r: Option<AffiliateData>)
    ensures Url.ParseHref(url).None? ==> r == None
    ensures Url.ParseHref(url).Some? ==> r == FromQuery(Url.QueryList(Url.ParseHref(url).value))
    ensures r.Some? ==> r.value.kind != NoType
  {
    var parsed := Url.ParseHref(url);
    if parsed.None? then None else FromQuery(Url.QueryList(parsed.value))
  }

  /**
    What the parser keeps, by the first `affiliate` value: an elite record
    carries only a non-empty `linkId`, an influencer record only a
    non-empty `id` as its `influencerId`, and any other value gives null.
  */
  lemma FromQueryFields(list: seq<Pair>)
    ensures Url.Get(list, "affiliate") == Some("elite") ==>
      FromQuery(list) == Some(AffiliateData(Elite, OrUndefined(Url.Get(list, "linkId")), None))
    ensures Url.Get(list, "affiliate") == Some("influencer") ==>
      FromQuery(list) == Some(AffiliateData(Influencer, None, OrUndefined(Url.Get(list, "id"))))
    ensures FromQuery(list).Some? && FromQuery(list).value.linkId.Some? ==>
      FromQuery(list).value.kind == Elite && Url.Get(list, "linkId") == FromQuery(list).value.linkId
    ensures FromQuery(list).Some? && FromQuery(list).value.influencerId.Some? ==>
      FromQuery(list).value.kind == Influencer && Url.Get(list, "id") == FromQuery(list).value.influencerId
  {
  }

  /**
    A page URL whose query is the serialization of a list is read as that
    list: whatever the values, an `affiliate=elite&linkId=<id>` query gives
    the elite record with that link id, or none when it is empty.
  */
  lemma ParseSerializedQuery(base: string, list: seq<Pair>)
    requires Url.ParseHref(base).Some? && Url.Plain(base) && list != []
    ensures ParseAffiliateUrl(base + "?" + Form.Serialize(list)) == FromQuery(list)
  {
    Url.ParseWithQuery(base, list);
  }

  /** A page URL without a query carries no affiliate record. */
  lemma ParseNoQuery(base: string)
    requires Url.ParseHref(base).Some? && Url.Plain(base)
    ensures ParseAffiliateUrl(base) == None
  {
    Url.ParsePlain(base);
    Form.ParseEmpty();
  }

  /** `?affiliate=elite` alone gives an elite record without a link id. */
  lemma ParseEliteAlone(base: string)
    requires Url.ParseHref(base).Some? && Url.Plain(base)
    ensures ParseAffiliateUrl(base + "?" + Form.Serialize([("affiliate", "elite")]))
      == Some(AffiliateData(Elite, None, None))
  {
    ParseSerializedQuery(base, [("affiliate", "elite")]);
  }

  /** `?affiliate=elite&linkId=<id>` keeps the link id unless it is empty. */
  lemma ParseEliteLink(base: string, linkId: string)
    requires Url.ParseHref(base).Some? && Url.Plain(base)
    ensures ParseAffiliateUrl(base + "?" + Form.Serialize([("affiliate", "elite"), ("linkId", linkId)]))
      == Some(AffiliateData(Elite, OrUndefined(Some(linkId)), None))
  {
    ParseSerializedQuery(base, [("affiliate", "elite"), ("linkId", linkId)]);
    GetTwo(("affiliate", "elite"), ("linkId", linkId));
  }

  /** `?affiliate=influencer&id=<id>` keeps the id as the influencer id unless it is empty. */
  lemma ParseInfluencerId(base: string, id: string)
    requires Url.ParseHref(base).Some? && Url.Plain(base)
    ensures ParseAffiliateUrl(base + "?" + Form.Serialize([("affiliate", "influencer"), ("id", id)]))
      == Some(AffiliateData(Influencer, None, OrUndefined(Some(id))))
  {
    ParseSerializedQuery(base, [("affiliate", "influencer"), ("id", id)]);
    GetTwo(("affiliate", "influencer"), ("id", id));
  }

  /** `?affiliate=influencer` alone gives an influencer record without an id. */
  lemma ParseInfluencerAlone(base: string)
    requires Url.ParseHref(base).Some? && Url.Plain(base)
    ensures ParseAffiliateUrl(base + "?" + Form.Serialize([("affiliate", "influencer")]))
      == Some(AffiliateData(Influencer, None, None))
  {
    ParseSerializedQuery(base, [("affiliate", "influencer")]);
  }

  /** Any other `affiliate` value gives no record. */
  lemma ParseOtherType(base: string, kind: string)
    requires Url.ParseHref(base).Some? && Url.Plain(base)
    requires kind != "elite" && kind != "influencer"
    ensures ParseAffiliateUrl(base + "?" + Form.Serialize([("affiliate", kind)])) == None
  {
    ParseSerializedQuery(base, [("affiliate", kind)]);
  }

  /** `get` on a query of two pairs. */
  lemma GetTwo(p: Pair, q: Pair)
    ensures Url.Get([p, q], p.0) == Some(p.1)
    ensures p.0 != q.0 ==> Url.Get([p, q], q.0) == Some(q.1)
  {
    assert [p, q][1..] == [q];
  }

  // ---------------------------------------------------------------------
  // generateAppDeepLink

  /** The link the app opens for a registration; the scheme is written out, not configured. */
  const BaseAppUrl: string := "tripwiser://register"

  /** `type` as the link writes it. */
  function TypeName(kind: AffiliateType): string
    requires kind != NoType
  {
    if kind == Elite then "elite" else "influencer"
  }

  /** The pairs `generateAppDeepLink` appends for a record, in order. */
  function RegisterParams(d: AffiliateData): (params: seq<Pair>)
    ensures d.kind == NoType <==> params == []
    ensures d.kind != NoType ==> params[0] == ("affiliateType", TypeName(d.kind))
    ensures |params| <= 2
  {
    match d.kind
    case Elite => [("affiliateType", "elite")] + (if Truthy(d.linkId) then [("linkId", d.linkId.value)] else [])
    case Influencer =>
      [("affiliateType", "influencer")] + (if Truthy(d.influencerId) then [("influencerId", d.influencerId.value)] else [])
    case NoType => []
  }

  /** What `generateAppDeepLink(data)` returns. */
  function AppDeepLink(data: Option<AffiliateData>): (link: string)
    ensures data.None? <==> link == BaseAppUrl
    ensures BaseAppUrl <= link
  {
    if data.None? then BaseAppUrl else BaseAppUrl + "?" + Form.Serialize(RegisterParams(data.value))
  }

  /**
    `generateAppDeepLink(affiliateData)`: the bare registration link for no
    record, and otherwise the link with a query built up by `append` calls.
  */
  method GenerateAppDeepLink(data: Option<AffiliateData>) returns (link: string)
    ensures link == AppDeepLink(data)
  {
    if data.None? {
      return BaseAppUrl;
    }
    var d := data.value;
    var params := new Url.SearchParams();
    if d.kind == Elite {
      params.Append("affiliateType", "elite");
      if d.linkId.Some? && d.linkId.value != "" {
        params.Append("linkId", d.linkId.value);
      }
    } else if d.kind == Influencer {
      params.Append("affiliateType", "influencer");
      if d.influencerId.Some? && d.influencerId.value != "" {
        params.Append("influencerId", d.influencerId.value);
      }
    }
    assert params.list == RegisterParams(d);
    return BaseAppUrl + "?" + params.ToString();
  }

  /** A record whose type is null still gets a `?`, with nothing after it. */
  lemma NullTypeLink(d: AffiliateData)
    requires d.kind == NoType
    ensures AppDeepLink(Some(d)) == BaseAppUrl + "?"
  {
    Form.SerializeEmpty([]);
  }

  /**
    The app reads the record back from the link: the query parses to the
    appended pairs, `affiliateType` first, and carries `linkId` or
    `influencerId` exactly when the record has a non-empty one.
  */
  lemma AppLinkReadBack(d: AffiliateData)
    requires d.kind != NoType
    ensures var back := Url.ParseHref(AppDeepLink(Some(d)));
      && back.Some?
      && back.value.prefix == BaseAppUrl
      && Url.QueryList(back.value) == RegisterParams(d)
      && Url.Get(Url.QueryList(back.value), "affiliateType") == Some(TypeName(d.kind))
      && Url.Get(Url.QueryList(back.value), "linkId") == (if d.kind == Elite then OrUndefined(d.linkId) else None)
      && Url.Get(Url.QueryList(back.value), "influencerId")
        == (if d.kind == Influencer then OrUndefined(d.influencerId) else None)
  {
    BaseParses();
    Url.ParseWithQuery(BaseAppUrl, RegisterParams(d));
    RegisterGets(d);
  }

  /** The values `get` finds among the appended pairs. */
  lemma RegisterGets(d: AffiliateData)
    requires d.kind != NoType
    ensures Url.Get(RegisterParams(d), "affiliateType") == Some(TypeName(d.kind))
    ensures Url.Get(RegisterParams(d), "linkId") == (if d.kind == Elite then OrUndefined(d.linkId) else None)
    ensures Url.Get(RegisterParams(d), "influencerId") == (if d.kind == Influencer then OrUndefined(d.influencerId) else None)
  {
    var p := RegisterParams(d);
    assert "linkId" != "affiliateType" && "influencerId" != "affiliateType" && "linkId" != "influencerId";
    if |p| == 2 {
      assert p[1..] == [p[1]] && p[1..][1..] == [];
    } else {
      assert p[1..] == [];
    }
  }

  lemma BaseParses()
    ensures Url.ParseHref(BaseAppUrl).Some? && Url.Plain(BaseAppUrl)
  {
    BaseLiterals();
    Url.PlainAppend("tripwiser://", "register");
    assert Url.HostNameEnds("register", 8);
    Deeplink.DefaultSchemeParses("register");
  }

  lemma BaseLiterals()
    ensures Url.Plain("tripwiser://") && Url.Plain("register")
    ensures Env.Default(Env.URL_SCHEME) == "tripwiser://"
    ensures BaseAppUrl == "tripwiser://" + "register"
  {
  }

  /** An elite record without a link id: `tripwiser://register?affiliateType=elite`. */
  lemma EliteLink()
    ensures AppDeepLink(Some(AffiliateData(Elite, None, None))) == BaseAppUrl + "?" + ("affiliateType" + "=" + "elite")
  {
    LinkLiterals();
    Form.SerializeUnreservedPair("affiliateType", "elite");
  }

  /** An elite record with a link id: `...?affiliateType=elite&linkId=<id>`. */
  lemma EliteLinkWithId(linkId: string)
    requires linkId != "" && Form.IsUnreservedText(linkId)
    ensures AppDeepLink(Some(AffiliateData(Elite, Some(linkId), None)))
      == BaseAppUrl + "?" + (("affiliateType" + "=" + "elite") + "&" + ("linkId" + "=" + linkId))
  {
    TwoPairLink(AffiliateData(Elite, Some(linkId), None), "elite", "linkId", linkId);
  }

  /** An influencer record with an id: `...?affiliateType=influencer&influencerId=<id>`. */
  lemma InfluencerLink(id: string)
    requires id != "" && Form.IsUnreservedText(id)
    ensures AppDeepLink(Some(AffiliateData(Influencer, None, Some(id))))
      == BaseAppUrl + "?" + (("affiliateType" + "=" + "influencer") + "&" + ("influencerId" + "=" + id))
  {
    TwoPairLink(AffiliateData(Influencer, None, Some(id)), "influencer", "influencerId", id);
  }

  lemma TwoPairLink(d: AffiliateData, kind: string, name: string, value: string)
    requires RegisterParams(d) == [("affiliateType", kind), (name, value)]
    requires Form.IsUnreservedText(kind) && Form.IsUnreservedText(name) && Form.IsUnreservedText(value)
    ensures AppDeepLink(Some(d)) == BaseAppUrl + "?" + (("affiliateType" + "=" + kind) + "&" + (name + "=" + value))
  {
    LinkLiterals();
    Form.SerializeUnreservedPair("affiliateType", kind);
    Form.SerializeUnreservedPair(name, value);
    Form.SerializeTwo(("affiliateType", kind), (name, value));
  }

  lemma LinkLiterals()
    ensures Form.IsUnreservedText("affiliateType") && Form.IsUnreservedText("elite")
    ensures Form.IsUnreservedText("influencer") && Form.IsUnreservedText("linkId")
    ensures Form.IsUnreservedText("influencerId")
  {
  }

  // ---------------------------------------------------------------------
  // validateAffiliateData

  /**
    `validateAffiliateData(data)`: no record is fine, an elite record always
    is, an influencer record needs a non-empty `influencerId`, and a record
    of type null is not.
  */
  function ValidateAffiliateData(data: Option<AffiliateData>): (ok: bool)
    ensures data.None? ==> ok
    ensures data.Some? && data.value.kind == Elite ==> ok
    ensures data.Some? && data.value.kind == Influencer ==> (ok <==> Truthy(data.value.influencerId))
    ensures data.Some? && data.value.kind == NoType ==> !ok
  {
    if data.None? then true
    else match data.value.kind
      case Elite => true
      case Influencer => Truthy(data.value.influencerId)
      case NoType => false
  }

  /**
    Whatever the URL, the parsed record fails validation only for an
    influencer link without a usable `id`.
  */
  lemma ParsedValidity(url: string)
    ensures !ValidateAffiliateData(ParseAffiliateUrl(url))
      <==> ParseAffiliateUrl(url) == Some(AffiliateData(Influencer, None, None))
  {
  }

  // ---------------------------------------------------------------------
  // getAppStoreUrl and detectPlatform

  /** `getAppStoreUrl(platform)`: the Apple URL for iOS, the Play URL for anything else. */
  function GetAppStoreUrl(platform: Deeplink.Platform): (url: string)
    ensures platform == Deeplink.Ios ==> url == Env.Default(Env.IOS_STORE_URL)
    ensures platform != Deeplink.Ios ==> url == Env.Default(Env.ANDROID_STORE_URL)
  {
    if platform == Deeplink.Ios then "https://apps.apple.com/app/tripwiser/MT98B5253F"
    else "https://play.google.com/store/apps/details?id=com.tripwiser.android.app"
  }

  /**
    The hard-coded store URLs are the configured ones when the environment
    leaves the store variables unset.
  */
  lemma AppStoreUrlMatchesConfig(env: Env.Env, userAgent: Option<string>)
    requires Env.EnvName(Env.IOS_STORE_URL) !in env && Env.EnvName(Env.ANDROID_STORE_URL) !in env
    ensures GetAppStoreUrl(Deeplink.DetectPlatform(userAgent)) == Deeplink.GetStoreUrl(Env.LoadConfig(env), userAgent)
  {
    StoreDefaults(env);
  }

  lemma StoreDefaults(env: Env.Env)
    requires Env.EnvName(Env.IOS_STORE_URL) !in env && Env.EnvName(Env.ANDROID_STORE_URL) !in env
    ensures Env.LoadConfig(env).iosStoreUrl == Env.Default(Env.IOS_STORE_URL)
    ensures Env.LoadConfig(env).androidStoreUrl == Env.Default(Env.ANDROID_STORE_URL)
  {
    Env.FieldFromEnv(env, Env.IOS_STORE_URL);
    Env.FieldFromEnv(env, Env.ANDROID_STORE_URL);
  }
}
