# TripWiser deep-link core in Dafny

TripWiser's web site is a bounce page. It turns a shared web address into a
`tripwiser://` link that opens the mobile app, and falls back to an app store.
This project models the parts of that site that decide what the link, the
store URL and the device description are:

- **Content paths** (`utils/deeplink.ts`):
  - `parseUrlPath` splits a web path into type, id and parameters;
  - `buildAppPath` maps a type to an app path;
  - `buildDeeplinkUrl` sets those parameters on a `URL` object, one by one;
  - `detectPlatform` and `getStoreUrl` classify the browser's user-agent.
  - The redirect page's pipeline (parse, build the app path, let the page's query override the parameters, build the link) is restated as one function, with the page's query either a `URLSearchParams` or the plain object most pages pass.
- **Affiliate links** (`utils/affiliate.ts`): `parseAffiliateUrl`, `generateAppDeepLink`, `validateAffiliateData`, `getAppStoreUrl` and `detectPlatform`.
- **Device fingerprint** (`utils/deviceFingerprint.ts`):
  - the platform, OS version and device model, read from the user-agent by the source's regular expressions;
  - the echoed user-agent and the other fingerprint fields;
  - `isMobileDevice` and `getStoreURL`.
- **Configuration** (`config/environment.ts`): the default chosen for each `ENV_CONFIG` field, and `validateConfig`.

Browser inputs become parameters:
- `window.navigator.userAgent` is an `Option<string>`, with `None` where there is no window;
- `process.env` is a map;
- the screen, time zone and language are fields of a `Browser` record.

A `new URL` that throws is `None`.

The `URL` and `URLSearchParams` objects the code relies on are modelled after the WHATWG URL Standard, to the extent the core uses them. The model covers:
- the scheme check and the split of an href into prefix, query and fragment;
- the query as an ordered list of name/value pairs;
- `get` as the first value for a name;
- `set` as "replace the first pair, drop the others, or append";
- `append` as adding a pair at the end;
- `application/x-www-form-urlencoded` serializing and parsing, as in section 5 of the WHATWG URL Standard, over the UTF-8 encoding of the Encoding Standard.

Two classes keep the source's in-place updates:
- `WhatwgUrl.Url`, whose `SetParam` changes its query;
- `WhatwgUrl.SearchParams`, whose `Append` grows its list.

`BuildDeeplinkUrl` and `GenerateAppDeepLink` are methods that drive these objects in a loop or step by step, as the source does. Each is proved equal to a specification function, and the properties are proved about that function.

The regular expressions are modelled as explicit matchers:
- the leftmost starting position wins;
- repetition is greedy;
- `/OS (\d+)_(\d+)_?(\d+)?/` yields two or three digit runs;
- `/Android (\d+\.?\d*\.?\d*)/` yields up to three dot-separated runs;
- `/Android.*;\s([^)]+)\)/` starts at the leftmost `Android` from which the rest matches on its line, and takes there the last `;` followed by a space-like character and text up to a `)`.

`toLowerCase` and the `/i` flag are modelled as ASCII case folding.

`parseUrlPath` accepts any first segment, so `parseUrlPath("/unknown/1")` returns a result. Only `buildAppPath` rejects an unknown type (`Deeplink.UnknownKindParses`).

## Model

| member | source | states |
|---|---|---|
| Environment.ValidateConfig | config/environment.ts:29-50 | true exactly when none of the six required keys has a falsy value |
| Environment.MissingAmong | config/environment.ts:39 | the missing list holds exactly the listed keys whose value is falsy, in the list's order (a subsequence) |
| Environment.FieldFromEnv | config/environment.ts:6-16 | each of the seven keys with a default takes `NEXT_PUBLIC_<key>` when that is set and non-empty, and its default (the literal of config/environment.ts) when it is unset or empty; the field is never empty |
| Environment.DefaultsNonEmpty | config/environment.ts:6-16 | every listed default is a non-empty string |
| Environment.OptionalKeysNeverMissing | config/environment.ts:19-20 | `GA_TRACKING_ID` and `FACEBOOK_PIXEL_ID` are never reported missing |
| Environment.LoadedConfigValidates | config/environment.ts:6-16 | whatever the environment, the loaded configuration validates and reports nothing missing |
| Environment.NodeEnvFlags | config/environment.ts:23-25 | the two flags never hold together; with `NODE_ENV` unset, `NODE_ENV` is `development` but `IS_DEVELOPMENT` is false; each flag implies the matching `NODE_ENV` |
| Deeplink.Stringify | utils/deeplink.ts:32 | `String(value)` keeps a string and gives `"true"` exactly for boolean true |
| Deeplink.Assign | utils/deeplink.ts:124-153 | assigning a property gives it the new value, leaves every other property alone, and adds the key at the end only when it was absent |
| Deeplink.AssignUnique | utils/deeplink.ts:124-153 | assignment keeps the object's keys distinct |
| Deeplink.StripSlash | utils/deeplink.ts:114 | the result is the path itself, or the path without its first character when that is `/`: at most one leading `/` is removed |
| Deeplink.ParseUrlPathSome | utils/deeplink.ts:113-122 | the result is non-null exactly when a non-empty second segment follows the first `/`; then the type is the first segment and the id the second |
| Deeplink.ParsedParams | utils/deeplink.ts:124-159 | keys are distinct; the first key is `tripId` for trip and `id` otherwise; `tripId` equals the id for the four trip types; `id` equals the id for every type except trip; `userId`, `templateId` and `tipId` equal the id for profile, template and tip; `postId` is the third segment only for discover with id `post` and a non-empty third segment; no other key is ever set |
| Deeplink.NoIdIsNull | utils/deeplink.ts:119-122 | a path with a type and no id, such as `/create` or `/create/`, gives null, with or without a trailing slash, because the id check comes first |
| Deeplink.UnknownKindParses | utils/deeplink.ts:119-124 | an unknown type with an id parses to that type with only `id` set, and `buildAppPath` gives `''` for it |
| Deeplink.DoubleSlash | utils/deeplink.ts:114-120 | only one leading `/` is stripped, so `//trip/x` gives type `''` and id `trip` |
| Deeplink.DoubleSlashAt | utils/deeplink.ts:114-120 | only one leading `/` is stripped: `//a/b` gives type `''`, id `a` and `{ id: a }` |
| Deeplink.DiscoverPost | utils/deeplink.ts:143-146 | `/discover/post/X` gives id `post` and `postId` X, and `buildAppPath` then gives `discover/post/post` |
| Deeplink.BuildAppPath | utils/deeplink.ts:162-185 | the result is `''` exactly for a type outside the nine known ones |
| Deeplink.AppPathOfKind | utils/deeplink.ts:162-185 | `<type>/<id>` for the plain types, `discover/post/<id>` for every id, `create` alone, and the parameters never change the path |
| Deeplink.AppPathRoundTrip | utils/deeplink.ts:162-179 | for the seven `<type>/<id>` types, parsing `/` plus the app path gives back the same type and id, whatever the parameters |
| Deeplink.ParsedAppPath | utils/deeplink.ts:113-179 | for those types the app path built from a parse is a prefix of the stripped path, and equal to it when the path has two segments |
| Deeplink.DetectPlatform | utils/deeplink.ts:40-41 | no window gives desktop |
| Deeplink.DetectPlatformOccurs | utils/deeplink.ts:43-51 | ios exactly when the lowered user-agent contains iphone, ipad or ipod; android exactly when it contains none of them but contains android |
| Deeplink.DetectPlatformIgnoresCase | utils/deeplink.ts:43 | lowering the user-agent first changes nothing |
| Deeplink.IPhoneWins | utils/deeplink.ts:45-49 | a user-agent containing `iPhone` is ios even when it also names Android |
| Deeplink.GetStoreUrl | utils/deeplink.ts:54-57 | the result is the configured iOS store URL for ios and the configured Android store URL for android, for desktop and when there is no window |
| Deeplink.BuildDeeplinkUrl | utils/deeplink.ts:26-38 | the loop of `set` calls yields the specified href, or nothing when `scheme + path` is not a URL |
| Deeplink.SetCallsNone | utils/deeplink.ts:30-34 | no `set` call is made exactly when every entry is undefined or null |
| Deeplink.SetCallsLast | utils/deeplink.ts:30-34 | with distinct keys, the last value set for a name is `String` of that entry's value |
| Deeplink.ApplySetsNamed | utils/deeplink.ts:30-34 | after the `set` calls, each name that was set occurs exactly once with its last value, and other names keep their pairs |
| Deeplink.NothingSetKeepsHref | utils/deeplink.ts:27-37 | with nothing to set the result is the parsed input, and it has no `?` when the input had none (the input's query and fragment are kept as written, not percent-encoded) |
| Deeplink.DeeplinkReadBack | utils/deeplink.ts:26-38 | the link parses back with the same prefix and fragment; each defined parameter occurs once with its string value, and other names keep the pairs the path's own query had |
| Deeplink.DefaultSchemeParses | utils/deeplink.ts:27 | with the default scheme `tripwiser://` and a path that opens with a valid host name (letters, digits, `-`, `.`, then `/` or the end), the URL does not throw |
| Deeplink.KnownKindHostName | utils/deeplink.ts:162-185 | the app path of every known type opens with such a host name |
| Deeplink.FlagLink | utils/deeplink.ts:30-37 | a single boolean true entry becomes `?<name>=true` after the input |
| Deeplink.ViewOnlyLink | utils/deeplink.ts:26-38 | `itinerary/<id>` with `viewOnly: true` gives `tripwiser://itinerary/<id>?viewOnly=true` |
| Deeplink.Override | components/RedirectHandler.tsx:43-48 | after the page's query is copied over the parsed parameters, each name other than `__proto__` takes the query's last value when the query has it; `__proto__` and every name the query lacks keep their parsed value |
| Deeplink.OverrideUnique | components/RedirectHandler.tsx:43-48 | the merged parameters keep distinct keys |
| Deeplink.RedirectTarget | components/RedirectHandler.tsx:27-83 | the redirect reports an invalid URL exactly when the parse is null, and an invalid content type exactly when the parsed type is unknown; for a known type, a plain object as the query ends in 'Failed to open app' (`forEach` throws), and any other query gives what the intended pipeline gives |
| Deeplink.IntendedRedirectTarget | components/RedirectHandler.tsx:27-51 | the corrected pipeline, where a plain object's entries override the parsed parameters like a `URLSearchParams`: invalid URL exactly when the parse is null, invalid content type exactly when the type is unknown |
| Deeplink.PlainObjectPageFails | components/RedirectHandler.tsx:44-45 | for `/<type>/<id>` of every known type, a page that passes a plain object (as pages/trip/[id].tsx, lines 13-40, and pages/itinerary/[id].tsx, lines 14-45, do) ends in 'Failed to open app', for every id and every scheme |
| Deeplink.RedirectNeverFailsByDefault | components/RedirectHandler.tsx:44-51 | with the default scheme, the intended pipeline never ends in 'Failed to open app', and the pipeline as written does not either when the query is a `URLSearchParams` or absent: an unknown type stops earlier, and a known type's path has a valid host |
| Deeplink.IntendedPagesOpen | components/RedirectHandler.tsx:27-51 | with the default scheme, the intended pipeline opens the app for `/<type>/<id>` of every known type, whatever query the page passes |
| Deeplink.RedirectReadBack | components/RedirectHandler.tsx:27-51 | in the app's link each name takes the page's query value first (never for `__proto__`), then the parsed value, then the app path's own query |
| Affiliate.FromQuery | utils/affiliate.ts:17-35 | the record is never untyped, and exists exactly when `affiliate` is `elite` or `influencer` |
| Affiliate.FromQueryFields | utils/affiliate.ts:21-33 | elite carries `linkId` only when non-empty and never an influencer id; influencer carries `id` as its influencer id only when non-empty and never a link id |
| Affiliate.ParseAffiliateUrl | utils/affiliate.ts:14-40 | an unparsable URL gives null; a parsable one gives exactly the record its query list describes (`FromQuery`), never an untyped record |
| Affiliate.ParseSerializedQuery | utils/affiliate.ts:14-19 | for a base URL followed by a serialized query, parsing reads exactly that query's pairs |
| Affiliate.ParseNoQuery | utils/affiliate.ts:35 | a URL without a query gives null |
| Affiliate.ParseEliteAlone | utils/affiliate.ts:21-26 | `?affiliate=elite` gives an elite record without a link id |
| Affiliate.ParseEliteLink | utils/affiliate.ts:21-26 | `?affiliate=elite&linkId=<l>` gives an elite record with link id `l` |
| Affiliate.ParseInfluencerId | utils/affiliate.ts:28-33 | `?affiliate=influencer&id=<i>` gives an influencer record with influencer id `i` |
| Affiliate.ParseInfluencerAlone | utils/affiliate.ts:28-33 | `?affiliate=influencer` gives an influencer record without an id |
| Affiliate.ParseOtherType | utils/affiliate.ts:35 | any other `affiliate` value gives null |
| Affiliate.RegisterParams | utils/affiliate.ts:52-64 | an untyped record adds no pair; otherwise `affiliateType` comes first, and there are at most two pairs |
| Affiliate.AppDeepLink | utils/affiliate.ts:45-67 | the link is exactly `tripwiser://register` when there is no record, and always starts with it |
| Affiliate.GenerateAppDeepLink | utils/affiliate.ts:45-67 | the appends on a fresh `URLSearchParams` yield the specified link |
| Affiliate.NullTypeLink | utils/affiliate.ts:52-66 | a record whose type is null gives `tripwiser://register?` |
| Affiliate.AppLinkReadBack | utils/affiliate.ts:45-67 | the link parses back to `tripwiser://register` with exactly the pairs generated: `affiliateType` is the type, `linkId` or `influencerId` is present only when it is non-empty |
| Affiliate.BaseParses | utils/affiliate.ts:46 | the hard-coded base is a valid URL, and it equals the default scheme followed by `register` |
| Affiliate.EliteLink | utils/affiliate.ts:54-66 | an elite record without a link id gives `tripwiser://register?affiliateType=elite` |
| Affiliate.EliteLinkWithId | utils/affiliate.ts:54-66 | with a link id `l` it gives `...?affiliateType=elite&linkId=l` |
| Affiliate.InfluencerLink | utils/affiliate.ts:59-66 | with an influencer id `i` it gives `...?affiliateType=influencer&influencerId=i` |
| Affiliate.ValidateAffiliateData | utils/affiliate.ts:72-86 | null is valid; elite is valid; influencer is valid exactly when it has a non-empty id; a null type is invalid |
| Affiliate.ParsedValidity | utils/affiliate.ts:14-86 | a parsed link fails validation exactly when it is an influencer record without an id |
| Affiliate.GetAppStoreUrl | utils/affiliate.ts:91-97 | ios gives the configured default iOS store URL, anything else the default Android one |
| Affiliate.AppStoreUrlMatchesConfig | utils/affiliate.ts:91-114 | when the store variables are unset, `getAppStoreUrl(detectPlatform())` agrees with `getStoreUrl` of the deep-link module, for every user-agent |
| DeviceFingerprint.ClassifyPlatform | utils/deviceFingerprint.ts:19-24 | iOS exactly when the user-agent contains iPhone, iPad or iPod (case-sensitive); Android exactly when it contains none of them but contains Android |
| DeviceFingerprint.IosVersionReadBack | utils/deviceFingerprint.ts:27-32 | the iOS version is `Unknown` exactly when no match exists; otherwise it is two or three dot-separated non-empty digit runs that, joined by `_` after `OS `, occur at the leftmost match |
| DeviceFingerprint.IosVersionOf | utils/deviceFingerprint.ts:29-31 | `OS a_b` or `OS a_b_c`, ended by a non-digit and not preceded by an `O`, gives `a.b` or `a.b.c` |
| DeviceFingerprint.AndroidVersionReadBack | utils/deviceFingerprint.ts:33-38 | the Android version is `Unknown` exactly when no match exists; otherwise it is one to three dot-separated digit runs, the first non-empty, right after `Android ` at the leftmost match |
| DeviceFingerprint.AndroidVersionOf | utils/deviceFingerprint.ts:34-36 | `Android ` followed by a version of up to three parts, not preceded by an `A`, gives that version |
| DeviceFingerprint.AndroidModelOf | utils/deviceFingerprint.ts:46-50 | `Android...; <model>)` on one line, with no other `;` after it, gives the trimmed model |
| DeviceFingerprint.OsVersion | utils/deviceFingerprint.ts:26-38 | Web is always `Unknown` |
| DeviceFingerprint.DeviceModel | utils/deviceFingerprint.ts:40-51 | Web is always `Unknown`; for iOS the model is iPhone exactly when the user-agent names it, iPad exactly when it names iPad but not iPhone, and iPod exactly when it names iPod and neither of the others |
| DeviceFingerprint.OrElse | utils/deviceFingerprint.ts:57-60 | `v \|\| fallback` is the fallback or a non-empty given value |
| DeviceFingerprint.DecimalRoundTrip | utils/deviceFingerprint.ts:54 | a screen dimension printed in decimal reads back as the same number |
| DeviceFingerprint.FingerprintFields | utils/deviceFingerprint.ts:15-70 | the fingerprint echoes the user-agent, or `''` when it is absent, and its platform is that user-agent's class; Web has `Unknown` version and model; an iOS model is one of the three Apple names, iPhone exactly when the user-agent contains it, and iPad exactly when it contains iPad but not iPhone; an Android user-agent with no model match has model `Unknown`; time zone and language are never empty |
| DeviceFingerprint.ResolutionReadBack | utils/deviceFingerprint.ts:54 | the resolution splits at `x` into width and height |
| DeviceFingerprint.AppleNameWins | utils/deviceFingerprint.ts:20-45 | a user-agent containing iPhone, iPad or iPod is iOS, even when it also names Android, and its model is that name or one checked before it (iPhone before iPad before iPod) |
| DeviceFingerprint.MobileAgreesWithDetect | utils/deviceFingerprint.ts:76-79 | `isMobileDevice` holds exactly when the deep-link `detectPlatform` is not desktop |
| DeviceFingerprint.ClassifiedIsMobile | utils/deviceFingerprint.ts:19-24 | a user-agent the fingerprint calls iOS or Android is mobile, and an iOS one is ios for the deep-link module too |
| DeviceFingerprint.LoweredUserAgent | utils/deviceFingerprint.ts:20-22 | a lower-cased user-agent is always Web for the fingerprint, while `isMobileDevice` gives the same answer as for the original |
| DeviceFingerprint.StoreUrlsAgainstConfig | utils/deviceFingerprint.ts:84-92 | Android gives the configured default Play URL and Web the default app URL; the iOS URL differs from the configured default iOS store URL and from the other two |
| WhatwgUrl.Get | utils/affiliate.ts:17-19 | `searchParams.get` is absent exactly when no pair has the name, and otherwise the first such pair's value |
| WhatwgUrl.SetPair | utils/deeplink.ts:32 | after `searchParams.set` the name occurs once with the new value, other names are unchanged, and a new name is appended |
| WhatwgUrl.ParseHref | utils/deeplink.ts:27 | `new URL` succeeds exactly when the trimmed input starts with a scheme; the prefix holds no `?` or `#` |
| WhatwgUrl.ReparseHref | utils/deeplink.ts:37 | parsing `toString()` of a parsed URL gives the same URL |
| WhatwgUrl.ParseHrefOf | utils/deeplink.ts:27-37 | a well-formed URL record parses back from its href |
| WhatwgUrl.ParseWithQuery | utils/affiliate.ts:16-19 | a plain base URL followed by `?` and a serialized list parses with exactly that list as its query |
| WhatwgUrl.Url.SetParam | utils/deeplink.ts:32 | `url.searchParams.set` replaces the list by its set result and rewrites the query; the prefix and fragment are unchanged |
| WhatwgUrl.SearchParams.Append | utils/affiliate.ts:55-62 | `params.append` adds the pair at the end |
| FormUrlencoded.ParseSerialize | utils/deeplink.ts:32-37 | parsing the serialization of a list of pairs gives the list back |
| FormUrlencoded.SerializeEmpty | utils/affiliate.ts:66 | the serialization is empty exactly for the empty list |
| FormUrlencoded.SerializeUnreservedPair | utils/affiliate.ts:55-66 | a pair of unreserved texts serializes as `name=value` |
| FormUrlencoded.DecodeEncodeComponent | utils/deeplink.ts:32-37 | percent-decoding undoes the encoding of a name or value |
| Utf8.DecodeEncode | utils/deeplink.ts:32-37 | decoding the UTF-8 encoding of a string gives the string back |
| JsString.JoinSplit | utils/deeplink.ts:115 | joining the parts of `split(sep)` with `sep` gives the string back |
| JsString.SplitJoin | utils/deviceFingerprint.ts:31 | splitting a join of parts that do not contain the separator gives the parts back |
| JsString.AsciiLowerIdempotent | utils/deeplink.ts:43 | lowering twice is lowering once |
| JsString.Trim | utils/deviceFingerprint.ts:49 | the result is a contiguous part of the text; everything dropped before and after it is white space; it neither starts nor ends with white space; it is empty exactly when the text is all white space; a text already trimmed is unchanged |

## Findings

| source | as written | input that shows it | evidently intended | confidence | as-written member | corrected member |
|---|---|---|---|---|---|---|
| components/RedirectHandler.tsx:44-47 | the handler calls `searchParams.forEach`, but pages/trip/[id].tsx:13-40, pages/itinerary/[id].tsx:14-45 (and the journal, packing, profile and template pages) pass a plain object, which is truthy and has no `forEach`; the TypeError is caught and the page shows 'Failed to open app' | pathname `/trip/abc` with the plain object `{}` from the trip page | the object's entries override the parsed parameters, and the app opens | high; not executed | Deeplink.PlainObjectPageFails | Deeplink.IntendedPagesOpen |

## Left out

- `attemptAppOpen` (utils/deeplink.ts:59-111) and `openAppWithFallback` (utils/affiliate.ts:119-163): they depend on timers, iframes, page visibility and navigation, which the model does not have.
- `trackAffiliateClick` (utils/affiliate.ts:168-188): analytics calls and console output only.
- Console output in `parseAffiliateUrl` and `validateConfig`, and the configuration log at load time: no effect on results.
- `affiliate.ts`'s `detectPlatform` has the same body as `deeplink.ts`'s; both are modelled once, by `Deeplink.DetectPlatform`.
- `getAppStoreUrl`'s TypeScript parameter type excludes `desktop`; the model accepts all three platforms and treats every non-ios one like android, as the body does.
- The browser reads are inputs: `navigator.userAgent`, `window.screen`, the `Intl` time zone and `navigator.language(s)`.
- WhatwgUrl.ParseHref: hosts, ports and paths are not validated (so `new URL` can reject an href this accepts, such as `tripwiser://a b` or `tripwiser://a:x`; the claims that a link never throws are therefore stated only for paths that open with a valid host name), special schemes get no special handling, and the href keeps its prefix, its query (when no `set` rewrites it) and its fragment as written, where the serializer percent-encodes characters such as space, `"`, `<`, `>` (and, in the fragment, a backtick). Reading the query back as pairs is unaffected, since decoding undoes that encoding.
- Deeplink.NothingSetKeepsHref: states the href with the path's own query and fragment as written; the source's `toString()` would percent-encode them (`trip/x?a b` gives `tripwiser://trip/x?a%20b`), which the model does not do.
- `Object.entries` lists integer-like keys first, in numeric order; the model keeps insertion order, which differs only for such keys.
- `toLowerCase` and the `/i` flag fold only ASCII letters; the characters searched for are ASCII, so this does not change any answer the core gives.
- DeviceFingerprint.Resolution: prints the width and height as non-negative integers; fractional or negative screen sizes are not modelled.
- Utf8.Encode: a Dafny `char` is a Unicode scalar value, so lone surrogates, which `URLSearchParams` replaces by U+FFFD, do not occur.
- `RedirectHandler.tsx`: only the pipeline at lines 27-51 is modelled; the page's state, effects and rendering are not.
