/**
  The deployment configuration: every `ENV_CONFIG` field comes from a
  `NEXT_PUBLIC_...` environment variable or, when that is unset or empty,
  from a built-in default; `validateConfig` reports the required keys whose
  value is falsy.
*/
module Environment {
  import opened Optional

  /** `process.env`: the variables that are set, with their values. */
  type Env = map<string, string>

  /** `process.env[name]`, with `None` for undefined. */
  function Lookup(env: Env, name: string): Option<string> {
    if name in env then Some(env[name]) else None
  }

  /** `process.env[name] || fallback`: the empty string is falsy too. */
  function OrDefault(env: Env, name: string, fallback: string): string {
    if name in env && env[name] != "" then env[name] else fallback
  }

  /** The keys of `ENV_CONFIG` (`keyof typeof ENV_CONFIG`). */
  datatype Key =
    | APP_URL | BACKEND_URL | ANDROID_STORE_URL | IOS_STORE_URL | ANDROID_PACKAGE | IOS_BUNDLE_ID | URL_SCHEME
    | GA_TRACKING_ID | FACEBOOK_PIXEL_ID | NODE_ENV | IS_PRODUCTION | IS_DEVELOPMENT

  /** A key as the string `validateConfig` prints. */
  function KeyName(key: Key): string {
    match key
    case APP_URL => "APP_URL"
    case BACKEND_URL => "BACKEND_URL"
    case ANDROID_STORE_URL => "ANDROID_STORE_URL"
    case IOS_STORE_URL => "IOS_STORE_URL"
    case ANDROID_PACKAGE => "ANDROID_PACKAGE"
    case IOS_BUNDLE_ID => "IOS_BUNDLE_ID"
    case URL_SCHEME => "URL_SCHEME"
    case GA_TRACKING_ID => "GA_TRACKING_ID"
    case FACEBOOK_PIXEL_ID => "FACEBOOK_PIXEL_ID"
    case NODE_ENV => "NODE_ENV"
    case IS_PRODUCTION => "IS_PRODUCTION"
    case IS_DEVELOPMENT => "IS_DEVELOPMENT"
  }

  /** The variable behind a key, as `validateConfig` names it. */
  function EnvName(key: Key): string {
    "NEXT_PUBLIC_" + KeyName(key)
  }

  /** `ENV_CONFIG`. */
  datatype Config = Config(
    appUrl: string,
    backendUrl: string,
    androidStoreUrl: string,
    iosStoreUrl: string,
    androidPackage: string,
    iosBundleId: string,
    urlScheme: string,
    gaTrackingId: Option<string>,
    facebookPixelId: Option<string>,
    nodeEnv: string,
    isProduction: bool,
    isDevelopment: bool)

  /** The keys that `ENV_CONFIG` gives a default. */
  predicate HasDefault(key: Key) {
    key.APP_URL? || key.BACKEND_URL? || key.ANDROID_STORE_URL? || key.IOS_STORE_URL?
    || key.ANDROID_PACKAGE? || key.IOS_BUNDLE_ID? || key.URL_SCHEME?
  }

  /** The default of a key (the empty string for a key without one). */
  function Default(key: Key): string {
    match key
    case APP_URL => "https://tripwiser-web-lmgo.vercel.app/"
    case BACKEND_URL => "https://tripwiser-backend.onrender.com"
    case ANDROID_STORE_URL => "https://play.google.com/store/apps/details?id=com.tripwiser.android.app"
    case IOS_STORE_URL => "https://apps.apple.com/app/tripwiser/MT98B5253F"
    case ANDROID_PACKAGE => "com.tripwiser.android.app"
    case IOS_BUNDLE_ID => "com.tripwiser.app"
    case URL_SCHEME => "tripwiser://"
    case _ => ""
  }

  /** `process.env.NEXT_PUBLIC_<key> || <default>` for a key with a default. */
  function Setting(env: Env, key: Key): string {
    OrDefault(env, EnvName(key), Default(key))
  }

  /** `ENV_CONFIG` as evaluated against the environment `env`. */
  function LoadConfig(env: Env): Config {
    Config(
      Setting(env, APP_URL),
      Setting(env, BACKEND_URL),
      Setting(env, ANDROID_STORE_URL),
      Setting(env, IOS_STORE_URL),
      Setting(env, ANDROID_PACKAGE),
      Setting(env, IOS_BUNDLE_ID),
      Setting(env, URL_SCHEME),
      Lookup(env, EnvName(GA_TRACKING_ID)),
      Lookup(env, EnvName(FACEBOOK_PIXEL_ID)),
      OrDefault(env, "NODE_ENV", "development"),
      Lookup(env, "NODE_ENV") == Some("production"),
      Lookup(env, "NODE_ENV") == Some("development"))
  }

  /** A value read out of `ENV_CONFIG` by key. */
  datatype Value = Text(text: string) | Undefined | Flag(flag: bool)

  /** JavaScript falsiness of such a value. */
  predicate Falsy(v: Value) {
    v == Text("") || v.Undefined? || v == Flag(false)
  }

  /** `ENV_CONFIG[key]`. */
  function Field(c: Config, key: Key): Value {
    match key
    case APP_URL => Text(c.appUrl)
    case BACKEND_URL => Text(c.backendUrl)
    case ANDROID_STORE_URL => Text(c.androidStoreUrl)
    case IOS_STORE_URL => Text(c.iosStoreUrl)
    case ANDROID_PACKAGE => Text(c.androidPackage)
    case IOS_BUNDLE_ID => Text(c.iosBundleId)
    case URL_SCHEME => Text(c.urlScheme)
    case GA_TRACKING_ID => if c.gaTrackingId.Some? then Text(c.gaTrackingId.value) else Undefined
    case FACEBOOK_PIXEL_ID => if c.facebookPixelId.Some? then Text(c.facebookPixelId.value) else Undefined
    case NODE_ENV => Text(c.nodeEnv)
    case IS_PRODUCTION => Flag(c.isProduction)
    case IS_DEVELOPMENT => Flag(c.isDevelopment)
  }

  /** The keys `validateConfig` insists on, in its order. */
  const Required: seq<Key> :=
    [APP_URL, ANDROID_STORE_URL, IOS_STORE_URL, ANDROID_PACKAGE, IOS_BUNDLE_ID, URL_SCHEME]

  /** `a` is `b` with some elements left out, the rest in the same order. */
  predicate IsSubsequence<T(==)>(a: seq<T>, b: seq<T>) {
    if a == [] then true
    else if b == [] then false
    else (a[0] == b[0] && IsSubsequence(a[1..], b[1..])) || IsSubsequence(a, b[1..])
  }

  /**
    `keys.filter(key => !ENV_CONFIG[key])`: exactly the keys whose value is
    falsy, each where `keys` has it.
  */
  function MissingAmong(c: Config, keys: seq<Key>): (missing: seq<Key>)
    ensures forall k :: k in missing <==> k in keys && Falsy(Field(c, k))
    ensures IsSubsequence(missing, keys)
  {
    if keys == [] then []
    else
      var rest := MissingAmong(c, keys[1..]);
      if Falsy(Field(c, keys[0])) then [keys[0]] + rest else rest
  }

  /** The list `validateConfig` warns about. */
  function Missing(c: Config): seq<Key> {
    MissingAmong(c, Required)
  }

  /** `validateConfig()`: true exactly when no required key has a falsy value. */
  function ValidateConfig(c: Config): (ok: bool)
    ensures ok <==> forall k :: k in Required ==> !Falsy(Field(c, k))
  {
    var m := Missing(c);
    assert |m| > 0 ==> m[0] in m;
    |m| == 0
  }

  /**
    Every key with a default takes `NEXT_PUBLIC_<key>` when that is set and
    non-empty, and its default when it is unset or empty; either way the
    field is never the empty string.
  */
  lemma FieldFromEnv(env: Env, key: Key)
    requires HasDefault(key)
    ensures EnvName(key) in env && env[EnvName(key)] != "" ==> Field(LoadConfig(env), key) == Text(env[EnvName(key)])
    ensures EnvName(key) !in env || env[EnvName(key)] == "" ==> Field(LoadConfig(env), key) == Text(Default(key))
    ensures Field(LoadConfig(env), key) != Text("")
  {
    FieldIsSetting(env, key);
    DefaultsNonEmpty(key);
  }

  /** The field of a key with a default is that key's `||` expression. */
  lemma FieldIsSetting(env: Env, key: Key)
    requires HasDefault(key)
    ensures Field(LoadConfig(env), key) == Text(Setting(env, key))
  {
  }

  /** Every default is a non-empty string. */
  lemma DefaultsNonEmpty(key: Key)
    requires HasDefault(key)
    ensures Default(key) != ""
  {
    assert |Default(key)| > 0;
  }

  /** The optional analytics keys are never reported missing. */
  lemma OptionalKeysNeverMissing(c: Config)
    ensures GA_TRACKING_ID !in Missing(c) && FACEBOOK_PIXEL_ID !in Missing(c)
  {
  }

  /** With the defaults in place nothing required can be missing, whatever the environment. */
  lemma LoadedConfigValidates(env: Env)
    ensures ValidateConfig(LoadConfig(env))
    ensures Missing(LoadConfig(env)) == []
  {
    var c := LoadConfig(env);
    forall k | k in Required ensures !Falsy(Field(c, k)) {
      FieldFromEnv(env, k);
      DefaultsNonEmpty(k);
    }
  }

  /**
    `NODE_ENV` falls back to `development` but the two flags read the raw
    variable: unset, it is `development` with `IS_DEVELOPMENT` false; the
    two flags never hold together.
  */
  lemma NodeEnvFlags(env: Env)
    ensures !(LoadConfig(env).isProduction && LoadConfig(env).isDevelopment)
    ensures "NODE_ENV" !in env ==> LoadConfig(env).nodeEnv == "development" && !LoadConfig(env).isDevelopment
    ensures LoadConfig(env).isDevelopment ==> LoadConfig(env).nodeEnv == "development"
    ensures LoadConfig(env).isProduction ==> LoadConfig(env).nodeEnv == "production"
  {
  }
}
