/**
 * The service configuration read from the process environment, with a
 * default for every setting left unset or empty.
 */
module Config {
  import opened Wrappers
  import opened JsNumber

  /** The process environment: a variable is either unset or holds a string. */
  type Env = map<string, string>

  /** `maybeStr`: a missing or empty value becomes `undefined`; any other value is kept as it is. */
  function MaybeStr(val: Option<string>): (r: Option<string>)
    ensures r.None? <==> val.None? || val.value == ""
    ensures r.Some? ==> r == val
  {
    match val
    case None => None
    case Some(s) => if s == "" then None else val
  }

  /**
   * `maybeInt`: a missing or empty value, or one `parseInt(val, 10)` reads as
   * NaN, becomes `undefined`; otherwise the integer `parseInt` reads.
   */
  function MaybeInt(val: Option<string>): (r: Option<int>)
    ensures val.None? || val.value == "" ==> r.None?
    ensures val.Some? && val.value != "" ==> r == ParseInt(val.value)
  {
    match val
    case None => None
    case Some(s) => if s == "" then None else ParseInt(s)
  }

  datatype RedisConfig = RedisConfig(host: string, port: int)

  datatype ServiceConfig = ServiceConfig(
    port: int,
    listenhost: string,
    hostname: string,
    sqliteLocation: string,
    subscriptionEndpoint: string,
    serviceDid: string,
    publisherDid: string,
    subscriptionReconnectDelay: int,
    redis: RedisConfig
  )

  const DefaultHostname: string := "example.com"
  const DefaultPort: int := 3000
  const DefaultReconnectDelay: int := 3000
  const DefaultRedisPort: int := 6379

  /** A string setting: the variable's value when set and non-empty, else the default. */
  function StrSetting(env: Env, name: string, default: string): (v: string)
    ensures name in env && env[name] != "" ==> v == env[name]
    ensures name !in env || env[name] == "" ==> v == default
  {
    MaybeStr(Get(env, name)).OrElse(default)
  }

  /** A numeric setting: the integer `maybeInt` reads, else the default. */
  function IntSetting(env: Env, name: string, default: int): (v: int)
    ensures MaybeInt(Get(env, name)).None? ==> v == default
    ensures MaybeInt(Get(env, name)).Some? ==> v == MaybeInt(Get(env, name)).value
  {
    MaybeInt(Get(env, name)).OrElse(default)
  }

  /** The `config` object built from the environment. */
  function LoadConfig(env: Env): (c: ServiceConfig)
    ensures c.listenhost == StrSetting(env, "FEEDGEN_LISTENHOST", "localhost")
    ensures c.hostname == StrSetting(env, "FEEDGEN_HOSTNAME", DefaultHostname)
    ensures c.sqliteLocation == StrSetting(env, "FEEDGEN_SQLITE_LOCATION", ":memory:")
    ensures c.subscriptionEndpoint == StrSetting(env, "FEEDGEN_SUBSCRIPTION_ENDPOINT", "wss://bsky.network")
    ensures c.serviceDid == StrSetting(env, "FEEDGEN_SERVICE_DID", "did:web:" + c.hostname)
    ensures c.publisherDid == StrSetting(env, "FEEDGEN_PUBLISHER_DID", "did:example:alice")
    ensures c.port == IntSetting(env, "FEEDGEN_PORT", DefaultPort)
    ensures c.subscriptionReconnectDelay == IntSetting(env, "FEEDGEN_SUBSCRIPTION_RECONNECT_DELAY", DefaultReconnectDelay)
    ensures c.redis.host == StrSetting(env, "FEEDGEN_REDIS_HOST", "localhost")
    ensures c.redis.port == IntSetting(env, "FEEDGEN_REDIS_PORT", DefaultRedisPort)
  {
    var hostname := StrSetting(env, "FEEDGEN_HOSTNAME", DefaultHostname);
    var serviceDid := StrSetting(env, "FEEDGEN_SERVICE_DID", "did:web:" + hostname);
    ServiceConfig(
      IntSetting(env, "FEEDGEN_PORT", DefaultPort),
      StrSetting(env, "FEEDGEN_LISTENHOST", "localhost"),
      hostname,
      StrSetting(env, "FEEDGEN_SQLITE_LOCATION", ":memory:"),
      StrSetting(env, "FEEDGEN_SUBSCRIPTION_ENDPOINT", "wss://bsky.network"),
      serviceDid,
      StrSetting(env, "FEEDGEN_PUBLISHER_DID", "did:example:alice"),
      IntSetting(env, "FEEDGEN_SUBSCRIPTION_RECONNECT_DELAY", DefaultReconnectDelay),
      RedisConfig(
        StrSetting(env, "FEEDGEN_REDIS_HOST", "localhost"),
        IntSetting(env, "FEEDGEN_REDIS_PORT", DefaultRedisPort)
      )
    )
  }

  /** A variable set to the empty string configures exactly what an unset one does. */
  lemma EmptyIsUnset(env: Env, name: string)
    ensures LoadConfig(env[name := ""]) == LoadConfig(env - {name})
  {
    forall x, d ensures StrSetting(env[name := ""], x, d) == StrSetting(env - {name}, x, d) {
      SettingAgrees(env, name, x);
    }
    forall x, d ensures IntSetting(env[name := ""], x, d) == IntSetting(env - {name}, x, d) {
      SettingAgrees(env, name, x);
    }
  }

  /** Whether a variable is unset or empty, `maybeStr` and `maybeInt` read it alike. */
  lemma SettingAgrees(env: Env, name: string, x: string)
    ensures MaybeStr(Get(env[name := ""], x)) == MaybeStr(Get(env - {name}, x))
    ensures MaybeInt(Get(env[name := ""], x)) == MaybeInt(Get(env - {name}, x))
  {
  }

  /** With nothing set, every setting takes its default. */
  lemma DefaultsWhenUnset()
    ensures LoadConfig(map[]) == ServiceConfig(
      3000, "localhost", "example.com", ":memory:", "wss://bsky.network",
      "did:web:example.com", "did:example:alice", 3000, RedisConfig("localhost", 6379))
  {
  }

  /**
   * When its own variable is unset or empty, the service DID is `did:web:`
   * followed by the configured host name, whatever else is set.
   */
  lemma ServiceDidFollowsHostname(env: Env)
    requires "FEEDGEN_SERVICE_DID" !in env || env["FEEDGEN_SERVICE_DID"] == ""
    ensures LoadConfig(env).serviceDid == "did:web:" + LoadConfig(env).hostname
  {
  }

  /** The digits `12` have the value twelve. */
  lemma ValueOfTwelve()
    ensures DigitsValue("12") == 12
  {
    assert "12"[..1] == "1";
  }

  /** `parseInt` reads the digits in front of the first non-digit. */
  lemma ParseIntOfDigitsThenLetters()
    ensures ParseInt("12ab") == Some(12)
  {
    ValueOfTwelve();
    assert "12" + "ab" == "12ab";
    ParseIntDigitPrefix("12", "ab");
  }

  /** `parseInt` reads a text that starts with a letter as NaN. */
  lemma ParseIntOfLetters()
    ensures ParseInt("abc") == None
  {
    TrimStartNoop("abc");
  }

  /** `maybeInt` keeps only the leading digits: `"12ab"` configures port 12. */
  lemma PortFromDigitPrefix(env: Env)
    requires "FEEDGEN_PORT" in env && env["FEEDGEN_PORT"] == "12ab"
    ensures LoadConfig(env).port == 12
  {
    ParseIntOfDigitsThenLetters();
  }

  /** `"0"` is a number, not a missing value: port 0, not the default 3000. */
  lemma ZeroIsNotDefault(env: Env)
    requires "FEEDGEN_PORT" in env && env["FEEDGEN_PORT"] == "0"
    ensures LoadConfig(env).port == 0
  {
    ParseIntOfZero();
  }

  /** `parseInt("0", 10)` is the number 0. */
  lemma ParseIntOfZero()
    ensures ParseInt("0") == Some(0)
  {
    assert AllDigits("0") && DigitsValue("0") == 0;
  }

  /** Text with no digit after the optional white space and sign falls back: `"abc"` gives port 3000. */
  lemma NonNumericFallsBack(env: Env)
    requires "FEEDGEN_PORT" in env && env["FEEDGEN_PORT"] == "abc"
    ensures LoadConfig(env).port == DefaultPort
  {
    ParseIntOfLetters();
  }
}
