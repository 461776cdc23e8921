/**
 * api/options: the proxy's settings as `OptionsServiceImpl` hands them out. The options file is
 * read and parsed elsewhere; its outcome is an input here, and what is modelled is the defaulting
 * of missing or out-of-range settings and the cache in front of it.
 */
module Configuration {
  import opened Wrappers
  import opened General
  import opened Schemes

  /** One route of the options file (`RouteOption`). A missing scheme is `None`. */
  datatype RouteOption = RouteOption(
    host: string,
    subdomains: seq<string>,
    destinationHost: string,
    destinationPort: Int32,
    certificateAlias: Option<string>,
    scheme: Option<Scheme>)

  /** The settings `OptionsServiceImpl` reads and writes; a setting missing from the file is `None`. */
  datatype Options = Options(
    httpPort: Option<Int32>,
    httpsPort: Option<Int32>,
    startHttps: bool,
    defaultCertificateAlias: Option<string>,
    routeOptions: Option<seq<RouteOption>>,
    threadPoolSize: Option<Int32>,
    minThreadPoolSize: Option<Int32>,
    killConnectionAfterSeconds: Option<Int32>,
    keystoreFileName: Option<string>,
    keystoreFileDir: Option<string>,
    clientSoTimeoutMillis: Option<Int32>)

  /** `Options.empty()`: no settings but an empty route list. */
  function Empty(): Options
  {
    Options(None, None, false, None, Some([]), None, None, None, None, None, None)
  }

  /** The host names a route serves: its host, then `subdomain + "." + host` for each subdomain, in order. */
  function KeysOf(r: RouteOption): (keys: seq<string>)
    ensures |keys| == |r.subdomains| + 1 && keys[0] == r.host
    ensures forall j :: 0 <= j < |r.subdomains| ==> keys[j + 1] == r.subdomains[j] + "." + r.host
  {
    [r.host] + seq(|r.subdomains|, j requires 0 <= j < |r.subdomains| => r.subdomains[j] + "." + r.host)
  }

  /** No element of `s` occurs twice. */
  predicate Distinct<T(==)>(s: seq<T>)
  {
    forall i, j :: 0 <= i < j < |s| ==> s[i] != s[j]
  }

  /** The same host after two subdomains gives the same key only for the same subdomain. */
  lemma SubdomainKeyInjective(a: string, b: string, host: string)
    ensures a + "." + host == b + "." + host <==> a == b
  {
    if a + "." + host == b + "." + host {
      assert |a| == |b|;
      assert a == (a + "." + host)[..|a|];
      assert b == (b + "." + host)[..|b|];
    }
  }

  /**
   * A route serves no host name twice exactly when it lists no subdomain twice: the host itself
   * is shorter than every `subdomain + "." + host`.
   */
  lemma KeysDistinct(r: RouteOption)
    ensures Distinct(KeysOf(r)) <==> Distinct(r.subdomains)
  {
    var keys := KeysOf(r);
    var subs := r.subdomains;
    if Distinct(subs) {
      forall i, j | 0 <= i < j < |keys| ensures keys[i] != keys[j] {
        if i == 0 {
          assert |keys[j]| > |r.host|;
        } else {
          SubdomainKeyInjective(subs[i - 1], subs[j - 1], r.host);
        }
      }
    }
    if Distinct(keys) {
      forall i, j | 0 <= i < j < |subs| ensures subs[i] != subs[j] {
        assert keys[i + 1] != keys[j + 1];
      }
    }
  }

  /** Options as `readFromFile` leaves them: every setting present, the timeout positive, every route with a scheme. */
  ghost predicate IsNormal(o: Options)
  {
    && o.httpPort.Some? && o.httpsPort.Some? && o.routeOptions.Some?
    && o.threadPoolSize.Some? && o.minThreadPoolSize.Some?
    && o.killConnectionAfterSeconds.Some? && o.killConnectionAfterSeconds.value >= 1
    && o.keystoreFileName.Some? && o.keystoreFileDir.Some? && o.clientSoTimeoutMillis.Some?
    && Schemed(o.routeOptions.value)
  }

  /** Every route has a scheme. */
  predicate Schemed(routes: seq<RouteOption>)
  {
    forall i :: 0 <= i < |routes| ==> routes[i].scheme.Some?
  }

  function OrElse<T>(x: Option<T>, default: T): (r: T)
    ensures x.Some? ==> r == x.value
    ensures x.None? ==> r == default
  {
    if x.Some? then x.value else default
  }

  /** A route without a scheme gets `ALL`; one with a scheme is left as it is. */
  function WithScheme(r: RouteOption): (s: RouteOption)
    ensures s.scheme.Some? && (r.scheme.Some? ==> s == r)
    ensures s.scheme == Some(OrElse(r.scheme, ALL)) && s.(scheme := r.scheme) == r
  {
    if r.scheme.None? then r.(scheme := Some(ALL)) else r
  }

  /**
   * What `readFromFile` does to parsed options (OptionsServiceImpl.java:61-114), given the
   * working directory that stands in for a missing keystore directory.
   */
  function Normalised(o: Options, workingDirectory: string): (r: Options)
    ensures IsNormal(r)
    ensures r.startHttps == o.startHttps && r.defaultCertificateAlias == o.defaultCertificateAlias
    ensures r.httpPort == Some(OrElse(o.httpPort, DEFAULT_HTTP_PORT))
    ensures r.httpsPort == Some(OrElse(o.httpsPort, DEFAULT_HTTPS_PORT))
    ensures r.threadPoolSize == Some(OrElse(o.threadPoolSize, DEFAULT_THREAD_POOL_SIZE))
    ensures r.minThreadPoolSize == Some(OrElse(o.minThreadPoolSize, MIN_THREAD_POOL_SIZE))
    ensures o.killConnectionAfterSeconds.Some? && o.killConnectionAfterSeconds.value >= 1 ==>
              r.killConnectionAfterSeconds == o.killConnectionAfterSeconds
    ensures o.killConnectionAfterSeconds.None? || o.killConnectionAfterSeconds.value < 1 ==>
              r.killConnectionAfterSeconds == Some(DEFAULT_CONNECTION_TIMEOUT_SECONDS)
    ensures r.keystoreFileName == Some(OrElse(o.keystoreFileName, DEFAULT_KEYSTORE_FILE_NAME))
    ensures r.keystoreFileDir == Some(OrElse(o.keystoreFileDir, workingDirectory))
    ensures r.clientSoTimeoutMillis == Some(OrElse(o.clientSoTimeoutMillis, DEFAULT_CLIENT_SO_TIMEOUT_MILLIS))
    ensures o.routeOptions.None? ==> r.routeOptions == Some([])
    ensures o.routeOptions.Some? ==>
              && |r.routeOptions.value| == |o.routeOptions.value|
              && forall i :: 0 <= i < |o.routeOptions.value| ==> r.routeOptions.value[i] == WithScheme(o.routeOptions.value[i])
  {
    var routes := if o.routeOptions.None? then [] else o.routeOptions.value;
    Options(
      Some(OrElse(o.httpPort, DEFAULT_HTTP_PORT)),
      Some(OrElse(o.httpsPort, DEFAULT_HTTPS_PORT)),
      o.startHttps,
      o.defaultCertificateAlias,
      Some(seq(|routes|, i requires 0 <= i < |routes| => WithScheme(routes[i]))),
      Some(OrElse(o.threadPoolSize, DEFAULT_THREAD_POOL_SIZE)),
      Some(OrElse(o.minThreadPoolSize, MIN_THREAD_POOL_SIZE)),
      Some(if o.killConnectionAfterSeconds.None? || o.killConnectionAfterSeconds.value < 1
           then DEFAULT_CONNECTION_TIMEOUT_SECONDS else o.killConnectionAfterSeconds.value),
      Some(OrElse(o.keystoreFileName, DEFAULT_KEYSTORE_FILE_NAME)),
      Some(OrElse(o.keystoreFileDir, workingDirectory)),
      Some(OrElse(o.clientSoTimeoutMillis, DEFAULT_CLIENT_SO_TIMEOUT_MILLIS)))
  }

  /** Settings that are already valid are kept: normal options come back unchanged. */
  lemma NormalIsFixed(o: Options, workingDirectory: string)
    requires IsNormal(o)
    ensures Normalised(o, workingDirectory) == o
  {
    var r := Normalised(o, workingDirectory);
    assert r.routeOptions.value == o.routeOptions.value;
  }

  /** Normalising twice is normalising once. */
  lemma NormaliseIdempotent(o: Options, workingDirectory: string, again: string)
    ensures Normalised(Normalised(o, workingDirectory), again) == Normalised(o, workingDirectory)
  {
    NormalIsFixed(Normalised(o, workingDirectory), again);
  }

  /**
   * `readFromFile(filePath)` from the point where the file was read: `parsed` is what Jackson
   * produced, `None` when the file could not be read or parsed (then `Options.empty()` is used).
   * The settings are filled in one after the other and then the routes' schemes, in place.
   */
  method ReadFromFile(parsed: Option<Options>, workingDirectory: string) returns (options: Options)
    ensures options == Normalised(if parsed.Some? then parsed.value else Empty(), workingDirectory)
  {
    options := if parsed.Some? then parsed.value else Empty();
    ghost var given := options;
    var httpPort := WithDefault(options.httpPort, DEFAULT_HTTP_PORT);
    options := options.(httpPort := httpPort);
    var httpsPort := WithDefault(options.httpsPort, DEFAULT_HTTPS_PORT);
    options := options.(httpsPort := httpsPort);
    if options.routeOptions.None? || options.routeOptions.value == [] {
      options := options.(routeOptions := Some([]));
    }
    var threadPoolSize := WithDefault(options.threadPoolSize, DEFAULT_THREAD_POOL_SIZE);
    options := options.(threadPoolSize := threadPoolSize);
    var minThreadPoolSize := WithDefault(options.minThreadPoolSize, MIN_THREAD_POOL_SIZE);
    options := options.(minThreadPoolSize := minThreadPoolSize);
    var kill := options.killConnectionAfterSeconds;
    if kill.None? || kill.value < 1 {
      kill := Some(DEFAULT_CONNECTION_TIMEOUT_SECONDS);
    }
    options := options.(killConnectionAfterSeconds := kill);
    var keystoreFileName := WithDefault(options.keystoreFileName, DEFAULT_KEYSTORE_FILE_NAME);
    options := options.(keystoreFileName := keystoreFileName);
    var keystoreFileDir := WithDefault(options.keystoreFileDir, workingDirectory);
    options := options.(keystoreFileDir := keystoreFileDir);
    var clientSoTimeoutMillis := WithDefault(options.clientSoTimeoutMillis, DEFAULT_CLIENT_SO_TIMEOUT_MILLIS);
    options := options.(clientSoTimeoutMillis := clientSoTimeoutMillis);
    var routes := DefaultSchemes(options.routeOptions.value);
    options := options.(routeOptions := Some(routes));
    assert routes == Normalised(given, workingDirectory).routeOptions.value;
  }

  /** One `if (options.getX() == null) options.setX(default)` of `readFromFile`. */
  method WithDefault<T>(setting: Option<T>, default: T) returns (r: Option<T>)
    ensures r == Some(OrElse(setting, default))
  {
    r := setting;
    if r.None? {
      r := Some(default);
    }
  }

  /** OptionsServiceImpl.java:110-114: each route without a scheme gets `ALL`, in place. */
  method DefaultSchemes(given: seq<RouteOption>) returns (routes: seq<RouteOption>)
    ensures |routes| == |given| && forall k :: 0 <= k < |given| ==> routes[k] == WithScheme(given[k])
  {
    routes := given;
    var i := 0;
    while i < |routes|
      invariant 0 <= i <= |routes| == |given|
      invariant forall k :: 0 <= k < i ==> routes[k] == WithScheme(given[k])
      invariant forall k :: i <= k < |routes| ==> routes[k] == given[k]
    {
      if routes[i].scheme.None? {
        routes := routes[i := routes[i].(scheme := Some(ALL))];
      }
      i := i + 1;
    }
  }

  /** `OptionsServiceImpl`: the options are read once and then served from `optionsCache`. */
  class OptionsService {
    var optionsCache: Option<Options>

    constructor ()
      ensures optionsCache == None
    {
      optionsCache := None;
    }

    /**
     * `getOptions()`: the cached options on every call after the first; the first call
     * normalises what the options file gave (`parsed`) and caches it.
     */
    method GetOptions(parsed: Option<Options>, workingDirectory: string) returns (options: Options)
      modifies this
      ensures old(optionsCache).Some? ==> options == old(optionsCache).value && optionsCache == old(optionsCache)
      ensures old(optionsCache).None? ==>
                options == Normalised(if parsed.Some? then parsed.value else Empty(), workingDirectory)
                && optionsCache == Some(options)
      ensures IsNormal(options) || old(optionsCache).Some?
    {
      if optionsCache.Some? {
        return optionsCache.value;
      }
      options := ReadFromFile(parsed, workingDirectory);
      optionsCache := Some(options);
    }
  }
}
