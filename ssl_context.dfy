/**
 * config/SSLContextBeanConfig.java: the table from host name to certificate alias that `init`
 * builds from the route options, and the alias `MyKeyManager.getCertAlias` picks for the server
 * name a TLS client asks for. The keystore and the JSSE objects around them are not modelled.
 */
module SslContext {
  import opened Wrappers
  import opened Errors
  import opened Schemes
  import opened Configuration

  /** `hostAliasMap`. */
  type AliasMap = map<string, string>

  /** Whether `init` binds a route at all: its scheme accepts TLS. */
  predicate IsTlsRoute(r: RouteOption)
    requires r.scheme.Some?
  {
    IsSslCompatible(r.scheme.value)
  }

  /** `Objects.requireNonNullElse(option.getCertificateAlias(), defaultAlias)`, None when both are missing. */
  function AliasOf(r: RouteOption, defaultAlias: Option<string>): (a: Option<string>)
    ensures r.certificateAlias.Some? ==> a == r.certificateAlias
    ensures r.certificateAlias.None? ==> a == defaultAlias
  {
    if r.certificateAlias.Some? then r.certificateAlias else defaultAlias
  }

  /** `put(key, alias)` for each of `keys`, in order. */
  function PutAliases(m: AliasMap, keys: seq<string>, alias: string): AliasMap
    decreases |keys|
  {
    if keys == [] then m else PutAliases(m, keys[..|keys| - 1], alias)[keys[|keys| - 1] := alias]
  }

  /** How far `init` got: the table it left and whether it threw. */
  datatype Filling = Filling(table: AliasMap, failed: bool)

  /**
   * `init` over `routes` from the table `m`: routes that do not accept TLS are skipped; a TLS route
   * with no alias of its own and no default throws, and nothing after it is bound; any other
   * binds its host names to its alias.
   */
  function Filled(m: AliasMap, routes: seq<RouteOption>, defaultAlias: Option<string>): Filling
    requires Schemed(routes)
    decreases |routes|
  {
    if routes == [] then Filling(m, false)
    else
      var f := Filled(m, routes[..|routes| - 1], defaultAlias);
      var last := routes[|routes| - 1];
      if f.failed || !IsTlsRoute(last) then f
      else if AliasOf(last, defaultAlias).None? then Filling(f.table, true)
      else Filling(PutAliases(f.table, KeysOf(last), AliasOf(last, defaultAlias).value), false)
  }

  /**
   * The reference for a key: the alias of the last TLS route that serves it, found by looking
   * from the end of the route list.
   */
  function LastAlias(routes: seq<RouteOption>, key: string, defaultAlias: Option<string>): Option<string>
    requires Schemed(routes)
    decreases |routes|
  {
    if routes == [] then None
    else
      var later := LastAlias(routes[1..], key, defaultAlias);
      if later.Some? then later
      else if IsTlsRoute(routes[0]) && key in KeysOf(routes[0]) then AliasOf(routes[0], defaultAlias)
      else None
  }

  /** Binding `keys` binds exactly them, all to `alias`. */
  lemma {:induction false} PutAliasesGet(m: AliasMap, keys: seq<string>, alias: string, key: string)
    ensures key in PutAliases(m, keys, alias) <==> key in m || key in keys
    ensures key in keys ==> PutAliases(m, keys, alias)[key] == alias
    ensures key !in keys && key in m ==> PutAliases(m, keys, alias)[key] == m[key]
    decreases |keys|
  {
    if keys != [] {
      var init := keys[..|keys| - 1];
      PutAliasesGet(m, init, alias, key);
      assert keys == init + [keys[|keys| - 1]];
    }
  }

  /** Once `init` threw, later routes change nothing. */
  lemma {:induction false} FailedStays(m: AliasMap, routes: seq<RouteOption>, n: nat, defaultAlias: Option<string>)
    requires Schemed(routes) && n <= |routes| && Filled(m, routes[..n], defaultAlias).failed
    ensures Filled(m, routes, defaultAlias) == Filled(m, routes[..n], defaultAlias)
    decreases |routes|
  {
    if n < |routes| {
      var init := routes[..|routes| - 1];
      assert init[..n] == routes[..n];
      FailedStays(m, init, n, defaultAlias);
    } else {
      assert routes[..n] == routes;
    }
  }

  /**
   * `init` throws exactly when there is no default alias and some TLS route has no alias of its
   * own.
   */
  lemma {:induction false} FailsIff(m: AliasMap, routes: seq<RouteOption>, defaultAlias: Option<string>)
    requires Schemed(routes)
    ensures Filled(m, routes, defaultAlias).failed <==>
              defaultAlias.None? && exists i :: 0 <= i < |routes| && IsTlsRoute(routes[i]) && routes[i].certificateAlias.None?
    decreases |routes|
  {
    if routes != [] {
      var init := routes[..|routes| - 1];
      FailsIff(m, init, defaultAlias);
      if exists i :: 0 <= i < |init| && IsTlsRoute(init[i]) && init[i].certificateAlias.None? {
        var i :| 0 <= i < |init| && IsTlsRoute(init[i]) && init[i].certificateAlias.None?;
        assert routes[i] == init[i];
      }
      if exists i :: 0 <= i < |routes| && IsTlsRoute(routes[i]) && routes[i].certificateAlias.None? {
        var i :| 0 <= i < |routes| && IsTlsRoute(routes[i]) && routes[i].certificateAlias.None?;
        if i < |init| {
          assert init[i] == routes[i];
        }
      }
    }
  }

  /** The reference from the other end: a route added last overrides what came before, when it has an alias. */
  lemma {:induction false} LastAliasSnoc(routes: seq<RouteOption>, r: RouteOption, key: string, defaultAlias: Option<string>)
    requires Schemed(routes) && r.scheme.Some?
    ensures Schemed(routes + [r])
    ensures LastAlias(routes + [r], key, defaultAlias)
            == if IsTlsRoute(r) && key in KeysOf(r) && AliasOf(r, defaultAlias).Some? then AliasOf(r, defaultAlias)
               else LastAlias(routes, key, defaultAlias)
    decreases |routes|
  {
    var s := routes + [r];
    assert forall i :: 0 <= i < |s| ==> s[i] == if i < |routes| then routes[i] else r;
    if routes != [] {
      assert s[1..] == routes[1..] + [r];
      LastAliasSnoc(routes[1..], r, key, defaultAlias);
    } else {
      assert s[1..] == [];
    }
  }

  /**
   * When `init` went through, a key is bound exactly when it was bound before or a TLS route
   * serves it, and then to the alias of the last such route: a later route overwrites an earlier
   * one, and a route's host and subdomain names share its alias.
   */
  lemma {:induction false} FilledGet(m: AliasMap, routes: seq<RouteOption>, key: string, defaultAlias: Option<string>)
    requires Schemed(routes) && !Filled(m, routes, defaultAlias).failed
    ensures var t := Filled(m, routes, defaultAlias).table;
            && (key in t <==> key in m || LastAlias(routes, key, defaultAlias).Some?)
            && (LastAlias(routes, key, defaultAlias).Some? ==> t[key] == LastAlias(routes, key, defaultAlias).value)
            && (LastAlias(routes, key, defaultAlias).None? && key in m ==> t[key] == m[key])
    decreases |routes|
  {
    if routes != [] {
      var init := routes[..|routes| - 1];
      var last := routes[|routes| - 1];
      assert routes == init + [last];
      FilledGet(m, init, key, defaultAlias);
      LastAliasSnoc(init, last, key, defaultAlias);
      if IsTlsRoute(last) {
        PutAliasesGet(Filled(m, init, defaultAlias).table, KeysOf(last), AliasOf(last, defaultAlias).value, key);
      }
    }
  }

  /** Routes over plain HTTP bind nothing: a key only they serve stays as it was. */
  lemma HttpRoutesBindNothing(m: AliasMap, routes: seq<RouteOption>, key: string, defaultAlias: Option<string>)
    requires Schemed(routes) && !Filled(m, routes, defaultAlias).failed
    requires forall i :: 0 <= i < |routes| && key in KeysOf(routes[i]) ==> routes[i].scheme == Some(HTTP)
    ensures key in Filled(m, routes, defaultAlias).table <==> key in m
    ensures key in m ==> Filled(m, routes, defaultAlias).table[key] == m[key]
  {
    NoTlsRouteNoAlias(routes, key, defaultAlias);
    FilledGet(m, routes, key, defaultAlias);
  }

  lemma {:induction false} NoTlsRouteNoAlias(routes: seq<RouteOption>, key: string, defaultAlias: Option<string>)
    requires Schemed(routes)
    requires forall i :: 0 <= i < |routes| && key in KeysOf(routes[i]) ==> !IsTlsRoute(routes[i])
    ensures LastAlias(routes, key, defaultAlias) == None
    decreases |routes|
  {
    if routes != [] {
      assert forall i :: 0 <= i < |routes[1..]| ==> routes[1..][i] == routes[i + 1];
      NoTlsRouteNoAlias(routes[1..], key, defaultAlias);
    }
  }

  class SslContextConfig {
    const options: Options
    var hostAliasMap: AliasMap

    /** The configuration is given the options `OptionsService.getOptions()` returns: normalised ones. */
    ghost predicate Valid()
    {
      IsNormal(options)
    }

    constructor (options: Options)
      requires IsNormal(options)
      ensures Valid() && this.options == options && hostAliasMap == map[]
    {
      this.options := options;
      hostAliasMap := map[];
    }

    /**
     * `init()`: nothing when HTTPS is off; otherwise the TLS routes in order, each binding its
     * host names to its alias, until one has no alias to bind (`IllegalArgumentException`).
     */
    method Init() returns (r: Result<(), Fault>)
      requires Valid()
      modifies this`hostAliasMap
      ensures !options.startHttps ==> r == Ok(()) && hostAliasMap == old(hostAliasMap)
      ensures options.startHttps ==>
                var f := Filled(old(hostAliasMap), options.routeOptions.value, options.defaultCertificateAlias);
                hostAliasMap == f.table && r == (if f.failed then Err(IllegalArgument) else Ok(()))
    {
      if !options.startHttps {
        return Ok(());
      }
      var defaultAlias := options.defaultCertificateAlias;
      var routes := options.routeOptions.value;
      var i := 0;
      while i < |routes|
        invariant i <= |routes|
        invariant Filled(old(hostAliasMap), routes[..i], defaultAlias) == Filling(hostAliasMap, false)
      {
        var option := routes[i];
        assert routes[..i + 1] == routes[..i] + [option];
        assert routes[..i + 1][..i] == routes[..i];
        if !IsSslCompatible(option.scheme.value) {
          i := i + 1;
          continue;
        }
        if option.certificateAlias.None? && defaultAlias.None? {
          FailedStays(old(hostAliasMap), routes, i + 1, defaultAlias);
          return Err(IllegalArgument);
        }
        var certAlias := if option.certificateAlias.Some? then option.certificateAlias.value else defaultAlias.value;
        BindRoute(option, certAlias);
        i := i + 1;
      }
      assert routes[..i] == routes;
      return Ok(());
    }

    /** The binding part of one pass of the loop of `init()`: the host, then each `subdomain.host`. */
    method BindRoute(option: RouteOption, certAlias: string)
      modifies this`hostAliasMap
      ensures hostAliasMap == PutAliases(old(hostAliasMap), KeysOf(option), certAlias)
    {
      ghost var m0 := hostAliasMap;
      ghost var keys := KeysOf(option);
      hostAliasMap := hostAliasMap[option.host := certAlias];
      AliasStep(m0, keys, 0, certAlias, m0, hostAliasMap);
      var j := 0;
      while j < |option.subdomains|
        invariant j <= |option.subdomains|
        invariant hostAliasMap == PutAliases(m0, keys[..j + 1], certAlias)
      {
        ghost var before := hostAliasMap;
        hostAliasMap := hostAliasMap[option.subdomains[j] + "." + option.host := certAlias];
        AliasStep(m0, keys, j + 1, certAlias, before, hostAliasMap);
        j := j + 1;
      }
      assert keys[..j + 1] == keys;
    }
  }

  /** The step of the loops of `init()`: the table so far, with the next key bound. */
  lemma AliasStep(m: AliasMap, keys: seq<string>, n: nat, alias: string, before: AliasMap, after: AliasMap)
    requires n < |keys|
    requires before == PutAliases(m, keys[..n], alias) && after == before[keys[n] := alias]
    ensures after == PutAliases(m, keys[..n + 1], alias)
  {
    assert keys[..n + 1][..n] == keys[..n];
  }

  /** `StandardConstants.SNI_HOST_NAME`. */
  const SNI_HOST_NAME: int := 0

  /** An `SNIServerName` of the handshake: its type and, for a host name, its ASCII name. */
  datatype ServerName = ServerName(nameType: int, asciiName: string)

  /** The first requested name of type `SNI_HOST_NAME`. */
  function FirstHostName(names: seq<ServerName>): (h: Option<string>)
    ensures h.None? <==> forall i :: 0 <= i < |names| ==> names[i].nameType != SNI_HOST_NAME
    ensures h.Some? ==>
              exists i :: 0 <= i < |names| && names[i].nameType == SNI_HOST_NAME && names[i].asciiName == h.value
                          && forall j :: 0 <= j < i ==> names[j].nameType != SNI_HOST_NAME
  {
    if names == [] then None
    else if names[0].nameType == SNI_HOST_NAME then Some(names[0].asciiName)
    else
      assert forall i :: 0 < i < |names| ==> names[i] == names[1..][i - 1];
      FirstHostName(names[1..])
  }

  /** `MyKeyManager`: the table built by `init` and the default alias, both fixed. */
  class KeyManager {
    const hostAliasMap: AliasMap
    const defaultAlias: Option<string>

    constructor (hostAliasMap: AliasMap, defaultAlias: Option<string>)
      ensures this.hostAliasMap == hostAliasMap && this.defaultAlias == defaultAlias
    {
      this.hostAliasMap := hostAliasMap;
      this.defaultAlias := defaultAlias;
    }

    /**
     * `getCertAlias(session)` for a session requesting `names`: the first host name must be
     * there; a bound host gets its alias, any other host the default alias when there is one.
     */
    method GetCertAlias(names: seq<ServerName>) returns (r: Result<string, Fault>)
      ensures FirstHostName(names).None? ==> r == Err(IllegalState)
      ensures FirstHostName(names).Some? && FirstHostName(names).value in hostAliasMap ==>
                r == Ok(hostAliasMap[FirstHostName(names).value])
      ensures FirstHostName(names).Some? && FirstHostName(names).value !in hostAliasMap ==>
                r == if defaultAlias.Some? then Ok(defaultAlias.value) else Err(IllegalState)
    {
      var hostName: Option<string> := None;
      var i := 0;
      while i < |names|
        invariant i <= |names|
        invariant hostName.None? ==> FirstHostName(names) == FirstHostName(names[i..])
        invariant hostName.Some? ==> hostName == FirstHostName(names)
      {
        assert names[i..][0] == names[i] && names[i..][1..] == names[i + 1..];
        if names[i].nameType == SNI_HOST_NAME {
          hostName := Some(names[i].asciiName);
          break;
        }
        i := i + 1;
      }
      if hostName.None? {
        assert names[i..] == [];
        return Err(IllegalState);
      }
      if hostName.value !in hostAliasMap {
        if defaultAlias.None? {
          return Err(IllegalState);
        }
        return Ok(defaultAlias.value);
      }
      return Ok(hostAliasMap[hostName.value]);
    }
  }
}
