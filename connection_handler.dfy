/**
 * api/connection/ConnectionHandlerImpl.java: the routing table built from the route options, the
 * choice of a destination for a client connection, the decision flow of `process`, and the two
 * transfer tasks it submits. The thread pool is a sequence of submitted tasks; running a task is
 * a method of its own.
 */
module ConnectionHandling {
  import opened Wrappers
  import opened Errors
  import opened General
  import opened Schemes
  import opened Sockets
  import opened HttpHeaders
  import opened Connections
  import opened Exchanges
  import opened HttpRelay
  import opened Configuration

  /** `domainsMap`: host name to the destinations it may be sent to, in declaration order. */
  type DomainsMap = map<string, seq<Destination>>

  /** `getOrDefault(key, new ArrayList<>())`. */
  function Get(m: DomainsMap, key: string): seq<Destination>
  {
    if key in m then m[key] else []
  }

  /** `putIfAbsent(key, new ArrayList<>())` and then `get(key).add(d)`. */
  function Add(m: DomainsMap, key: string, d: Destination): DomainsMap
  {
    m[key := Get(m, key) + [d]]
  }

  /** `d` added under each of `keys`, in order. */
  function AddKeys(m: DomainsMap, keys: seq<string>, d: Destination): DomainsMap
    decreases |keys|
  {
    if keys == [] then m else Add(AddKeys(m, keys[..|keys| - 1], d), keys[|keys| - 1], d)
  }

  /** The `DestinationDto` built for a route. */
  function DestinationOf(r: RouteOption): (d: Destination)
    requires r.scheme.Some?
    ensures d.port == r.destinationPort && d.host == r.destinationHost && Some(d.scheme) == r.scheme
  {
    Destination(r.destinationPort, r.destinationHost, r.scheme.value)
  }

  /** What `init` leaves in `m` after going through `routes` in order. */
  function Table(m: DomainsMap, routes: seq<RouteOption>): DomainsMap
    requires Schemed(routes)
    decreases |routes|
  {
    if routes == [] then m
    else
      var last := routes[|routes| - 1];
      AddKeys(Table(m, routes[..|routes| - 1]), KeysOf(last), DestinationOf(last))
  }

  /** How often `key` occurs in `keys`. */
  function Count(keys: seq<string>, key: string): (n: nat)
    ensures n <= |keys|
    ensures n == 0 <==> key !in keys
  {
    if keys == [] then 0
    else Count(keys[..|keys| - 1], key) + (if keys[|keys| - 1] == key then 1 else 0)
  }

  function Repeat(d: Destination, n: nat): (r: seq<Destination>)
    ensures |r| == n && forall i :: 0 <= i < n ==> r[i] == d
  {
    seq(n, _ => d)
  }

  /**
   * The reference definition of a key's destinations: route by route in declaration order, each
   * route's destination once for every time the route serves the key.
   */
  function Entries(routes: seq<RouteOption>, key: string): seq<Destination>
    requires Schemed(routes)
    decreases |routes|
  {
    if routes == [] then []
    else
      var last := routes[|routes| - 1];
      Entries(routes[..|routes| - 1], key) + Repeat(DestinationOf(last), Count(KeysOf(last), key))
  }

  lemma RepeatStep(d: Destination, n: nat)
    ensures Repeat(d, n + 1) == Repeat(d, n) + [d]
  {
  }

  /** One `putIfAbsent` and `add`: the key gets `d` appended, no other key changes. */
  lemma AddGet(m: DomainsMap, k: string, d: Destination, key: string)
    ensures Get(Add(m, k, d), key) == if key == k then Get(m, key) + [d] else Get(m, key)
    ensures key in Add(m, k, d) <==> key in m || key == k
  {
  }

  /** The map `putIfAbsent` leaves, with the key's list then extended, is `Add`. */
  lemma PutIfAbsentThenAdd(m: DomainsMap, m1: DomainsMap, k: string, d: Destination)
    requires m1 == if k in m then m else m[k := []]
    ensures k in m1 && m1[k := m1[k] + [d]] == Add(m, k, d)
  {
  }

  /** The step of the loops of `init`: the table so far, with the next key added. */
  lemma KeyAdded(m: DomainsMap, keys: seq<string>, n: nat, d: Destination, before: DomainsMap, after: DomainsMap)
    requires n < |keys|
    requires before == AddKeys(m, keys[..n], d) && after == Add(before, keys[n], d)
    ensures after == AddKeys(m, keys[..n + 1], d)
  {
    AddKeysStep(m, keys, n, d);
  }

  lemma AddKeysStep(m: DomainsMap, keys: seq<string>, n: nat, d: Destination)
    requires n < |keys|
    ensures AddKeys(m, keys[..n + 1], d) == Add(AddKeys(m, keys[..n], d), keys[n], d)
  {
    assert keys[..n + 1][..n] == keys[..n];
  }

  lemma CountStep(keys: seq<string>, key: string)
    requires keys != []
    ensures Count(keys, key) == Count(keys[..|keys| - 1], key) + (if keys[|keys| - 1] == key then 1 else 0)
  {
  }

  /** Adding under `keys` appends `d` to each key once per occurrence and touches no other key. */
  lemma {:induction false} AddKeysGet(m: DomainsMap, keys: seq<string>, d: Destination, key: string)
    ensures Get(AddKeys(m, keys, d), key) == Get(m, key) + Repeat(d, Count(keys, key))
    decreases |keys|
  {
    if keys != [] {
      var init := keys[..|keys| - 1];
      var last := keys[|keys| - 1];
      var before := AddKeys(m, init, d);
      AddKeysGet(m, init, d, key);
      assert AddKeys(m, keys, d) == Add(before, last, d);
      AddGet(before, last, d, key);
      CountStep(keys, key);
      RepeatStep(d, Count(init, key));
    }
  }

  /** Adding under `keys` creates exactly those keys. */
  lemma {:induction false} AddKeysKeys(m: DomainsMap, keys: seq<string>, d: Destination, key: string)
    ensures key in AddKeys(m, keys, d) <==> key in m || key in keys
    decreases |keys|
  {
    if keys != [] {
      var init := keys[..|keys| - 1];
      var last := keys[|keys| - 1];
      AddKeysKeys(m, init, d, key);
      assert AddKeys(m, keys, d) == Add(AddKeys(m, init, d), last, d);
      AddGet(AddKeys(m, init, d), last, d, key);
      assert keys == init + [last];
    }
  }

  /** After `init`, a key holds what it held before followed by its reference entries. */
  lemma {:induction false} TableGet(m: DomainsMap, routes: seq<RouteOption>, key: string)
    requires Schemed(routes)
    ensures Get(Table(m, routes), key) == Get(m, key) + Entries(routes, key)
    decreases |routes|
  {
    if routes != [] {
      var init := routes[..|routes| - 1];
      var last := routes[|routes| - 1];
      var d := DestinationOf(last);
      TableGet(m, init, key);
      AddKeysGet(Table(m, init), KeysOf(last), d, key);
      var added := Repeat(d, Count(KeysOf(last), key));
      assert Table(m, routes) == AddKeys(Table(m, init), KeysOf(last), d);
      assert Entries(routes, key) == Entries(init, key) + added;
      assert Get(m, key) + Entries(init, key) + added == Get(m, key) + (Entries(init, key) + added);
    }
  }

  /** The keys after `init`: those there before and the host names some route serves, no others. */
  lemma {:induction false} TableKeys(m: DomainsMap, routes: seq<RouteOption>, key: string)
    requires Schemed(routes)
    ensures key in Table(m, routes) <==> key in m || exists i :: 0 <= i < |routes| && key in KeysOf(routes[i])
    decreases |routes|
  {
    if routes != [] {
      var init := routes[..|routes| - 1];
      var last := routes[|routes| - 1];
      TableKeys(m, init, key);
      AddKeysKeys(Table(m, init), KeysOf(last), DestinationOf(last), key);
      if key in m || exists i :: 0 <= i < |routes| && key in KeysOf(routes[i]) {
        if key !in m && key !in KeysOf(last) {
          var i :| 0 <= i < |routes| && key in KeysOf(routes[i]);
          assert i < |routes| - 1 && init[i] == routes[i];
        }
      }
    }
  }

  /** A route that serves `key` contributes its destination to the key's entries. */
  lemma {:induction false} EntriesContain(routes: seq<RouteOption>, i: nat, key: string)
    requires Schemed(routes) && i < |routes| && key in KeysOf(routes[i])
    ensures DestinationOf(routes[i]) in Entries(routes, key)
    decreases |routes|
  {
    var init := routes[..|routes| - 1];
    var last := routes[|routes| - 1];
    if i == |routes| - 1 {
      assert Repeat(DestinationOf(last), Count(KeysOf(last), key))[0] == DestinationOf(last);
    } else {
      assert init[i] == routes[i];
      EntriesContain(init, i, key);
    }
  }

  /**
   * Every route is reachable: after `init` over the routes, its host and each of its
   * `subdomain.host` names hold its destination.
   */
  lemma RouteReachable(routes: seq<RouteOption>, i: nat, j: nat)
    requires Schemed(routes) && i < |routes| && j < |KeysOf(routes[i])|
    ensures DestinationOf(routes[i]) in Get(Table(map[], routes), KeysOf(routes[i])[j])
  {
    var key := KeysOf(routes[i])[j];
    EntriesContain(routes, i, key);
    TableGet(map[], routes, key);
  }

  /** Entries are only ever appended: the routes declared first give a prefix of a key's list. */
  lemma {:induction false} EntriesAppendOnly(routes: seq<RouteOption>, n: nat, key: string)
    requires Schemed(routes) && n <= |routes|
    ensures Entries(routes[..n], key) <= Entries(routes, key)
    decreases |routes|
  {
    if n < |routes| {
      var init := routes[..|routes| - 1];
      assert routes[..n] == init[..n];
      EntriesAppendOnly(init, n, key);
    } else {
      assert routes[..n] == routes;
    }
  }

  /** The same for the table `init` builds. */
  lemma TableAppendOnly(m: DomainsMap, routes: seq<RouteOption>, n: nat, key: string)
    requires Schemed(routes) && n <= |routes|
    ensures Get(Table(m, routes[..n]), key) <= Get(Table(m, routes), key)
  {
    TableGet(m, routes[..n], key);
    TableGet(m, routes, key);
    EntriesAppendOnly(routes, n, key);
  }

  /**
   * `servers.stream().filter(s -> s.getScheme().isCompatibleWith(clientConn)).findFirst()`: the
   * first destination whose scheme accepts the connection, if there is one.
   */
  function FirstCompatible(ds: seq<Destination>, isSsl: bool): (r: Option<Destination>)
    ensures r.None? <==> forall i :: 0 <= i < |ds| ==> !IsCompatibleWith(ds[i].scheme, isSsl)
    ensures r.Some? ==>
              exists i :: 0 <= i < |ds| && ds[i] == r.value && IsCompatibleWith(ds[i].scheme, isSsl)
                          && forall j :: 0 <= j < i ==> !IsCompatibleWith(ds[j].scheme, isSsl)
  {
    if ds == [] then None
    else if IsCompatibleWith(ds[0].scheme, isSsl) then Some(ds[0])
    else
      var r := FirstCompatible(ds[1..], isSsl);
      assert forall i :: 0 < i < |ds| ==> ds[i] == ds[1..][i - 1];
      r
  }

  /** The destination `process` picks for `host`: an exact key lookup, then the first compatible one. */
  function Resolve(m: DomainsMap, host: string, isSsl: bool): (r: Option<Destination>)
    ensures host !in m ==> r == None
    ensures r.Some? ==> r.value in m[host] && IsCompatibleWith(r.value.scheme, isSsl)
  {
    FirstCompatible(Get(m, host), isSsl)
  }

  /**
   * Routing after `init`: a host is sent to the first compatible destination among the routes
   * serving it, in declaration order, and to nothing when no route serves it.
   */
  lemma ResolveAfterInit(routes: seq<RouteOption>, host: string, isSsl: bool)
    requires Schemed(routes)
    ensures Resolve(Table(map[], routes), host, isSsl) == FirstCompatible(Entries(routes, host), isSsl)
    ensures (forall i :: 0 <= i < |routes| ==> host !in KeysOf(routes[i])) ==> Resolve(Table(map[], routes), host, isSsl) == None
  {
    var t := Table(map[], routes);
    TableGet(map[], routes, host);
    assert Get(t, host) == [] + Entries(routes, host);
    assert Get(t, host) == Entries(routes, host);
    assert Resolve(t, host, isSsl) == FirstCompatible(Get(t, host), isSsl);
    if forall i :: 0 <= i < |routes| ==> host !in KeysOf(routes[i]) {
      TableKeys(map[], routes, host);
      assert host !in t;
    }
  }

  /** String.contains. */
  predicate Contains(s: string, part: string)
    decreases |s|
  {
    |part| <= |s| && (s[..|part|] == part || Contains(s[1..], part))
  }

  /** `contains` finds `part` wherever it sits. */
  lemma {:induction false} ContainsInfix(a: string, part: string, b: string)
    ensures Contains(a + part + b, part)
    decreases |a|
  {
    var s := a + part + b;
    if a == [] {
      assert s[..|part|] == part;
    } else {
      assert s[1..] == a[1..] + part + b;
      ContainsInfix(a[1..], part, b);
    }
  }

  /** And only there: what it finds is a piece of the string, between `a` and `b`. */
  lemma {:induction false} ContainsIsInfix(s: string, part: string) returns (a: string, b: string)
    requires Contains(s, part)
    ensures s == a + part + b
    decreases |s|
  {
    if s[..|part|] == part {
      a, b := [], s[|part|..];
    } else {
      var a', b' := ContainsIsInfix(s[1..], part);
      a, b := [s[0]] + a', b';
      assert s == [s[0]] + s[1..];
    }
  }

  /** The `Connection` value of the server response asks for the exchange to be kept open. */
  predicate KeepAliveRequested(connection: Option<string>)
  {
    connection.Some? && Contains(connection.value, "keep-alive")
  }

  /** A task submitted to the pool: one of the two transfer lambdas of `process`. */
  datatype Task = RequestTransfer(exchange: Exchange) | ResponseTransfer(exchange: Exchange)

  /** How `process` ended. */
  datatype Outcome =
    /** `readRequestLines()` returned false; it closed the client itself. */
    | Unread
    /** No destination for the host, or none with a compatible scheme: the client was closed. */
    | NoRoute(host: string)
    /** The destination could not be dialled: the client was closed. */
    | Unreachable(destination: Destination)
    /** The exchange was set up and its two transfer tasks submitted. */
    | Dispatched(exchange: Exchange)
    /** An `IOException`, caught: the client was closed. */
    | Failed(fault: Fault)
    /** A runtime exception left `process`. */
    | Thrown(fault: Fault)

  /** `getHost()` of a connection whose head was read. */
  ghost function HostFor(c: Connection): Result<string, Fault>
    reads c, c.socket
    requires c.Valid() && c.isRequestLinesRead
  {
    match Headers(c.requestLines.value)
    case Ok(h) => Ok(HostOf(h, c.socket.peerHostName))
    case Err(e) => Err(e)
  }

  class ConnectionHandler {
    const options: Options
    var domainsMap: DomainsMap
    /** The tasks handed to the pool service, in submission order. */
    var tasks: seq<Task>

    /** The handler is given the options `OptionsService.getOptions()` returns: normalised ones. */
    ghost predicate Valid()
    {
      IsNormal(options)
    }

    constructor (options: Options)
      requires IsNormal(options)
      ensures Valid() && this.options == options && domainsMap == map[] && tasks == []
    {
      this.options := options;
      domainsMap := map[];
      tasks := [];
    }

    /** `init()`: the route options, in order, each under its host and its `subdomain.host` names. */
    method Init()
      requires Valid()
      modifies this`domainsMap
      ensures domainsMap == Table(old(domainsMap), options.routeOptions.value)
    {
      var routes := options.routeOptions.value;
      var i := 0;
      while i < |routes|
        invariant i <= |routes|
        invariant domainsMap == Table(old(domainsMap), routes[..i])
      {
        AddRoute(routes[i]);
        assert routes[..i + 1][..i] == routes[..i];
        i := i + 1;
      }
      assert routes[..i] == routes;
    }

    /** One pass of the outer loop of `init()`. */
    method AddRoute(option: RouteOption)
      requires option.scheme.Some?
      modifies this`domainsMap
      ensures domainsMap == AddKeys(old(domainsMap), KeysOf(option), DestinationOf(option))
    {
      var dest := Destination(option.destinationPort, option.destinationHost, option.scheme.value);
      ghost var m0 := domainsMap;
      ghost var keys := KeysOf(option);
      PutAndAdd(option.host, dest);
      KeyAdded(m0, keys, 0, dest, m0, domainsMap);
      var j := 0;
      while j < |option.subdomains|
        invariant j <= |option.subdomains|
        invariant domainsMap == AddKeys(m0, keys[..j + 1], dest)
      {
        var domainKey := option.subdomains[j] + "." + option.host;
        ghost var before := domainsMap;
        PutAndAdd(domainKey, dest);
        KeyAdded(m0, keys, j + 1, dest, before, domainsMap);
        j := j + 1;
      }
      assert keys[..j + 1] == keys;
    }

    /** `domainsMap.putIfAbsent(key, new ArrayList<>())` followed by `domainsMap.get(key).add(dest)`. */
    method PutAndAdd(key: string, dest: Destination)
      modifies this`domainsMap
      ensures domainsMap == Add(old(domainsMap), key, dest)
    {
      if key !in domainsMap {
        domainsMap := domainsMap[key := []];
      }
      PutIfAbsentThenAdd(old(domainsMap), domainsMap, key, dest);
      domainsMap := domainsMap[key := domainsMap[key] + [dest]];
    }

    /**
     * `process(clientConn)`. `timer` names the terminator the timeout registers, and `dial` is
     * what `new Socket(host, port)` gives for the chosen destination: a socket, or `None` when
     * the connection cannot be established.
     */
    method Process(client: Connection, timer: nat, dial: Option<Socket>) returns (r: Outcome)
      requires Valid() && client.Valid()
      requires dial.Some? ==> dial.value.Valid() && dial.value != client.socket
      modifies this`tasks, client`closeables, client`requestLines, client`isRequestLinesRead
      modifies client`isClosed, client`invoked, client`headers, client.socket`pos, client.socket`closed
      ensures client.Valid() && domainsMap == old(domainsMap)
      ensures client.closeables == old(client.closeables) + [Callback(timer, false)]
      ensures !r.Dispatched? ==> tasks == old(tasks)
      ensures r.Unread? ==> !client.isRequestLinesRead && client.socket.closed
      ensures r.Failed? ==>
                r.fault == IoFault && !old(client.isRequestLinesRead) && old(client.socket.closed) && client.isClosed
      ensures r.NoRoute? ==>
                && client.isRequestLinesRead && HostFor(client) == Ok(r.host)
                && Resolve(domainsMap, r.host, client.isSsl).None? && client.isClosed
      ensures r.Unreachable? ==>
                && client.isRequestLinesRead && HostFor(client).Ok?
                && Resolve(domainsMap, HostFor(client).value, client.isSsl) == Some(r.destination)
                && dial.None? && client.isClosed
      ensures r.Dispatched? ==>
                && client.isRequestLinesRead && HostFor(client).Ok?
                && Resolve(domainsMap, HostFor(client).value, client.isSsl) == Some(r.exchange.destination)
                && fresh(r.exchange) && fresh(r.exchange.server) && r.exchange.Valid()
                && r.exchange.client == client && Some(r.exchange.server.socket) == dial
                && !r.exchange.server.isSsl && !r.exchange.server.isRequestLinesRead
                && tasks == old(tasks) + [RequestTransfer(r.exchange), ResponseTransfer(r.exchange)]
      ensures client.isRequestLinesRead && HostFor(client).Err? ==> r == Thrown(HostFor(client).error)
      ensures client.isRequestLinesRead && HostFor(client).Ok? ==>
                var d := Resolve(domainsMap, HostFor(client).value, client.isSsl);
                && (d.None? ==> r.NoRoute? || r == Thrown(CallbackFailure))
                && (d.Some? && dial.None? ==> r.Unreachable? || r == Thrown(CallbackFailure))
                && (d.Some? && dial.Some? ==> r.Dispatched?)
      ensures old(client.isRequestLinesRead) ==> client.isRequestLinesRead
    {
      ScheduleConnectionTerminator(client, options.killConnectionAfterSeconds.value, timer);
      var read := client.ReadRequestLines();
      if read.Err? {
        if read.error == IoFault {
          r := CloseClient(client, Failed(IoFault));
        } else {
          r := Thrown(read.error);
        }
        return;
      }
      if !read.value {
        return Unread;
      }
      r := Route(client, dial);
    }

    /** `process` once the client's head was read: choose the destination, dial it, hand over. */
    method Route(client: Connection, dial: Option<Socket>) returns (r: Outcome)
      requires client.Valid() && client.isRequestLinesRead
      requires dial.Some? ==> dial.value.Valid() && dial.value != client.socket
      modifies this`tasks, client`isClosed, client`invoked, client`headers, client.socket`closed
      ensures client.Valid() && client.isRequestLinesRead && client.requestLines == old(client.requestLines)
      ensures !r.Dispatched? ==> tasks == old(tasks)
      ensures HostFor(client).Err? ==> r == Thrown(HostFor(client).error)
      ensures HostFor(client).Ok? ==>
                var d := Resolve(domainsMap, HostFor(client).value, client.isSsl);
                && (d.None? ==> r == (if client.isClosed then NoRoute(HostFor(client).value) else Thrown(CallbackFailure)))
                && (d.Some? && dial.None? ==> r == (if client.isClosed then Unreachable(d.value) else Thrown(CallbackFailure)))
                && (d.Some? && dial.Some? ==>
                      && r.Dispatched? && r.exchange.destination == d.value
                      && fresh(r.exchange) && fresh(r.exchange.server) && r.exchange.Valid()
                      && r.exchange.client == client && Some(r.exchange.server.socket) == dial
                      && !r.exchange.server.isSsl && !r.exchange.server.isRequestLinesRead
                      && tasks == old(tasks) + [RequestTransfer(r.exchange), ResponseTransfer(r.exchange)])
      ensures !r.Unread? && !r.Failed?
    {
      var host := client.GetHost();
      if host.Err? {
        return Thrown(host.error);
      }
      var server := Resolve(domainsMap, host.value, client.isSsl);
      if server.None? {
        r := CloseClient(client, NoRoute(host.value));
        return;
      }
      if dial.None? {
        r := CloseClient(client, Unreachable(server.value));
        return;
      }
      var serverConn := new Connection(dial.value, false);
      var exchange := new Exchange(client, serverConn, server.value);
      tasks := tasks + [RequestTransfer(exchange), ResponseTransfer(exchange)];
      r := Dispatched(exchange);
    }
  }

  /** `clientConn.close()` on the way out of `process`; a callback that throws escapes instead. */
  method CloseClient(client: Connection, outcome: Outcome) returns (r: Outcome)
    requires client.Valid()
    modifies client`isClosed, client`invoked, client.socket`closed
    ensures client.Valid() && client.socket.closed
    ensures r == (if client.isClosed then outcome else Thrown(CallbackFailure))
    ensures client.invoked == old(client.invoked) + (if old(client.isClosed) then [] else Run(client.closeables))
  {
    var ok := client.Close();
    r := if ok then outcome else Thrown(CallbackFailure);
  }

  /**
   * The body of the task `asyncSocketConnection` submits, once the transfer ended with
   * `transfer`: an `IOException` is swallowed after closing the whole exchange; anything else
   * leaves the task as it was thrown.
   */
  method CloseOnIoFault(ex: Exchange, transfer: Result<(), Fault>) returns (r: Result<(), Fault>)
    requires ex.Valid()
    modifies ex.client`isClosed, ex.client`invoked, ex.client.socket`closed
    modifies ex.server`isClosed, ex.server`invoked, ex.server.socket`closed
    ensures ex.Valid()
    ensures transfer != Err(IoFault) ==>
              && r == transfer
              && unchanged(ex.client, ex.server) && unchanged(ex.client.socket, ex.server.socket)
    ensures transfer == Err(IoFault) ==>
              && ex.client.socket.closed && ex.server.socket.closed
              && ex.client.invoked == old(ex.client.invoked) + (if old(ex.client.isClosed) then [] else Run(ex.client.closeables))
              && ex.server.invoked == old(ex.server.invoked) + (if old(ex.server.isClosed) then [] else Run(ex.server.closeables))
              && r == (if ex.client.isClosed && ex.server.isClosed then Ok(()) else Err(CallbackFailure))
  {
    if transfer != Err(IoFault) {
      return transfer;
    }
    var ok := ex.Close();
    r := if ok then Ok(()) else Err(CallbackFailure);
  }

  /** The request task: `transferHttpRequest(exchange)` run under `CloseOnIoFault`. */
  method RunRequestTransfer(ex: Exchange) returns (r: Result<(), Fault>, transfer: Result<(), Fault>)
    requires ex.Valid() && ex.client.isRequestLinesRead
    modifies ex.client`headers, ex.client.socket`pos, ex.client.socket`endReads, ex.client.socket`requests
    modifies ex.server.socket`output
    modifies ex.client`isClosed, ex.client`invoked, ex.client.socket`closed
    modifies ex.server`isClosed, ex.server`invoked, ex.server.socket`closed
    ensures ex.Valid() && old(ex.client.socket.pos) <= ex.client.socket.pos
    ensures old(ex.server.socket.closed) || old(ex.client.socket.closed) ==> transfer == Err(IoFault)
    ensures !old(ex.server.socket.closed) ==>
              ex.server.socket.output
              == old(ex.server.socket.output) + HttpHead.EncodeHead(ex.client.requestLines.value)
                 + ex.client.socket.input[old(ex.client.socket.pos)..ex.client.socket.pos]
    ensures transfer != Err(IoFault) ==> r == transfer && ex.client.isClosed == old(ex.client.isClosed)
    ensures transfer == Err(IoFault) ==>
              ex.client.socket.closed && ex.server.socket.closed
              && r == (if ex.client.isClosed && ex.server.isClosed then Ok(()) else Err(CallbackFailure))
  {
    transfer := TransferHttpRequest(ex);
    r := CloseOnIoFault(ex, transfer);
  }

  /**
   * `transferServerResponse(exchange)`: the response is relayed; then the exchange is closed
   * unless the server's `Connection` value, `connection`, contains `keep-alive`, in which case
   * it is handed to the keep-alive handler (`keptAlive`). A failed transfer throws before that.
   */
  method TransferServerResponse(ex: Exchange, connection: Option<string>)
    returns (r: Result<(), Fault>, keptAlive: bool, transfer: Result<(), Fault>)
    requires ex.Valid()
    modifies ex.server`requestLines, ex.server`isRequestLinesRead, ex.server`isClosed, ex.server`invoked, ex.server`headers
    modifies ex.server.socket`pos, ex.server.socket`closed, ex.server.socket`endReads, ex.server.socket`requests
    modifies ex.client.socket`output, ex.client`isClosed, ex.client`invoked, ex.client.socket`closed
    ensures ex.Valid()
    ensures keptAlive <==> transfer.Ok? && KeepAliveRequested(connection)
    ensures transfer.Err? ==> r == transfer && ex.client.isClosed == old(ex.client.isClosed)
    ensures transfer.Ok? && !KeepAliveRequested(connection) ==>
              && ex.client.socket.closed && ex.server.socket.closed
              && r == (if ex.client.isClosed && ex.server.isClosed then Ok(()) else Err(CallbackFailure))
    ensures keptAlive ==> r == Ok(()) && ex.client.isClosed == old(ex.client.isClosed)
  {
    ghost var headEnd;
    transfer, headEnd := TransferHttpResponse(ex);
    if transfer.Err? {
      return transfer, false, transfer;
    }
    if !KeepAliveRequested(connection) {
      var ok := ex.Close();
      return (if ok then Ok(()) else Err(CallbackFailure)), false, transfer;
    }
    return Ok(()), true, transfer;
  }

  /** The response task: `transferServerResponse(exchange)` run under `CloseOnIoFault`. */
  method RunResponseTransfer(ex: Exchange, connection: Option<string>)
    returns (r: Result<(), Fault>, keptAlive: bool, transfer: Result<(), Fault>)
    requires ex.Valid()
    modifies ex.server`requestLines, ex.server`isRequestLinesRead, ex.server`isClosed, ex.server`invoked, ex.server`headers
    modifies ex.server.socket`pos, ex.server.socket`closed, ex.server.socket`endReads, ex.server.socket`requests
    modifies ex.client.socket`output, ex.client`isClosed, ex.client`invoked, ex.client.socket`closed
    ensures ex.Valid()
    ensures keptAlive <==> transfer.Ok? && KeepAliveRequested(connection)
    ensures transfer.Err? && transfer != Err(IoFault) ==> r == transfer
    ensures transfer == Err(IoFault) || (transfer.Ok? && !KeepAliveRequested(connection)) ==>
              && ex.client.socket.closed && ex.server.socket.closed
              && r == (if ex.client.isClosed && ex.server.isClosed then Ok(()) else Err(CallbackFailure))
  {
    var s;
    s, keptAlive, transfer := TransferServerResponse(ex, connection);
    r := CloseOnIoFault(ex, s);
  }
}
