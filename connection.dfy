/**
 * api/server/Connection.java: a socket together with the state the proxy keeps about it: whether
 * it was closed, the head read from it (read once), the header map (computed once) and the
 * callbacks to run when it closes.
 */
module Connections {
  import opened Wrappers
  import opened Errors
  import opened General
  import opened Sockets
  import opened HttpHead
  import opened HttpHeaders

  /**
   * A `Connection.Closeable`. What the callback does is outside the model; `throws` says whether
   * it ends with a runtime exception.
   */
  datatype Callback = Callback(id: nat, throws: bool)

  /** The callbacks `closeables.forEach(Closeable::close)` runs: all of them, up to and including the first that throws. */
  function Run(callbacks: seq<Callback>): seq<Callback>
  {
    if callbacks == [] then []
    else if callbacks[0].throws then [callbacks[0]]
    else [callbacks[0]] + Run(callbacks[1..])
  }

  predicate AnyThrows(callbacks: seq<Callback>)
  {
    exists k :: 0 <= k < |callbacks| && callbacks[k].throws
  }

  /**
   * `Run` runs a prefix of the callbacks in registration order; none but its last throws; it is
   * all of them exactly when none throws, and otherwise ends at the first that does.
   */
  lemma {:induction false} RunIsPrefix(callbacks: seq<Callback>)
    ensures Run(callbacks) <= callbacks
    ensures forall k :: 0 <= k < |Run(callbacks)| - 1 ==> !Run(callbacks)[k].throws
    ensures !AnyThrows(callbacks) ==> Run(callbacks) == callbacks
    ensures AnyThrows(callbacks) ==> Run(callbacks) != [] && Run(callbacks)[|Run(callbacks)| - 1].throws
  {
    if callbacks != [] && !callbacks[0].throws {
      var rest := callbacks[1..];
      RunIsPrefix(rest);
      assert Run(callbacks) == [callbacks[0]] + Run(rest);
      if AnyThrows(callbacks) {
        var k :| 0 <= k < |callbacks| && callbacks[k].throws;
        assert rest[k - 1] == callbacks[k];
      }
      if AnyThrows(rest) {
        var k :| 0 <= k < |rest| && rest[k].throws;
        assert callbacks[k + 1] == rest[k];
      }
    } else if callbacks != [] {
      assert AnyThrows(callbacks) by { assert callbacks[0].throws; }
    }
  }

  class Connection {
    const socket: Socket
    const isSsl: bool
    var isClosed: bool
    /** `requestLines`: empty until a head was read. */
    var requestLines: Option<seq<string>>
    var isRequestLinesRead: bool
    /** `headers`: empty until first computed. */
    var headers: Option<map<string, string>>
    var closeables: seq<Callback>
    /** The callbacks run so far, in the order they ran. */
    var invoked: seq<Callback>

    /**
     * The connection's invariant: a closed connection has a closed socket; lines are read exactly
     * when they are stored, and are a head; the cached headers are the head's headers.
     */
    ghost predicate Valid()
      reads this, socket
    {
      && socket.Valid()
      && (isClosed ==> socket.closed)
      && (isRequestLinesRead <==> requestLines.Some?)
      && (requestLines.Some? ==>
            |requestLines.value| >= 1
            && forall j :: 0 <= j < |requestLines.value| ==> IsHeadLine(requestLines.value[j]))
      && (headers.Some? ==> requestLines.Some? && Headers(requestLines.value) == Ok(headers.value))
    }

    constructor (socket: Socket, isSsl: bool)
      requires socket.Valid()
      ensures Valid()
      ensures this.socket == socket && this.isSsl == isSsl
      ensures !isClosed && requestLines == None && !isRequestLinesRead && headers == None
      ensures closeables == [] && invoked == []
    {
      this.socket := socket;
      this.isSsl := isSsl;
      isClosed := false;
      requestLines := None;
      isRequestLinesRead := false;
      headers := None;
      closeables := [];
      invoked := [];
    }

    /**
     * `close()`. A closed connection is left alone. Otherwise the socket is closed, a failure to
     * close it being swallowed, then the callbacks run in registration order; one that throws
     * stops the others and leaves the connection marked open, so `ok` is false.
     */
    method Close() returns (ok: bool)
      requires Valid()
      modifies this`isClosed, this`invoked, socket`closed
      ensures Valid()
      ensures old(isClosed) ==> ok && isClosed && invoked == old(invoked) && socket.closed == old(socket.closed)
      ensures !old(isClosed) ==>
                && socket.closed
                && invoked == old(invoked) + Run(closeables)
                && ok == !AnyThrows(closeables)
                && isClosed == ok
    {
      if isClosed {
        return true;
      }
      var _ := socket.Close();
      ok := RunCloseables();
      isClosed := ok;
    }

    /** `closeables.forEach(Closeable::close)`. */
    method RunCloseables() returns (ok: bool)
      modifies this`invoked
      ensures invoked == old(invoked) + Run(closeables)
      ensures ok == !AnyThrows(closeables)
    {
      var callbacks := closeables;
      var i := 0;
      while i < |callbacks|
        invariant 0 <= i <= |callbacks|
        invariant invoked == old(invoked) + callbacks[..i]
        invariant !AnyThrows(callbacks[..i])
        invariant Run(callbacks) == callbacks[..i] + Run(callbacks[i..])
      {
        var c := callbacks[i];
        RunStep(callbacks, i);
        invoked := invoked + [c];
        if c.throws {
          ThrowsAt(callbacks, i);
          return false;
        }
        NoThrowStep(callbacks, i);
        i := i + 1;
      }
      assert callbacks[..i] == callbacks;
      ok := true;
    }

    /** `addCloseable(c)`: one more callback at the end, the others unchanged. */
    method AddCloseable(c: Callback)
      modifies this`closeables
      ensures closeables == old(closeables) + [c]
    {
      closeables := closeables + [c];
    }

    /**
     * `readRequestLines()`. Once a head was read it is kept and `true` returned without reading.
     * Otherwise the head is parsed with bare LF accepted; on success it is stored, and on any
     * parse failure, an empty request included, the connection is closed and `false` returned.
     * A closed socket has no input stream: an `IOException` leaves everything as it was; a
     * callback that throws while closing surfaces as that failure.
     */
    method ReadRequestLines() returns (r: Result<bool, Fault>)
      requires Valid()
      modifies this`requestLines, this`isRequestLinesRead, this`isClosed, this`invoked, socket`pos, socket`closed
      ensures Valid()
      ensures headers == old(headers) && closeables == old(closeables)
      ensures old(isRequestLinesRead) || old(socket.closed) ==>
                && r == (if old(isRequestLinesRead) then Ok(true) else Err(IoFault))
                && requestLines == old(requestLines) && isRequestLinesRead == old(isRequestLinesRead)
                && isClosed == old(isClosed) && invoked == old(invoked)
                && socket.pos == old(socket.pos) && socket.closed == old(socket.closed)
      ensures !old(isRequestLinesRead) && !old(socket.closed) ==>
                var p := ParseHead(old(socket.Remaining()), true, socket.failsAtEnd);
                && socket.pos == old(socket.pos) + p.consumed
                && (p.Parsed? ==>
                      && r == Ok(true) && requestLines == Some(p.lines) && isRequestLinesRead
                      && isClosed == old(isClosed) && invoked == old(invoked) && !socket.closed)
                && (p.Failed? ==>
                      && r == (if AnyThrows(closeables) then Err(CallbackFailure) else Ok(false))
                      && requestLines == old(requestLines) && !isRequestLinesRead
                      && socket.closed && invoked == old(invoked) + Run(closeables)
                      && isClosed == !AnyThrows(closeables))
    {
      if isRequestLinesRead {
        return Ok(true);
      }
      if socket.closed {
        return Err(IoFault);
      }
      ghost var s := socket.Remaining();
      ParsedLinesAreHeadLines(s, true, socket.failsAtEnd);
      var parsed := ParseMetadataLines(socket, true);
      if parsed.Failed? {
        var ok := Close();
        return if ok then Ok(false) else Err(CallbackFailure);
      }
      requestLines := Some(parsed.lines);
      isRequestLinesRead := true;
      return Ok(true);
    }

    /** `getRequestLines()`: only after a head was read; what it returns is a head. */
    function GetRequestLines(): (lines: seq<string>)
      reads this, socket
      requires Valid() && isRequestLinesRead
      ensures |lines| >= 1 && forall j :: 0 <= j < |lines| ==> IsHeadLine(lines[j])
    {
      requestLines.value
    }

    /**
     * `setHeaders()`: the header map of the head, computed on first use and kept. Whether it is
     * computed now or was kept, the result is the head's header map; a malformed header line
     * throws and leaves nothing cached.
     */
    method SetHeaders() returns (r: Result<map<string, string>, Fault>)
      requires Valid() && isRequestLinesRead
      modifies this`headers
      ensures Valid()
      ensures r == Headers(requestLines.value)
      ensures headers == (if r.Ok? then Some(r.value) else None)
      ensures old(headers).Some? ==> headers == old(headers)
    {
      if headers.Some? {
        return Ok(headers.value);
      }
      r := GetHeaders(requestLines.value);
      if r.Ok? {
        headers := Some(r.value);
      }
    }

    /** `getHost()`: the `Host` header, else the peer's host name. */
    method GetHost() returns (r: Result<string, Fault>)
      requires Valid() && isRequestLinesRead
      modifies this`headers
      ensures Valid()
      ensures headers == (if Headers(requestLines.value).Ok? then Some(Headers(requestLines.value).value) else None)
      ensures r == match Headers(requestLines.value)
                   case Ok(h) => Ok(HostOf(h, socket.peerHostName))
                   case Err(e) => Err(e)
    {
      var h := SetHeaders();
      if h.Err? {
        return Err(h.error);
      }
      return Ok(HostOf(h.value, socket.peerHostName));
    }

    /**
     * `getContentLength()`: headers first, then the socket's input stream (an `IOException` on a
     * closed socket), then the `Content-Length` header or `available()`.
     */
    method GetContentLength() returns (r: Result<Int32, Fault>)
      requires Valid() && isRequestLinesRead
      modifies this`headers
      ensures Valid()
      ensures headers == (if Headers(requestLines.value).Ok? then Some(Headers(requestLines.value).value) else None)
      ensures r == ContentLengthFor(requestLines.value, socket.closed, socket.Available())
    {
      var h := SetHeaders();
      if h.Err? {
        return Err(h.error);
      }
      if socket.closed {
        return Err(IoFault);
      }
      return ContentLength(h.value, socket.Available());
    }
  }

  /**
   * What `getContentLength()` returns for the head `lines` on a socket that is `closed` or has
   * `available` bytes waiting: a malformed header line throws first, then a closed socket.
   */
  function ContentLengthFor(lines: seq<string>, closed: bool, available: Int32): Result<Int32, Fault>
  {
    match Headers(lines)
    case Err(e) => Err(e)
    case Ok(h) => if closed then Err(IoFault) else ContentLength(h, available)
  }

  lemma ThrowsAt(callbacks: seq<Callback>, i: nat)
    requires i < |callbacks| && callbacks[i].throws
    ensures AnyThrows(callbacks)
    ensures callbacks[..i] + [callbacks[i]] == callbacks[..i] + Run(callbacks[i..])
  {
    assert callbacks[i..][0] == callbacks[i];
  }

  lemma NoThrowStep(callbacks: seq<Callback>, i: nat)
    requires i < |callbacks| && !callbacks[i].throws && !AnyThrows(callbacks[..i])
    ensures !AnyThrows(callbacks[..i + 1])
    ensures callbacks[..i] + [callbacks[i]] == callbacks[..i + 1]
    ensures callbacks[..i] + ([callbacks[i]] + Run(callbacks[i + 1..])) == callbacks[..i + 1] + Run(callbacks[i + 1..])
  {
    var p := callbacks[..i + 1];
    assert p == callbacks[..i] + [callbacks[i]];
    forall k | 0 <= k < |p| ensures !p[k].throws {
      if k < i {
        assert p[k] == callbacks[..i][k];
      }
    }
  }

  lemma RunStep(callbacks: seq<Callback>, i: nat)
    requires i < |callbacks|
    ensures Run(callbacks[i..]) == if callbacks[i].throws then [callbacks[i]] else [callbacks[i]] + Run(callbacks[i + 1..])
  {
    assert callbacks[i..][0] == callbacks[i];
    assert callbacks[i..][1..] == callbacks[i + 1..];
  }

  /**
   * `ScheduleUtils.scheduleConnectionTerminator(connection, timeout)`: for a positive timeout one
   * callback (shutting the timer down) is registered; the timer itself is not modelled.
   */
  method ScheduleConnectionTerminator(conn: Connection, timeout: Int32, timer: nat)
    modifies conn`closeables
    ensures conn.closeables == if timeout < 1 then old(conn.closeables) else old(conn.closeables) + [Callback(timer, false)]
  {
    if timeout < 1 {
      return;
    }
    conn.AddCloseable(Callback(timer, false));
  }
}
