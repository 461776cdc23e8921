/**
 * The relay half of util/HttpProtocolUtils.java: `transferHttpRequest` and `transferHttpResponse`
 * write a head and then copy a body of `contentLength` bytes from one socket to the other.
 *
 * The copy loops subtract whatever `read` returned from the counter, and a read at end of stream
 * returns -1, so a body shorter than its announced length makes the counter grow by one per read
 * until the 32-bit `int` wraps to a negative value. `CopyBody` keeps that behaviour and states how
 * many end-of-stream reads it takes.
 */
module HttpRelay {
  import opened Wrappers
  import opened Errors
  import opened General
  import opened Sockets
  import opened HttpHead
  import opened HttpHeaders
  import opened Connections
  import opened Exchanges

  /**
   * The `while (contentLength > 0)` loop of HttpProtocolUtils.java:127-135 (and :160-168): each
   * read asks for `min(READ_BUFFER_SIZE, contentLength)`, what it returns is written, and the
   * counter goes down by what it returned. `ok` is false when a read or a write throws.
   */
  method CopyBody(input: Socket, output: Socket, contentLength: Int32) returns (ok: bool)
    requires input.Valid() && input != output
    modifies input`pos, input`endReads, input`requests, output`output
    ensures input.Valid() && old(input.pos) <= input.pos
    ensures output.closed ==> output.output == old(output.output)
    ensures !output.closed ==> output.output == old(output.output) + input.input[old(input.pos)..input.pos]
    ensures old(|input.requests|) <= |input.requests|
    ensures forall k :: old(|input.requests|) <= k < |input.requests| ==> 1 <= input.requests[k].max <= READ_BUFFER_SIZE
    // Nothing to copy: nothing read.
    ensures contentLength <= 0 ==>
              ok && input.pos == old(input.pos) && input.endReads == old(input.endReads)
              && input.requests == old(input.requests)
    // A closed source throws at once.
    ensures contentLength > 0 && input.closed ==> !ok && input.pos == old(input.pos)
    // A closed target throws at the first write.
    ensures contentLength > 0 && !input.closed && output.closed && old(input.pos) < |input.input| ==> !ok
    // The source holds the whole body: exactly its first `contentLength` bytes are copied, each
    // read asking for at most what is left of the body and never for more than the buffer.
    ensures contentLength > 0 && !input.closed && !output.closed && contentLength <= |input.input| - old(input.pos) ==>
              && ok && input.pos == old(input.pos) + contentLength && input.endReads == old(input.endReads)
              && forall k :: old(|input.requests|) <= k < |input.requests| ==>
                   input.requests[k].max == Min(READ_BUFFER_SIZE, contentLength - (input.requests[k].at - old(input.pos)))
    // The source ends early: all of it is copied; a reset then throws, and an end of stream is
    // read again and again until the counter wraps past `Integer.MAX_VALUE`.
    ensures contentLength > 0 && !input.closed && !output.closed && contentLength > |input.input| - old(input.pos) ==>
              && input.pos == |input.input| && ok == !input.failsAtEnd
              && (ok ==> input.endReads == old(input.endReads) + 0x8000_0000 - (contentLength - (|input.input| - old(input.pos))))
  {
    var n := contentLength;
    ghost var pos0 := input.pos;
    ghost var e0 := input.endReads;
    ghost var r0 := |input.requests|;
    ghost var out0 := output.output;
    while n > 0
      invariant input.Valid() && pos0 <= input.pos
      invariant !output.closed ==> output.output == out0 + input.input[pos0..input.pos]
      invariant output.closed ==> output.output == out0 && input.pos == pos0
      invariant input.closed ==> input.pos == pos0 && n == contentLength
      invariant e0 <= input.endReads
      invariant input.endReads == e0 ==> n == contentLength - (input.pos - pos0) && (input.pos == pos0 || input.pos - pos0 <= contentLength)
      invariant contentLength <= 0 ==> input.requests == old(input.requests) && input.endReads == e0 && input.pos == pos0
      invariant input.endReads > e0 ==>
                  && input.pos == |input.input| && !input.failsAtEnd && |input.input| - pos0 < contentLength
                  && (n > 0 ==> n == contentLength - (input.pos - pos0) + (input.endReads - e0))
                  && (n <= 0 ==> n == MIN_INT && contentLength - (input.pos - pos0) + (input.endReads - e0) == MAX_INT + 1)
      invariant r0 <= |input.requests|
      invariant forall k :: r0 <= k < |input.requests| ==> 1 <= input.requests[k].max <= READ_BUFFER_SIZE
      invariant input.endReads == e0 ==>
                  forall k :: r0 <= k < |input.requests| ==>
                    input.requests[k].max == Min(READ_BUFFER_SIZE, contentLength - (input.requests[k].at - pos0))
      decreases |input.input| - input.pos, if n > 0 then MAX_INT - n + 1 else 0
    {
      var chunk := input.ReadChunk(Min(READ_BUFFER_SIZE, n));
      match chunk
      case ChunkFault =>
        return false;
      case ChunkEnd =>
        n := Wrap(n + 1);
      case Chunk(bytes) =>
        n := n - |bytes|;
        var written := output.Write(bytes);
        if !written {
          return false;
        }
    }
    return true;
  }

  /**
   * `transferHttpRequest(exchange)`: the client's head goes to the server first, then the body,
   * whose length the client's `Content-Length` header or `available()` gives. A closed socket on
   * either side throws before anything is read, and a malformed header or length after the head
   * went out and before any body byte is read.
   */
  method TransferHttpRequest(ex: Exchange) returns (r: Result<(), Fault>)
    requires ex.Valid() && ex.client.isRequestLinesRead
    modifies ex.client`headers, ex.client.socket`pos, ex.client.socket`endReads, ex.client.socket`requests
    modifies ex.server.socket`output
    ensures ex.Valid() && old(ex.client.socket.pos) <= ex.client.socket.pos
    ensures old(ex.server.socket.closed) || ex.client.socket.closed ==>
              r == Err(IoFault) && ex.client.socket.pos == old(ex.client.socket.pos)
    ensures old(ex.server.socket.closed) ==> ex.server.socket.output == old(ex.server.socket.output)
    ensures !old(ex.server.socket.closed) ==>
              ex.server.socket.output
              == old(ex.server.socket.output) + EncodeHead(ex.client.requestLines.value)
                 + ex.client.socket.input[old(ex.client.socket.pos)..ex.client.socket.pos]
    ensures !old(ex.server.socket.closed) && !ex.client.socket.closed ==>
              BodyRelayed(ContentLengthFor(ex.client.requestLines.value, false, old(ex.client.socket.Available())),
                          ex.client.socket, old(ex.client.socket.pos), r)
  {
    var client := ex.client;
    var server := ex.server;
    var lines := client.GetRequestLines();
    var written := server.socket.Write(EncodeHead(lines));
    if !written {
      return Err(IoFault);
    }
    if client.socket.closed {
      return Err(IoFault);
    }
    var length := client.GetContentLength();
    if length.Err? {
      return Err(length.error);
    }
    var ok := CopyBody(client.socket, server.socket, length.value);
    return if ok then Ok(()) else Err(IoFault);
  }

  /**
   * How a transfer ended, given the body length it computed and the socket the body came from,
   * whose unread bytes started at `start`: a failed length throws before any body byte is read;
   * a body the socket holds is copied whole; a longer one takes all the socket has.
   */
  ghost predicate BodyRelayed(length: Result<Int32, Fault>, source: Socket, start: nat, r: Result<(), Fault>)
    reads source
  {
    && start <= |source.input|
    && (length.Err? ==> r == Err(length.error) && source.pos == start)
    && (length.Ok? && length.value <= |source.input| - start ==>
          r == Ok(()) && source.pos == start + (if length.value < 0 then 0 else length.value))
    && (length.Ok? && length.value > |source.input| - start ==>
          source.pos == |source.input| && (r.Ok? <==> !source.failsAtEnd))
  }

  /**
   * `transferHttpResponse(exchange)`: the server's head is read; if it cannot be, nothing is
   * written. `headEnd` is where the server's body starts.
   */
  method TransferHttpResponse(ex: Exchange) returns (r: Result<(), Fault>, ghost headEnd: nat)
    requires ex.Valid()
    modifies ex.server`requestLines, ex.server`isRequestLinesRead, ex.server`isClosed, ex.server`invoked, ex.server`headers
    modifies ex.server.socket`pos, ex.server.socket`closed, ex.server.socket`endReads, ex.server.socket`requests
    modifies ex.client.socket`output
    ensures ex.Valid()
    ensures old(ex.server.isRequestLinesRead) ==>
              ex.server.requestLines == old(ex.server.requestLines) && headEnd == old(ex.server.socket.pos)
    ensures !old(ex.server.isRequestLinesRead) && !old(ex.server.socket.closed) ==>
              var p := ParseHead(old(ex.server.socket.Remaining()), true, ex.server.socket.failsAtEnd);
              && headEnd == old(ex.server.socket.pos) + p.consumed
              && (p.Parsed? ==> ex.server.requestLines == Some(p.lines))
              && (p.Failed? ==> !ex.server.isRequestLinesRead)
    ensures !ex.server.isRequestLinesRead ==>
              ex.client.socket.output == old(ex.client.socket.output) && (r == Ok(()) || r == Err(IoFault) || r == Err(CallbackFailure))
    ensures ex.server.isRequestLinesRead ==>
              && headEnd <= ex.server.socket.pos
              && ResponseRelayed(ex.server.requestLines.value, ex.server.socket, headEnd, ex.client.socket, old(ex.client.socket.output), r)
  {
    var read := ex.server.ReadRequestLines();
    headEnd := ex.server.socket.pos;
    if read.Err? {
      return Err(read.error), headEnd;
    }
    if !read.value {
      return Ok(()), headEnd;
    }
    r := RelayResponse(ex);
  }

  /**
   * What the client receives once the server's head `lines` was read and the server's body starts
   * at `headEnd`: the length is computed before anything is written, so when it fails or the
   * client is closed nothing is written; otherwise the head and then the body bytes.
   */
  ghost predicate ResponseRelayed(lines: seq<string>, source: Socket, headEnd: nat, target: Socket, before: seq<Byte>, r: Result<(), Fault>)
    reads source, target
  {
    && headEnd <= source.pos <= |source.input|
    && var length := ContentLengthFor(lines, source.closed, source.AvailableAt(headEnd));
       && (length.Err? || target.closed ==>
             r == Err(if length.Err? then length.error else IoFault) && target.output == before && source.pos == headEnd)
       && (length.Ok? && !target.closed ==>
             target.output == before + EncodeHead(lines) + source.input[headEnd..source.pos]
             && BodyRelayed(length, source, headEnd, r))
  }

  /** HttpProtocolUtils.java:149-168, after the server's head was read. */
  method RelayResponse(ex: Exchange) returns (r: Result<(), Fault>)
    requires ex.Valid() && ex.server.isRequestLinesRead
    modifies ex.server`headers, ex.server.socket`pos, ex.server.socket`endReads, ex.server.socket`requests
    modifies ex.client.socket`output
    ensures ex.Valid() && ex.server.requestLines == old(ex.server.requestLines)
    ensures ResponseRelayed(ex.server.requestLines.value, ex.server.socket, old(ex.server.socket.pos), ex.client.socket, old(ex.client.socket.output), r)
  {
    var client := ex.client;
    var server := ex.server;
    var length := server.GetContentLength();
    if length.Err? {
      return Err(length.error);
    }
    var lines := server.GetRequestLines();
    if client.socket.closed {
      return Err(IoFault);
    }
    var _ := client.socket.Write(EncodeHead(lines));
    var ok := CopyBody(server.socket, client.socket, length.value);
    return if ok then Ok(()) else Err(IoFault);
  }
}
