/**
 * An abstract TCP socket. The bytes the peer will ever send are fixed at creation (`input`);
 * reading advances a cursor over them. What is written is appended to `output`.
 * Timeouts and resets are modelled by `failsAtEnd`: reading past the last delivered byte then
 * raises an I/O error instead of reporting end-of-stream.
 */
module Sockets {

  type Byte = b: int | 0 <= b < 256

  /** Outcome of `InputStream.read()`: a byte, `-1`, or an `IOException`. */
  datatype ByteRead = Got(b: Byte) | EndOfStream | ReadFault

  /** Outcome of `InputStream.read(buffer, 0, len)`: some bytes, `-1`, or an `IOException`. */
  datatype ChunkRead = Chunk(bytes: seq<Byte>) | ChunkEnd | ChunkFault

  /** A bulk read as the socket saw it: how many bytes were asked for, at which input position. */
  datatype Request = Request(max: nat, at: nat)

  class Socket {
    const input: seq<Byte>
    /** Whether reading past `input` fails (a read timeout or a reset) rather than reaching end-of-stream. */
    const failsAtEnd: bool
    /** How many bytes of `input` had arrived when the snapshot was taken: what `available()` can see. */
    const arrived: nat
    /** Whether `close()` throws an `IOException` (the socket ends up closed either way). */
    const closeFails: bool
    /** What `getInetAddress().getHostName()` resolves the peer to. */
    const peerHostName: string

    var pos: nat
    var output: seq<Byte>
    var closed: bool
    /** Number of bulk reads that returned `-1`. */
    ghost var endReads: nat
    /** The bulk reads made, in order. */
    ghost var requests: seq<Request>

    ghost predicate Valid()
      reads this
    {
      pos <= |input|
    }

    /** The bytes not read yet. */
    function Remaining(): seq<Byte>
      reads this
      requires Valid()
    {
      input[pos..]
    }

    /** `available()`: the bytes that have arrived and are not read yet, as an `int`. */
    function Available(): (n: nat)
      reads this
      requires Valid()
      ensures n <= |input| - pos && n <= 0x7FFF_FFFF
      ensures arrived <= pos ==> n == 0
    {
      AvailableAt(pos)
    }

    /** What `available()` reports once the cursor is at `at`. */
    function AvailableAt(at: nat): (n: nat)
      reads this
      requires at <= |input|
      ensures n <= |input| - at && n <= 0x7FFF_FFFF
      ensures arrived <= at ==> n == 0
    {
      var waiting := if arrived <= at then 0 else if arrived > |input| then |input| - at else arrived - at;
      if waiting > 0x7FFF_FFFF then 0x7FFF_FFFF else waiting
    }

    constructor (input: seq<Byte>, failsAtEnd: bool, arrived: nat, closeFails: bool, peerHostName: string)
      ensures Valid()
      ensures this.input == input && this.failsAtEnd == failsAtEnd && this.arrived == arrived
      ensures this.closeFails == closeFails && this.peerHostName == peerHostName
      ensures pos == 0 && output == [] && !closed && endReads == 0 && requests == []
    {
      this.input := input;
      this.failsAtEnd := failsAtEnd;
      this.arrived := arrived;
      this.closeFails := closeFails;
      this.peerHostName := peerHostName;
      pos := 0;
      output := [];
      closed := false;
      endReads := 0;
      requests := [];
    }

    /** `read()`: one byte. */
    method Read() returns (r: ByteRead)
      requires Valid()
      modifies this`pos
      ensures Valid()
      ensures closed ==> r == ReadFault && pos == old(pos)
      ensures !closed && old(pos) < |input| ==> r == Got(input[old(pos)]) && pos == old(pos) + 1
      ensures !closed && old(pos) == |input| ==>
                pos == old(pos) && r == (if failsAtEnd then ReadFault else EndOfStream)
    {
      if closed {
        r := ReadFault;
      } else if pos < |input| {
        r := Got(input[pos]);
        pos := pos + 1;
      } else if failsAtEnd {
        r := ReadFault;
      } else {
        r := EndOfStream;
      }
    }

    /**
     * `read(buffer, 0, max)`: blocks until at least one byte is there and returns between 1 and
     * `max` of them; how many is up to the network, so the contract leaves it open.
     */
    method ReadChunk(max: nat) returns (r: ChunkRead)
      requires Valid() && max >= 1
      modifies this`pos, this`endReads, this`requests
      ensures Valid()
      ensures requests == old(requests) + [Request(max, old(pos))]
      ensures closed ==> r == ChunkFault && pos == old(pos) && endReads == old(endReads)
      ensures !closed && old(pos) < |input| ==>
                r.Chunk? && 1 <= |r.bytes| <= max && pos == old(pos) + |r.bytes|
                && r.bytes == input[old(pos)..pos] && endReads == old(endReads)
      ensures !closed && old(pos) == |input| ==>
                pos == old(pos)
                && (if failsAtEnd then r == ChunkFault && endReads == old(endReads)
                    else r == ChunkEnd && endReads == old(endReads) + 1)
    {
      requests := requests + [Request(max, pos)];
      if closed {
        r := ChunkFault;
      } else if pos < |input| {
        var n := if |input| - pos < max then |input| - pos else max;
        r := Chunk(input[pos..pos + n]);
        pos := pos + n;
      } else if failsAtEnd {
        r := ChunkFault;
      } else {
        r := ChunkEnd;
        endReads := endReads + 1;
      }
    }

    /** `getOutputStream().write(bytes)`: fails on a closed socket. */
    method Write(bytes: seq<Byte>) returns (ok: bool)
      modifies this`output
      ensures ok == !closed
      ensures output == if ok then old(output) + bytes else old(output)
    {
      ok := !closed;
      if ok {
        output := output + bytes;
      }
    }

    /** `close()`: the socket is closed afterwards; closing twice is harmless. */
    method Close() returns (ok: bool)
      modifies this`closed
      ensures closed
      ensures ok == (old(closed) || !closeFails)
    {
      ok := closed || !closeFails;
      closed := true;
    }
  }
}
