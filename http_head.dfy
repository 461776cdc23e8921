/**
 * The head codec of util/HttpProtocolUtils.java: `parseMetadataLines` splits the bytes of a socket
 * into head lines, and the transfers format lines back into bytes.
 *
 * `Scan` is the parser's loop as a function of the bytes still to be read; `ParseHead` finishes it.
 * `ParseMetadataLines` is the loop itself, proved equal to `ParseHead`.
 */
module HttpHead {
  import opened Sockets

  const CR: Byte := 13
  const LF: Byte := 10

  predicate IsTerminator(c: char)
  {
    c == '\r' || c == '\n'
  }

  /** What a returned head line looks like: non-empty, without CR or LF. */
  ghost predicate IsHeadLine(line: string)
  {
    |line| > 0 && forall k :: 0 <= k < |line| ==> !IsTerminator(line[k])
  }

  predicate IsAscii(s: string)
  {
    forall k :: 0 <= k < |s| ==> s[k] as int < 0x80
  }

  /** `(char) b`. */
  function ByteChar(b: Byte): char
  {
    b as char
  }

  function Chars(bs: seq<Byte>): (s: string)
    ensures |s| == |bs|
  {
    if bs == [] then [] else [ByteChar(bs[0])] + Chars(bs[1..])
  }

  /** The `CannotParseRequestException`s of `parseMetadataLines`. */
  datatype ParseError =
    | IllegalCharAfterReturn(line: int)
    | NewLineWithoutReturn(line: int)
    | RequestEmpty
    /** An `IOException` while reading, rethrown as a parse failure (HttpProtocolUtils.java:78-79). */
    | ReadFailed

  /** The result and how many bytes the parser took from the stream. */
  datatype ParseResult = Parsed(lines: seq<string>, consumed: nat) | Failed(error: ParseError, consumed: nat)

  /** How the loop ended: `read()` gave -1, a CR was followed by -1, or a terminator followed a terminator. */
  datatype Stop = StreamEnded | ReturnAtEndOfStream | BlankLine

  /** The loop's variables: `metadataBuilder`, `wasNewLine`, `lineNumber`, `readBytesCount`, `metadataLines`. */
  datatype ScanState = ScanState(builder: string, wasNewLine: bool, lineNumber: int, readBytes: nat, lines: seq<string>)

  datatype Scanned = Stopped(state: ScanState, how: Stop, consumed: nat) | Broken(error: ParseError, consumed: nat)

  const Initial := ScanState([], true, 1, 0, [])

  /** What one iteration of the loop does: stop with a result, or go on at a later position. */
  datatype Step = Done(result: Scanned) | Next(at: nat, state: ScanState)

  /** One iteration of the `while` loop of HttpProtocolUtils.java:32-67, reading at position `i`. */
  function ScanStep(s: seq<Byte>, i: nat, allowBareLf: bool, failsAtEnd: bool, st: ScanState): (r: Step)
    requires i <= |s|
    ensures r.Next? ==> i < r.at <= |s|
  {
    if i == |s| then
      Done(if failsAtEnd then Broken(ReadFailed, i) else Stopped(st, StreamEnded, i))
    else
      var b := s[i];
      var counted := st.(readBytes := st.readBytes + 1);
      if b == CR then
        if i + 1 == |s| && failsAtEnd then Done(Broken(ReadFailed, i + 1))
        else if i + 1 == |s| || s[i + 1] == LF then
          var ended := counted.(lineNumber := st.lineNumber + 1);
          var used := if i + 1 == |s| then i + 1 else i + 2;
          if st.wasNewLine then Done(Stopped(ended, BlankLine, used))
          else
            var added := ended.(lines := st.lines + [st.builder]);
            if i + 1 == |s| then Done(Stopped(added, ReturnAtEndOfStream, used))
            else Next(i + 2, added.(builder := [], wasNewLine := true))
        else Done(Broken(IllegalCharAfterReturn(st.lineNumber), i + 2))
      else if b == LF then
        if !allowBareLf then Done(Broken(NewLineWithoutReturn(st.lineNumber), i + 1))
        else
          var ended := counted.(lineNumber := st.lineNumber + 1);
          if st.wasNewLine then Done(Stopped(ended, BlankLine, i + 1))
          else Next(i + 1, ended.(lines := st.lines + [st.builder], builder := [], wasNewLine := true))
      else
        Next(i + 1, counted.(builder := st.builder + [ByteChar(b)], wasNewLine := false))
  }

  /** The whole loop over `s`, from position `i`. */
  function Scan(s: seq<Byte>, i: nat, allowBareLf: bool, failsAtEnd: bool, st: ScanState): Scanned
    requires i <= |s|
    decreases |s| - i
  {
    match ScanStep(s, i, allowBareLf, failsAtEnd, st)
    case Done(r) => r
    case Next(j, next) => Scan(s, j, allowBareLf, failsAtEnd, next)
  }

  /**
   * HttpProtocolUtils.java:69-77 as written: the builder is appended whenever it is non-empty,
   * also when the CR branch has just appended it and left it in place (:40-41).
   */
  function FinishAsWritten(sc: Scanned): ParseResult
  {
    match sc
    case Broken(e, c) => Failed(e, c)
    case Stopped(st, _, c) =>
      var lines := if |st.builder| > 0 then st.lines + [st.builder] else st.lines;
      if st.readBytes < 2 then Failed(RequestEmpty, c) else Parsed(lines, c)
  }

  /** The finishing step with the builder counted once: after a CR at end of stream it was already appended. */
  function Finish(sc: Scanned): ParseResult
  {
    match sc
    case Broken(e, c) => Failed(e, c)
    case Stopped(st, how, c) =>
      var lines := if |st.builder| > 0 && how != ReturnAtEndOfStream then st.lines + [st.builder] else st.lines;
      if st.readBytes < 2 then Failed(RequestEmpty, c) else Parsed(lines, c)
  }

  function ParseHeadAsWritten(s: seq<Byte>, allowBareLf: bool, failsAtEnd: bool): ParseResult
  {
    FinishAsWritten(Scan(s, 0, allowBareLf, failsAtEnd, Initial))
  }

  /** `parseMetadataLines` on a stream whose unread bytes are `s`. */
  function ParseHead(s: seq<Byte>, allowBareLf: bool, failsAtEnd: bool): ParseResult
  {
    Finish(Scan(s, 0, allowBareLf, failsAtEnd, Initial))
  }

  // ---------------------------------------------------------------------------------------------
  // Formatting a head (HttpProtocolUtils.java:117-121, :151-158)

  function Join(lines: seq<string>, sep: string): string
  {
    if lines == [] then [] else if |lines| == 1 then lines[0] else lines[0] + sep + Join(lines[1..], sep)
  }

  /** `String.join("\r\n", lines) + "\r\n" + "\r\n"`. */
  function FormatHead(lines: seq<string>): string
  {
    Join(lines, "\r\n") + "\r\n" + "\r\n"
  }

  /** The UTF-8 bytes of one character, as `getBytes(StandardCharsets.UTF_8)` produces them. */
  function CharUtf8(c: char): (bs: seq<Byte>)
    ensures 1 <= |bs| <= 4
    ensures c as int < 0x80 ==> bs == [c as int]
  {
    var n := c as int;
    if n < 0x80 then [n]
    else if n < 0x800 then [0xC0 + n / 0x40, 0x80 + n % 0x40]
    else if n < 0x1_0000 then [0xE0 + n / 0x1000, 0x80 + (n / 0x40) % 0x40, 0x80 + n % 0x40]
    else [0xF0 + n / 0x4_0000, 0x80 + (n / 0x1000) % 0x40, 0x80 + (n / 0x40) % 0x40, 0x80 + n % 0x40]
  }

  function Utf8(s: string): seq<Byte>
  {
    if s == [] then [] else CharUtf8(s[0]) + Utf8(s[1..])
  }

  /** The bytes written for a head. */
  function EncodeHead(lines: seq<string>): seq<Byte>
  {
    Utf8(FormatHead(lines))
  }

  // ---------------------------------------------------------------------------------------------
  // The loop itself

  /**
   * `parseMetadataLines(inputStream, allowNewLineWithoutReturn)` on the socket's input stream,
   * with the builder counted once at a CR that meets end of stream.
   * A failed `close()` of the stream after an illegal character becomes a read failure, as the
   * `catch (IOException)` at :78 turns it into one.
   */
  method ParseMetadataLines(sock: Socket, allowBareLf: bool) returns (r: ParseResult)
    requires sock.Valid()
    modifies sock`pos, sock`closed
    ensures sock.Valid()
    ensures old(sock.closed) ==> r == Failed(ReadFailed, 0) && sock.pos == old(sock.pos) && sock.closed
    ensures !old(sock.closed) ==>
              var p := ParseHead(old(sock.Remaining()), allowBareLf, sock.failsAtEnd);
              && r == (if p.Failed? && p.error.IllegalCharAfterReturn? && sock.closeFails then Failed(ReadFailed, p.consumed) else p)
              && sock.closed == (p.Failed? && p.error.IllegalCharAfterReturn?)
    ensures sock.pos == old(sock.pos) + r.consumed
  {
    if sock.closed {
      return Failed(ReadFailed, 0);
    }
    ghost var s := sock.Remaining();
    var p0 := sock.pos;
    var st := Initial;
    while true
      invariant sock.Valid() && !sock.closed && p0 <= sock.pos && s == sock.input[p0..]
      invariant Scan(s, 0, allowBareLf, sock.failsAtEnd, Initial)
                == Scan(s, sock.pos - p0, allowBareLf, sock.failsAtEnd, st)
      decreases |sock.input| - sock.pos
    {
      var pass := LoopBody(sock, allowBareLf, s, p0, st);
      match pass
      case Quit(failed) =>
        return failed;
      case Leave(last, how) =>
        var lines := if |last.builder| > 0 && how != ReturnAtEndOfStream then last.lines + [last.builder] else last.lines;
        if last.readBytes < 2 {
          return Failed(RequestEmpty, sock.pos - p0);
        }
        return Parsed(lines, sock.pos - p0);
      case Again(next) =>
        st := next;
    }
  }

  /** What one pass of the loop body leaves: the loop goes on, the loop ends, or the method returns. */
  datatype Pass = Again(state: ScanState) | Leave(state: ScanState, how: Stop) | Quit(result: ParseResult)

  /**
   * One pass of the `while` loop of HttpProtocolUtils.java:27-67 on the loop's variables `st`,
   * reading from the socket, proved to be the step `ScanStep` on the unread bytes `s` that the
   * loop started from at position `p0`.
   */
  method LoopBody(sock: Socket, allowBareLf: bool, ghost s: seq<Byte>, p0: nat, st: ScanState) returns (pass: Pass)
    requires sock.Valid() && !sock.closed && p0 <= sock.pos && s == sock.input[p0..]
    modifies sock`pos, sock`closed
    ensures sock.Valid() && p0 <= sock.pos
    ensures match ScanStep(s, old(sock.pos) - p0, allowBareLf, sock.failsAtEnd, st)
            case Next(j, next) => pass == Again(next) && sock.pos == p0 + j && !sock.closed
            case Done(Stopped(last, how, c)) => pass == Leave(last, how) && sock.pos == p0 + c && !sock.closed
            case Done(Broken(e, c)) =>
              && sock.pos == p0 + c && sock.closed == e.IllegalCharAfterReturn?
              && pass == Quit(if e.IllegalCharAfterReturn? && sock.closeFails then Failed(ReadFailed, c) else Failed(e, c))
  {
    ghost var i := sock.pos - p0;
    var b := sock.Read();
    if b.ReadFault? {
      return Quit(Failed(ReadFailed, sock.pos - p0));
    }
    if b.EndOfStream? {
      return Leave(st, StreamEnded);
    }
    assert s[i] == b.b;
    var counted := st.(readBytes := st.readBytes + 1);
    if b.b == CR {
      var next := sock.Read();
      if next.ReadFault? {
        return Quit(Failed(ReadFailed, sock.pos - p0));
      }
      if next.EndOfStream? || next.b == LF {
        var ended := counted.(lineNumber := st.lineNumber + 1);
        if st.wasNewLine {
          return Leave(ended, BlankLine);
        }
        var added := ended.(lines := st.lines + [st.builder]);
        if next.EndOfStream? {
          return Leave(added, ReturnAtEndOfStream);
        }
        return Again(added.(builder := [], wasNewLine := true));
      }
      var closedOk := sock.Close();
      if !closedOk {
        return Quit(Failed(ReadFailed, sock.pos - p0));
      }
      return Quit(Failed(IllegalCharAfterReturn(st.lineNumber), sock.pos - p0));
    }
    if b.b == LF {
      if !allowBareLf {
        return Quit(Failed(NewLineWithoutReturn(st.lineNumber), sock.pos - p0));
      }
      var ended := counted.(lineNumber := st.lineNumber + 1);
      if st.wasNewLine {
        return Leave(ended, BlankLine);
      }
      return Again(ended.(lines := st.lines + [st.builder], builder := [], wasNewLine := true));
    }
    return Again(counted.(builder := st.builder + [ByteChar(b.b)], wasNewLine := false));
  }

  // ---------------------------------------------------------------------------------------------
  // What a successful parse returns

  /** The shape of the loop's variables between iterations. */
  ghost predicate Coherent(st: ScanState)
  {
    && (st.wasNewLine <==> st.builder == [])
    && (forall k :: 0 <= k < |st.builder| ==> !IsTerminator(st.builder[k]))
    && (forall j :: 0 <= j < |st.lines| ==> IsHeadLine(st.lines[j]))
  }

  lemma ByteCharValue(b: Byte)
    ensures ByteChar(b) as int == b
    ensures IsTerminator(ByteChar(b)) <==> b == CR || b == LF
  {
  }

  /** The loop's variables as they can be before an iteration. */
  ghost predicate Reachable(st: ScanState)
  {
    Coherent(st) && (st.lines == [] && st.builder == [] ==> st.readBytes == 0)
  }

  /** What a stopped loop leaves behind for the finishing step. */
  ghost predicate StoppedWell(r: Scanned)
  {
    r.Stopped? ==>
      && Coherent(r.state)
      && (r.state.readBytes >= 2 ==> r.state.lines != [] || r.state.builder != [])
      && (r.how == ReturnAtEndOfStream ==>
            r.state.lines != [] && r.state.builder != []
            && r.state.lines[|r.state.lines| - 1] == r.state.builder)
  }

  lemma StepCoherent(s: seq<Byte>, i: nat, allowBareLf: bool, failsAtEnd: bool, st: ScanState)
    requires i <= |s| && Reachable(st)
    ensures match ScanStep(s, i, allowBareLf, failsAtEnd, st)
            case Done(r) => i <= r.consumed <= |s| && StoppedWell(r)
            case Next(_, next) => Reachable(next)
  {
    if i < |s| && s[i] != CR && s[i] != LF {
      ByteCharValue(s[i]);
      var b := st.builder + [ByteChar(s[i])];
      forall k | 0 <= k < |b| ensures !IsTerminator(b[k]) {
        if k < |st.builder| { assert b[k] == st.builder[k]; }
      }
    }
  }

  lemma {:induction false} ScanCoherent(s: seq<Byte>, i: nat, allowBareLf: bool, failsAtEnd: bool, st: ScanState)
    requires i <= |s| && Reachable(st)
    ensures var r := Scan(s, i, allowBareLf, failsAtEnd, st); i <= r.consumed <= |s| && StoppedWell(r)
    decreases |s| - i
  {
    StepCoherent(s, i, allowBareLf, failsAtEnd, st);
    match ScanStep(s, i, allowBareLf, failsAtEnd, st)
    case Done(_) =>
    case Next(j, next) => ScanCoherent(s, j, allowBareLf, failsAtEnd, next);
  }

  /**
   * A successful parse returns at least one line, every line non-empty and free of CR and LF,
   * and never takes more bytes than the stream holds.
   */
  lemma ParsedLinesAreHeadLines(s: seq<Byte>, allowBareLf: bool, failsAtEnd: bool)
    ensures var r := ParseHead(s, allowBareLf, failsAtEnd);
            && r.consumed <= |s|
            && (r.Parsed? ==> |r.lines| >= 1 && forall j :: 0 <= j < |r.lines| ==> IsHeadLine(r.lines[j]))
  {
    ScanCoherent(s, 0, allowBareLf, failsAtEnd, Initial);
  }

  // ---------------------------------------------------------------------------------------------
  // Round trip: a formatted head parses back to its lines and leaves what follows unread

  /** `lines`, each followed by the terminator bytes `term`. */
  function TerminatedBytes(lines: seq<string>, term: seq<Byte>): seq<Byte>
  {
    if lines == [] then [] else Utf8(lines[0]) + term + TerminatedBytes(lines[1..], term)
  }

  /** How many bytes the parser counts for `lines` ended by CR LF or by LF (a lookahead LF is not counted). */
  function CountedBytes(lines: seq<string>): nat
  {
    if lines == [] then 0 else |lines[0]| + 1 + CountedBytes(lines[1..])
  }

  /** How many bytes `lines` take, each followed by `term`, when every character is one byte. */
  function FramedLength(lines: seq<string>, term: seq<Byte>): nat
  {
    if lines == [] then 0 else |lines[0]| + |term| + FramedLength(lines[1..], term)
  }

  ghost predicate AsciiHeadLines(lines: seq<string>)
  {
    forall j :: 0 <= j < |lines| ==> IsHeadLine(lines[j]) && IsAscii(lines[j])
  }

  lemma AsciiHeadLinesParts(lines: seq<string>)
    requires lines != [] && AsciiHeadLines(lines)
    ensures IsHeadLine(lines[0]) && IsAscii(lines[0]) && AsciiHeadLines([lines[0]]) && AsciiHeadLines(lines[1..])
  {
    assert [lines[0]][0] == lines[0];
    forall k | 0 <= k < |lines[1..]| ensures IsHeadLine(lines[1..][k]) && IsAscii(lines[1..][k]) {
      assert lines[1..][k] == lines[k + 1];
    }
  }

  /** The bytes `bs` stand in `s` from position `i` on. */
  ghost predicate BytesAt(s: seq<Byte>, i: nat, bs: seq<Byte>)
  {
    i + |bs| <= |s| && forall k :: i <= k < i + |bs| ==> s[k] == bs[k - i]
  }

  /** The one-byte characters of `l` stand in `s` from position `i` on. */
  ghost predicate LineAt(s: seq<Byte>, i: nat, l: string)
  {
    i + |l| <= |s| && forall k :: i <= k < i + |l| ==> s[k] == l[k - i] as int
  }

  /** From position `i`, `s` holds each of `lines` followed by `term`. */
  ghost predicate Framed(s: seq<Byte>, i: nat, lines: seq<string>, term: seq<Byte>)
    decreases |lines|
  {
    && i <= |s|
    && (lines != [] ==>
      && LineAt(s, i, lines[0])
      && BytesAt(s, i + |lines[0]|, term)
      && Framed(s, i + |lines[0]| + |term|, lines[1..], term))
  }

  lemma {:induction false} Utf8Append(a: string, b: string)
    ensures Utf8(a + b) == Utf8(a) + Utf8(b)
  {
    if a != [] {
      assert (a + b)[0] == a[0];
      assert (a + b)[1..] == a[1..] + b;
      Utf8Append(a[1..], b);
      calc {
        Utf8(a + b);
        CharUtf8(a[0]) + Utf8(a[1..] + b);
        CharUtf8(a[0]) + (Utf8(a[1..]) + Utf8(b));
        (CharUtf8(a[0]) + Utf8(a[1..])) + Utf8(b);
      }
    } else {
      assert a + b == b;
    }
  }

  lemma {:induction false} AsciiUtf8(l: string)
    requires IsAscii(l)
    ensures |Utf8(l)| == |l|
    ensures forall k :: 0 <= k < |l| ==> Utf8(l)[k] == l[k] as int
    ensures Chars(Utf8(l)) == l
  {
    if l != [] {
      AsciiUtf8(l[1..]);
      var u := Utf8(l);
      assert u == [l[0] as int] + Utf8(l[1..]);
      assert u[1..] == Utf8(l[1..]);
      assert ByteChar(u[0]) == l[0];
      assert l == [l[0]] + l[1..];
    }
  }

  lemma TerminatorBytes()
    ensures Utf8("\r\n") == [CR, LF] && Utf8("\r") == [CR]
  {
  }

  lemma JoinFirst(lines: seq<string>, sep: string, tail: string)
    requires |lines| >= 2
    ensures Join(lines, sep) + tail == lines[0] + (sep + (Join(lines[1..], sep) + tail))
  {
  }

  lemma {:induction false} JoinTerminated(lines: seq<string>)
    requires |lines| >= 1
    ensures Utf8(Join(lines, "\r\n") + "\r\n") == TerminatedBytes(lines, [CR, LF])
  {
    TerminatorBytes();
    if |lines| == 1 {
      Utf8Append(lines[0], "\r\n");
    } else {
      var rest := Join(lines[1..], "\r\n");
      JoinFirst(lines, "\r\n", "\r\n");
      Utf8Append(lines[0], "\r\n" + (rest + "\r\n"));
      Utf8Append("\r\n", rest + "\r\n");
      JoinTerminated(lines[1..]);
    }
  }

  /** The bytes of a formatted head: every line with CR LF, then the blank CR LF. */
  lemma EncodeHeadBytes(lines: seq<string>)
    requires |lines| >= 1
    ensures EncodeHead(lines) == TerminatedBytes(lines, [CR, LF]) + [CR, LF]
  {
    JoinTerminated(lines);
    Utf8Append(Join(lines, "\r\n") + "\r\n", "\r\n");
    TerminatorBytes();
  }

  /** Bytes standing at `i` include each piece of a concatenation. */
  lemma BytesAtParts(s: seq<Byte>, i: nat, a: seq<Byte>, b: seq<Byte>, c: seq<Byte>)
    requires BytesAt(s, i, a + b + c)
    ensures BytesAt(s, i, a) && BytesAt(s, i + |a|, b) && BytesAt(s, i + |a| + |b|, c)
  {
    var abc := a + b + c;
    forall k | i <= k < i + |a| ensures s[k] == a[k - i] {
      assert abc[k - i] == a[k - i];
    }
    forall k | i + |a| <= k < i + |a| + |b| ensures s[k] == b[k - (i + |a|)] {
      assert abc[k - i] == b[k - (i + |a|)];
    }
    forall k | i + |a| + |b| <= k < i + |a| + |b| + |c| ensures s[k] == c[k - (i + |a| + |b|)] {
      assert abc[k - i] == c[k - (i + |a| + |b|)];
    }
  }

  /** The UTF-8 bytes of an ASCII line are its characters. */
  lemma AsciiBytesAt(s: seq<Byte>, i: nat, l: string)
    requires IsAscii(l) && BytesAt(s, i, Utf8(l))
    ensures |Utf8(l)| == |l| && LineAt(s, i, l)
  {
    AsciiUtf8(l);
  }

  /** Where the terminated ASCII lines stand in `s`, they frame `s`. */
  lemma {:induction false} FramedBytes(s: seq<Byte>, i: nat, lines: seq<string>, term: seq<Byte>)
    requires AsciiHeadLines(lines)
    requires BytesAt(s, i, TerminatedBytes(lines, term))
    ensures Framed(s, i, lines, term)
    ensures |TerminatedBytes(lines, term)| == FramedLength(lines, term)
    decreases |lines|
  {
    if lines != [] {
      var l := lines[0];
      AsciiHeadLinesParts(lines);
      BytesAtParts(s, i, Utf8(l), term, TerminatedBytes(lines[1..], term));
      AsciiBytesAt(s, i, l);
      FramedBytes(s, i + |l| + |term|, lines[1..], term);
    }
  }

  lemma {:induction false} CharsAt(bs: seq<Byte>)
    ensures forall k :: 0 <= k < |bs| ==> Chars(bs)[k] == ByteChar(bs[k])
  {
    if bs != [] {
      CharsAt(bs[1..]);
      assert forall k :: 1 <= k < |bs| ==> bs[1..][k - 1] == bs[k];
    }
  }

  /** The one-byte characters of `l` read back as `l` and hold no terminator. */
  lemma LineAtFacts(s: seq<Byte>, i: nat, l: string)
    requires LineAt(s, i, l) && IsHeadLine(l) && IsAscii(l)
    ensures forall k :: i <= k < i + |l| ==> s[k] != CR && s[k] != LF
    ensures Chars(s[i..i + |l|]) == l
  {
    forall k | i <= k < i + |l| ensures s[k] != CR && s[k] != LF {
      assert !IsTerminator(l[k - i]);
    }
    CharsAt(s[i..i + |l|]);
    forall k | 0 <= k < |l| ensures Chars(s[i..i + |l|])[k] == l[k] {
      assert s[i..i + |l|][k] == s[i + k];
    }
  }

  /** Bytes other than CR and LF only grow the builder. */
  lemma {:induction false} ScanText(s: seq<Byte>, i: nat, n: nat, allowBareLf: bool, failsAtEnd: bool, st: ScanState)
    requires i + n <= |s|
    requires forall k :: i <= k < i + n ==> s[k] != CR && s[k] != LF
    ensures Scan(s, i, allowBareLf, failsAtEnd, st)
            == Scan(s, i + n, allowBareLf, failsAtEnd,
                    st.(builder := st.builder + Chars(s[i..i + n]),
                        wasNewLine := st.wasNewLine && n == 0,
                        readBytes := st.readBytes + n))
    decreases n
  {
    if n == 0 {
      assert st.builder + Chars(s[i..i]) == st.builder;
    } else {
      var next := st.(readBytes := st.readBytes + 1, builder := st.builder + [ByteChar(s[i])], wasNewLine := false);
      ScanText(s, i + 1, n - 1, allowBareLf, failsAtEnd, next);
      assert s[i..i + n][1..] == s[i + 1..i + n];
      assert Chars(s[i..i + n]) == [ByteChar(s[i])] + Chars(s[i + 1..i + n]);
      assert next.builder + Chars(s[i + 1..i + n]) == st.builder + Chars(s[i..i + n]);
    }
  }

  /** One head line followed by its terminator is collected and the loop stands after the terminator. */
  lemma ScanHeadLine(s: seq<Byte>, i: nat, l: string, term: seq<Byte>, allowBareLf: bool, failsAtEnd: bool, st: ScanState)
    requires term == [CR, LF] || (term == [LF] && allowBareLf)
    requires IsHeadLine(l) && IsAscii(l) && LineAt(s, i, l) && BytesAt(s, i + |l|, term)
    requires st.builder == [] && st.wasNewLine
    ensures i + |l| + |term| <= |s|
    ensures Scan(s, i, allowBareLf, failsAtEnd, st)
            == Scan(s, i + |l| + |term|, allowBareLf, failsAtEnd, Advance(st, l))
  {
    var st1 := ScanState(l, false, st.lineNumber, st.readBytes + |l|, st.lines);
    ScanLineText(s, i, l, allowBareLf, failsAtEnd, st);
    TerminatorAt(s, i + |l|, term);
    TerminatedState(st, l);
    ScanTerminator(s, i + |l|, term, allowBareLf, failsAtEnd, st1);
  }

  /** The text of a head line goes into the builder. */
  lemma ScanLineText(s: seq<Byte>, i: nat, l: string, allowBareLf: bool, failsAtEnd: bool, st: ScanState)
    requires IsHeadLine(l) && IsAscii(l) && LineAt(s, i, l)
    requires st.builder == [] && st.wasNewLine
    ensures Scan(s, i, allowBareLf, failsAtEnd, st)
            == Scan(s, i + |l|, allowBareLf, failsAtEnd, ScanState(l, false, st.lineNumber, st.readBytes + |l|, st.lines))
  {
    LineAtFacts(s, i, l);
    TextStateOfLine(st, Chars(s[i..i + |l|]), l);
    ScanText(s, i, |l|, allowBareLf, failsAtEnd, st);
  }

  lemma TerminatorAt(s: seq<Byte>, i: nat, term: seq<Byte>)
    requires term == [CR, LF] || term == [LF]
    requires BytesAt(s, i, term)
    ensures i + |term| <= |s| && s[i] == term[0] && (term == [CR, LF] ==> s[i + 1] == LF)
  {
    assert s[i] == term[0];
    if term == [CR, LF] {
      assert s[i + 1] == term[1];
    }
  }

  lemma TerminatedState(st: ScanState, l: string)
    ensures var st1 := ScanState(l, false, st.lineNumber, st.readBytes + |l|, st.lines);
            ScanState([], true, st1.lineNumber + 1, st1.readBytes + 1, st1.lines + [st1.builder]) == Advance(st, l)
  {
  }

  lemma ScanTerminator(s: seq<Byte>, i: nat, term: seq<Byte>, allowBareLf: bool, failsAtEnd: bool, st: ScanState)
    requires term == [CR, LF] || (term == [LF] && allowBareLf)
    requires i + |term| <= |s| && s[i] == term[0] && (term == [CR, LF] ==> s[i + 1] == LF)
    requires !st.wasNewLine
    ensures Scan(s, i, allowBareLf, failsAtEnd, st)
            == Scan(s, i + |term|, allowBareLf, failsAtEnd,
                    ScanState([], true, st.lineNumber + 1, st.readBytes + 1, st.lines + [st.builder]))
  {
  }

  /** The loop's variables after an accepted line `l` and its terminator. */
  function Advance(st: ScanState, l: string): ScanState
  {
    ScanState([], true, st.lineNumber + 1, st.readBytes + |l| + 1, st.lines + [l])
  }

  /** The loop's variables after each of `lines` in turn. */
  ghost function After(st: ScanState, lines: seq<string>): ScanState
    decreases |lines|
  {
    if lines == [] then st else After(Advance(st, lines[0]), lines[1..])
  }

  /** The position after `lines`, each followed by `term`, starting at `i`. */
  ghost function End(i: nat, lines: seq<string>, term: seq<Byte>): nat
    decreases |lines|
  {
    if lines == [] then i else End(i + |lines[0]| + |term|, lines[1..], term)
  }

  lemma {:induction false} AfterLines(st: ScanState, lines: seq<string>)
    requires st.builder == [] && st.wasNewLine
    ensures After(st, lines)
            == ScanState([], true, st.lineNumber + |lines|, st.readBytes + CountedBytes(lines), st.lines + lines)
    decreases |lines|
  {
    if lines == [] {
      assert st.lines + lines == st.lines;
    } else {
      AfterLines(Advance(st, lines[0]), lines[1..]);
      assert st.lines + [lines[0]] + lines[1..] == st.lines + lines by {
        assert [lines[0]] + lines[1..] == lines;
      }
    }
  }

  lemma {:induction false} FramedEnd(s: seq<Byte>, i: nat, lines: seq<string>, term: seq<Byte>)
    requires Framed(s, i, lines, term)
    ensures End(i, lines, term) <= |s|
    decreases |lines|
  {
    if lines != [] {
      FramedEnd(s, i + |lines[0]| + |term|, lines[1..], term);
    }
  }

  lemma {:induction false} EndLength(i: nat, lines: seq<string>, term: seq<Byte>)
    ensures End(i, lines, term) == i + FramedLength(lines, term)
    decreases |lines|
  {
    if lines != [] {
      EndLength(i + |lines[0]| + |term|, lines[1..], term);
    }
  }

  /** The loop runs over framed lines, one after the other, and stands after the last terminator. */
  lemma {:induction false} ScanFramed(s: seq<Byte>, i: nat, lines: seq<string>, term: seq<Byte>,
                                      allowBareLf: bool, failsAtEnd: bool, st: ScanState)
    requires term == [CR, LF] || (term == [LF] && allowBareLf)
    requires AsciiHeadLines(lines) && Framed(s, i, lines, term)
    requires st.builder == [] && st.wasNewLine && End(i, lines, term) <= |s|
    ensures Scan(s, i, allowBareLf, failsAtEnd, st)
            == Scan(s, End(i, lines, term), allowBareLf, failsAtEnd, After(st, lines))
    decreases |lines|
  {
    if lines != [] {
      ScanFirstFramed(s, i, lines, term, allowBareLf, failsAtEnd, st);
      ScanFramed(s, i + |lines[0]| + |term|, lines[1..], term, allowBareLf, failsAtEnd, Advance(st, lines[0]));
    }
  }

  lemma ScanFirstFramed(s: seq<Byte>, i: nat, lines: seq<string>, term: seq<Byte>,
                        allowBareLf: bool, failsAtEnd: bool, st: ScanState)
    requires term == [CR, LF] || (term == [LF] && allowBareLf)
    requires lines != [] && AsciiHeadLines(lines) && Framed(s, i, lines, term)
    requires st.builder == [] && st.wasNewLine
    ensures AsciiHeadLines(lines[1..]) && Framed(s, i + |lines[0]| + |term|, lines[1..], term)
    ensures Scan(s, i, allowBareLf, failsAtEnd, st)
            == Scan(s, i + |lines[0]| + |term|, allowBareLf, failsAtEnd, Advance(st, lines[0]))
  {
    AsciiHeadLinesParts(lines);
    ScanHeadLine(s, i, lines[0], term, allowBareLf, failsAtEnd, st);
  }

  /** Framed lines followed by one more terminator parse back to those lines. */
  lemma ParseFramed(s: seq<Byte>, lines: seq<string>, term: seq<Byte>, allowBareLf: bool, failsAtEnd: bool)
    requires term == [CR, LF] || (term == [LF] && allowBareLf)
    requires |lines| >= 1 && AsciiHeadLines(lines) && Framed(s, 0, lines, term)
    requires BytesAt(s, FramedLength(lines, term), term)
    ensures ParseHead(s, allowBareLf, failsAtEnd) == Parsed(lines, FramedLength(lines, term) + |term|)
  {
    var n := FramedLength(lines, term);
    var st := ScanState([], true, 1 + |lines|, CountedBytes(lines), lines);
    ScanFromStart(s, lines, term, allowBareLf, failsAtEnd);
    ScanBlankLine(s, n, term, allowBareLf, failsAtEnd, st);
    CountedAtLeastTwo(lines);
  }

  lemma CountedAtLeastTwo(lines: seq<string>)
    requires |lines| >= 1 && AsciiHeadLines(lines)
    ensures CountedBytes(lines) >= 2
  {
    AsciiHeadLinesParts(lines);
  }

  /** Framed lines from the start of the stream. */
  lemma ScanFromStart(s: seq<Byte>, lines: seq<string>, term: seq<Byte>, allowBareLf: bool, failsAtEnd: bool)
    requires term == [CR, LF] || (term == [LF] && allowBareLf)
    requires AsciiHeadLines(lines) && Framed(s, 0, lines, term)
    ensures FramedLength(lines, term) <= |s|
    ensures Scan(s, 0, allowBareLf, failsAtEnd, Initial)
            == Scan(s, FramedLength(lines, term), allowBareLf, failsAtEnd,
                    ScanState([], true, 1 + |lines|, CountedBytes(lines), lines))
  {
    FramedEnd(s, 0, lines, term);
    StartFacts(lines, term);
    ScanFramed(s, 0, lines, term, allowBareLf, failsAtEnd, Initial);
  }

  lemma StartFacts(lines: seq<string>, term: seq<Byte>)
    ensures After(Initial, lines) == ScanState([], true, 1 + |lines|, CountedBytes(lines), lines)
    ensures End(0, lines, term) == FramedLength(lines, term)
  {
    EmptyConcat(lines);
    AfterLines(Initial, lines);
    EndLength(0, lines, term);
  }

  lemma StartsWith(s: seq<Byte>, a: seq<Byte>, rest: seq<Byte>)
    requires s == a + rest
    ensures BytesAt(s, 0, a)
  {
  }

  lemma BytesAtTwo(s: seq<Byte>, i: nat, a: seq<Byte>, b: seq<Byte>)
    requires BytesAt(s, i, a + b)
    ensures BytesAt(s, i, a) && BytesAt(s, i + |a|, b)
  {
    var ab := a + b;
    forall k | i <= k < i + |a| ensures s[k] == a[k - i] {
      assert ab[k - i] == a[k - i];
    }
    forall k | i + |a| <= k < i + |a| + |b| ensures s[k] == b[k - (i + |a|)] {
      assert ab[k - i] == b[k - (i + |a|)];
    }
  }

  lemma EmptyConcat<T>(x: seq<T>)
    ensures [] + x == x
  {
  }

  /** A terminator right after a terminator ends the head; the LF after a CR is looked at, not counted. */
  lemma ScanBlankLine(s: seq<Byte>, i: nat, term: seq<Byte>, allowBareLf: bool, failsAtEnd: bool, st: ScanState)
    requires term == [CR, LF] || (term == [LF] && allowBareLf)
    requires BytesAt(s, i, term) && st.wasNewLine
    ensures Scan(s, i, allowBareLf, failsAtEnd, st)
            == Stopped(st.(readBytes := st.readBytes + 1, lineNumber := st.lineNumber + 1), BlankLine, i + |term|)
  {
    assert s[i] == term[0];
    if term == [CR, LF] {
      assert s[i + 1] == term[1];
    }
  }

  lemma EncodeHeadFacts(lines: seq<string>, rest: seq<Byte>)
    requires |lines| >= 1 && AsciiHeadLines(lines)
    ensures Framed(EncodeHead(lines) + rest, 0, lines, [CR, LF])
    ensures BytesAt(EncodeHead(lines) + rest, FramedLength(lines, [CR, LF]), [CR, LF])
    ensures |EncodeHead(lines)| == FramedLength(lines, [CR, LF]) + 2
  {
    EncodeHeadBytes(lines);
    var s := EncodeHead(lines) + rest;
    var tb := TerminatedBytes(lines, [CR, LF]);
    StartsWith(s, tb + [CR, LF], rest);
    BytesAtTwo(s, 0, tb, [CR, LF]);
    FramedBytes(s, 0, lines, [CR, LF]);
  }

  /** Parsing `String.join("\r\n", lines) + "\r\n\r\n"` followed by anything yields `lines` and stops right after the head. */
  lemma HeadRoundTrip(lines: seq<string>, rest: seq<Byte>, allowBareLf: bool, failsAtEnd: bool)
    requires |lines| >= 1 && AsciiHeadLines(lines)
    ensures ParseHead(EncodeHead(lines) + rest, allowBareLf, failsAtEnd) == Parsed(lines, |EncodeHead(lines)|)
  {
    EncodeHeadFacts(lines, rest);
    ParseFramed(EncodeHead(lines) + rest, lines, [CR, LF], allowBareLf, failsAtEnd);
  }

  lemma LfHeadFacts(lines: seq<string>, rest: seq<Byte>)
    requires |lines| >= 1 && AsciiHeadLines(lines)
    ensures Framed(TerminatedBytes(lines, [LF]) + [LF] + rest, 0, lines, [LF])
    ensures BytesAt(TerminatedBytes(lines, [LF]) + [LF] + rest, FramedLength(lines, [LF]), [LF])
    ensures |TerminatedBytes(lines, [LF])| == FramedLength(lines, [LF])
  {
    var tb := TerminatedBytes(lines, [LF]);
    var s := tb + [LF] + rest;
    BytesAtParts(s, 0, tb, [LF], rest);
    FramedBytes(s, 0, lines, [LF]);
  }

  /** With bare LF tolerated, a head whose lines end in LF alone parses like one ending in CR LF. */
  lemma BareLfHeadAccepted(lines: seq<string>, rest: seq<Byte>, failsAtEnd: bool)
    requires |lines| >= 1 && AsciiHeadLines(lines)
    ensures ParseHead(TerminatedBytes(lines, [LF]) + [LF] + rest, true, failsAtEnd)
            == Parsed(lines, |TerminatedBytes(lines, [LF])| + 1)
  {
    LfHeadFacts(lines, rest);
    ParseFramed(TerminatedBytes(lines, [LF]) + [LF] + rest, lines, [LF], true, failsAtEnd);
  }

  /** The first lines of a head are framed, and then a line is followed by `bs`. */
  /** The layout of a head broken after `init`: the framed lines, `line`, then `bs`. */
  lemma FramedThenLine(s: seq<Byte>, init: seq<string>, line: string, bs: seq<Byte>, rest: seq<Byte>)
    requires AsciiHeadLines(init + [line])
    requires s == TerminatedBytes(init, [CR, LF]) + Utf8(line) + bs + rest
    ensures AsciiHeadLines(init) && IsHeadLine(line) && IsAscii(line)
    ensures Framed(s, 0, init, [CR, LF])
    ensures LineAt(s, FramedLength(init, [CR, LF]), line)
    ensures BytesAt(s, FramedLength(init, [CR, LF]) + |line|, bs)
  {
    SnocAscii(init, line);
    ConcatLayout(s, init, line, bs, rest);
  }

  lemma ConcatLayout(s: seq<Byte>, init: seq<string>, line: string, bs: seq<Byte>, rest: seq<Byte>)
    requires AsciiHeadLines(init) && IsAscii(line)
    requires s == TerminatedBytes(init, [CR, LF]) + Utf8(line) + bs + rest
    ensures Framed(s, 0, init, [CR, LF])
    ensures LineAt(s, FramedLength(init, [CR, LF]), line)
    ensures BytesAt(s, FramedLength(init, [CR, LF]) + |line|, bs)
  {
    var n := FramedLength(init, [CR, LF]);
    TerminatedLength(init, [CR, LF]);
    AsciiUtf8Length(line);
    ConcatAt(s, TerminatedBytes(init, [CR, LF]), Utf8(line), bs, rest, n, n + |line|);
    LayoutAt(s, init, line, bs, n);
  }

  /** Each piece of a concatenation stands at its offset `n`, `m`. */
  lemma ConcatAt(s: seq<Byte>, a: seq<Byte>, b: seq<Byte>, c: seq<Byte>, rest: seq<Byte>, n: nat, m: nat)
    requires s == a + b + c + rest && n == |a| && m == |a| + |b|
    ensures BytesAt(s, 0, a) && BytesAt(s, n, b) && BytesAt(s, m, c)
  {
    StartsWith(s, a + b + c, rest);
    BytesAtParts(s, 0, a, b, c);
  }

  /** Where the pieces stand, `s` is framed by `init` and holds `line`, then `bs`. */
  lemma LayoutAt(s: seq<Byte>, init: seq<string>, line: string, bs: seq<Byte>, n: nat)
    requires AsciiHeadLines(init) && IsAscii(line) && n == FramedLength(init, [CR, LF])
    requires BytesAt(s, 0, TerminatedBytes(init, [CR, LF]))
    requires BytesAt(s, n, Utf8(line)) && BytesAt(s, n + |line|, bs)
    ensures Framed(s, 0, init, [CR, LF]) && LineAt(s, n, line) && BytesAt(s, n + |line|, bs)
  {
    FramedBytes(s, 0, init, [CR, LF]);
    AsciiBytesAt(s, n, line);
  }

  lemma {:induction false} TerminatedLength(lines: seq<string>, term: seq<Byte>)
    requires AsciiHeadLines(lines)
    ensures |TerminatedBytes(lines, term)| == FramedLength(lines, term)
    decreases |lines|
  {
    if lines != [] {
      AsciiHeadLinesParts(lines);
      AsciiUtf8Length(lines[0]);
      TerminatedLength(lines[1..], term);
    }
  }

  lemma AsciiUtf8Length(l: string)
    requires IsAscii(l)
    ensures |Utf8(l)| == |l|
  {
    AsciiUtf8(l);
  }

  lemma SnocAscii(init: seq<string>, line: string)
    requires AsciiHeadLines(init + [line])
    ensures AsciiHeadLines(init) && AsciiHeadLines([line]) && IsHeadLine(line) && IsAscii(line)
  {
    assert (init + [line])[|init|] == line;
    forall j | 0 <= j < |init| ensures IsHeadLine(init[j]) && IsAscii(init[j]) {
      assert (init + [line])[j] == init[j];
    }
  }

  /** With bare LF refused, a line followed by a bare LF breaks the loop on that line. */
  lemma ScanBareLf(s: seq<Byte>, i: nat, line: string, failsAtEnd: bool, st: ScanState)
    requires IsHeadLine(line) && IsAscii(line) && LineAt(s, i, line) && BytesAt(s, i + |line|, [LF])
    requires st.builder == [] && st.wasNewLine
    ensures Scan(s, i, false, failsAtEnd, st) == Broken(NewLineWithoutReturn(st.lineNumber), i + |line| + 1)
  {
    ScanLineText(s, i, line, false, failsAtEnd, st);
    assert s[i + |line|] == LF;
  }

  /** A line followed by CR and a byte other than LF breaks the loop on that line. */
  lemma ScanReturnWithoutNewLine(s: seq<Byte>, i: nat, line: string, b: Byte, allowBareLf: bool, failsAtEnd: bool, st: ScanState)
    requires IsHeadLine(line) && IsAscii(line) && LineAt(s, i, line) && BytesAt(s, i + |line|, [CR, b]) && b != LF
    requires st.builder == [] && st.wasNewLine
    ensures Scan(s, i, allowBareLf, failsAtEnd, st) == Broken(IllegalCharAfterReturn(st.lineNumber), i + |line| + 2)
  {
    ScanLineText(s, i, line, allowBareLf, failsAtEnd, st);
    assert s[i + |line|] == CR && s[i + |line| + 1] == b;
  }

  /** A bare LF after framed lines and one more line, on a stream `s` laid out that way. */
  lemma ParseBareLfAfter(s: seq<Byte>, init: seq<string>, line: string, failsAtEnd: bool)
    requires AsciiHeadLines(init) && IsHeadLine(line) && IsAscii(line) && Framed(s, 0, init, [CR, LF])
    requires LineAt(s, FramedLength(init, [CR, LF]), line) && BytesAt(s, FramedLength(init, [CR, LF]) + |line|, [LF])
    ensures ParseHead(s, false, failsAtEnd) == Failed(NewLineWithoutReturn(|init| + 1), FramedLength(init, [CR, LF]) + |line| + 1)
  {
    ScanFromStart(s, init, [CR, LF], false, failsAtEnd);
    ScanBareLf(s, FramedLength(init, [CR, LF]), line, failsAtEnd, ScanState([], true, 1 + |init|, CountedBytes(init), init));
  }

  /** A CR and a byte other than LF after framed lines and one more line, on a stream `s` laid out that way. */
  lemma ParseReturnAfter(s: seq<Byte>, init: seq<string>, line: string, b: Byte, allowBareLf: bool, failsAtEnd: bool)
    requires AsciiHeadLines(init) && IsHeadLine(line) && IsAscii(line) && Framed(s, 0, init, [CR, LF]) && b != LF
    requires LineAt(s, FramedLength(init, [CR, LF]), line) && BytesAt(s, FramedLength(init, [CR, LF]) + |line|, [CR, b])
    ensures ParseHead(s, allowBareLf, failsAtEnd)
            == Failed(IllegalCharAfterReturn(|init| + 1), FramedLength(init, [CR, LF]) + |line| + 2)
  {
    ScanFromStart(s, init, [CR, LF], allowBareLf, failsAtEnd);
    ScanReturnWithoutNewLine(s, FramedLength(init, [CR, LF]), line, b, allowBareLf, failsAtEnd,
                             ScanState([], true, 1 + |init|, CountedBytes(init), init));
  }

  /**
   * Without that tolerance, a bare LF after any line of a head is a framing error that names
   * that line; the bytes up to the LF are consumed.
   */
  lemma BareLfRejected(init: seq<string>, line: string, rest: seq<Byte>, failsAtEnd: bool)
    requires AsciiHeadLines(init + [line])
    ensures ParseHead(TerminatedBytes(init, [CR, LF]) + Utf8(line) + [LF] + rest, false, failsAtEnd)
            == Failed(NewLineWithoutReturn(|init| + 1), FramedLength(init, [CR, LF]) + |line| + 1)
  {
    var s := TerminatedBytes(init, [CR, LF]) + Utf8(line) + [LF] + rest;
    FramedThenLine(s, init, line, [LF], rest);
    ParseBareLfAfter(s, init, line, failsAtEnd);
  }

  /**
   * A CR followed by any byte other than LF, after any line of a head, is a framing error that
   * names that line; both bytes are consumed.
   */
  lemma ReturnWithoutNewLineRejected(init: seq<string>, line: string, b: Byte, rest: seq<Byte>, allowBareLf: bool, failsAtEnd: bool)
    requires AsciiHeadLines(init + [line]) && b != LF
    ensures ParseHead(TerminatedBytes(init, [CR, LF]) + Utf8(line) + [CR, b] + rest, allowBareLf, failsAtEnd)
            == Failed(IllegalCharAfterReturn(|init| + 1), FramedLength(init, [CR, LF]) + |line| + 2)
  {
    var s := TerminatedBytes(init, [CR, LF]) + Utf8(line) + [CR, b] + rest;
    FramedThenLine(s, init, line, [CR, b], rest);
    ParseReturnAfter(s, init, line, b, allowBareLf, failsAtEnd);
  }

  /** Fewer than two bytes, when the stream then ends, is the "Request is empty" failure, whatever the byte. */
  lemma ShortInputIsEmpty(s: seq<Byte>)
    requires |s| <= 1
    ensures ParseHead(s, true, false) == Failed(RequestEmpty, |s|)
  {
    if |s| == 1 && s[0] != CR && s[0] != LF {
      assert Scan(s, 0, true, false, Initial)
             == Scan(s, 1, true, false, ScanState([ByteChar(s[0])], false, 1, 1, []));
    }
  }

  /** A head that starts with a blank line is empty: the LF after the CR is looked at but not counted. */
  lemma BlankFirstLineIsEmpty(rest: seq<Byte>, allowBareLf: bool, failsAtEnd: bool)
    ensures ParseHead([CR, LF] + rest, allowBareLf, failsAtEnd) == Failed(RequestEmpty, 2)
  {
    var s := [CR, LF] + rest;
    assert s[0] == CR && s[1] == LF;
  }

  // ---------------------------------------------------------------------------------------------
  // The repeated last line of the code as written (HttpProtocolUtils.java:37-41 with :69-71)

  /**
   * The code as written differs from the corrected parse only by repeating the last line, and
   * only when a CR met the end of the stream.
   */
  lemma AsWrittenRepeatsLastLine(s: seq<Byte>, allowBareLf: bool, failsAtEnd: bool)
    ensures var w := ParseHeadAsWritten(s, allowBareLf, failsAtEnd);
            var c := ParseHead(s, allowBareLf, failsAtEnd);
            && w.consumed == c.consumed && w.Failed? == c.Failed?
            && (c.Failed? ==> w.error == c.error)
            && (c.Parsed? ==>
                  w.lines == c.lines || (|c.lines| >= 1 && w.lines == c.lines + [c.lines[|c.lines| - 1]]))
  {
    ScanCoherent(s, 0, allowBareLf, failsAtEnd, Initial);
  }

  /** "G" followed by CR at end of stream: the code as written returns the line twice. */
  lemma AsWrittenDuplicatesExample()
    ensures ParseHeadAsWritten([71, CR], true, false) == Parsed(["G", "G"], 2)
    ensures ParseHead([71, CR], true, false) == Parsed(["G"], 2)
  {
    var s: seq<Byte> := [71, CR];
    var g := ScanState("G", false, 1, 1, []);
    assert ByteChar(71) == 'G';
    assert [] + ['G'] == "G";
    assert ScanStep(s, 0, true, false, Initial) == Next(1, g);
    assert [] + ["G"] == ["G"];
    assert ScanStep(s, 1, true, false, g) == Done(Stopped(ScanState("G", false, 2, 2, ["G"]), ReturnAtEndOfStream, 2));
    assert Scan(s, 0, true, false, Initial) == Scan(s, 1, true, false, g);
    assert ["G"] + ["G"] == ["G", "G"];
  }

  /** Framed lines, then one more line ended by a CR at end of stream. */
  lemma ParseTruncated(s: seq<Byte>, init: seq<string>, last: string, allowBareLf: bool)
    requires AsciiHeadLines(init) && AsciiHeadLines([last]) && Framed(s, 0, init, [CR, LF])
    requires LineAt(s, FramedLength(init, [CR, LF]), last)
    requires |s| == FramedLength(init, [CR, LF]) + |last| + 1 && s[|s| - 1] == CR
    ensures ParseHead(s, allowBareLf, false) == Parsed(init + [last], |s|)
    ensures ParseHeadAsWritten(s, allowBareLf, false) == Parsed(init + [last, last], |s|)
  {
    var n := FramedLength(init, [CR, LF]);
    var st := ScanState([], true, 1 + |init|, CountedBytes(init), init);
    ScanFromStart(s, init, [CR, LF], allowBareLf, false);
    ScanLastAtEnd(s, n, last, allowBareLf, st);
    CountedAtLeast(init);
    assert init + [last] + [last] == init + [last, last];
  }

  lemma ScanLastAtEnd(s: seq<Byte>, n: nat, last: string, allowBareLf: bool, st: ScanState)
    requires AsciiHeadLines([last]) && LineAt(s, n, last) && |s| == n + |last| + 1 && s[|s| - 1] == CR
    requires st.builder == [] && st.wasNewLine
    ensures Scan(s, n, allowBareLf, false, st)
            == Stopped(ScanState(last, false, st.lineNumber + 1, st.readBytes + |last| + 1, st.lines + [last]),
                       ReturnAtEndOfStream, |s|)
  {
    var st1 := ScanState(last, false, st.lineNumber, st.readBytes + |last|, st.lines);
    AsciiHeadLinesParts([last]);
    ScanLineText(s, n, last, allowBareLf, false, st);
    ScanReturnAtEnd(s, n + |last|, allowBareLf, st1);
  }

  lemma TextStateOfLine(st: ScanState, c: string, last: string)
    requires st.builder == [] && st.wasNewLine && c == last && |last| > 0
    ensures st.(builder := st.builder + c, wasNewLine := st.wasNewLine && |last| == 0, readBytes := st.readBytes + |last|)
            == ScanState(last, false, st.lineNumber, st.readBytes + |last|, st.lines)
  {
    assert [] + last == last;
  }

  /** A CR that meets the end of the stream after text ends the head, the line appended. */
  lemma ScanReturnAtEnd(s: seq<Byte>, i: nat, allowBareLf: bool, st: ScanState)
    requires i + 1 == |s| && s[i] == CR && !st.wasNewLine
    ensures Scan(s, i, allowBareLf, false, st)
            == Stopped(st.(readBytes := st.readBytes + 1, lineNumber := st.lineNumber + 1, lines := st.lines + [st.builder]),
                       ReturnAtEndOfStream, |s|)
  {
  }

  lemma {:induction false} CountedAtLeast(lines: seq<string>)
    ensures CountedBytes(lines) >= |lines|
  {
    if lines != [] {
      CountedAtLeast(lines[1..]);
    }
  }

  lemma Assoc4<T>(a: seq<T>, b: seq<T>, c: seq<T>, d: seq<T>)
    ensures a + b + c + d == a + (b + (c + d))
  {
  }

  lemma SnocParts(init: seq<string>, last: string)
    requires init != []
    ensures (init + [last])[0] == init[0] && (init + [last])[1..] == init[1..] + [last]
  {
  }

  /** The bytes of a joined head cut off after a CR: the first line, CR LF, then the rest alike. */
  lemma TruncatedStep(init: seq<string>, last: string)
    requires init != []
    ensures Utf8(Join(init + [last], "\r\n") + "\r")
            == Utf8(init[0]) + ([CR, LF] + Utf8(Join(init[1..] + [last], "\r\n") + "\r"))
  {
    var rest := Join(init[1..] + [last], "\r\n");
    SnocParts(init, last);
    JoinFirst(init + [last], "\r\n", "\r");
    Utf8Append(init[0], "\r\n" + (rest + "\r"));
    Utf8Append("\r\n", rest + "\r");
    TerminatorBytes();
  }

  lemma {:induction false} TruncatedBytes(init: seq<string>, last: string)
    ensures Utf8(Join(init + [last], "\r\n") + "\r") == TerminatedBytes(init, [CR, LF]) + (Utf8(last) + [CR])
    decreases |init|
  {
    if init == [] {
      assert init + [last] == [last];
      TerminatorBytes();
      Utf8Append(last, "\r");
      EmptyConcat(Utf8(last) + [CR]);
    } else {
      TruncatedStep(init, last);
      TruncatedBytes(init[1..], last);
      Assoc4(Utf8(init[0]), [CR, LF], TerminatedBytes(init[1..], [CR, LF]), Utf8(last) + [CR]);
    }
  }

  lemma TruncatedFacts(init: seq<string>, last: string)
    requires AsciiHeadLines(init) && AsciiHeadLines([last])
    ensures var s := Utf8(Join(init + [last], "\r\n") + "\r");
            && Framed(s, 0, init, [CR, LF])
            && LineAt(s, FramedLength(init, [CR, LF]), last)
            && |s| == FramedLength(init, [CR, LF]) + |last| + 1 && s[|s| - 1] == CR
  {
    var tb := TerminatedBytes(init, [CR, LF]);
    var s := Utf8(Join(init + [last], "\r\n") + "\r");
    TruncatedBytes(init, last);
    StartsWith(s, tb, Utf8(last) + [CR]);
    FramedBytes(s, 0, init, [CR, LF]);
    AsciiHeadLinesParts([last]);
    TailLine(s, tb, last);
  }

  /** A line and a CR at the end of `s`, after `a`. */
  lemma TailLine(s: seq<Byte>, a: seq<Byte>, last: string)
    requires IsAscii(last) && s == a + (Utf8(last) + [CR])
    ensures LineAt(s, |a|, last) && |s| == |a| + |last| + 1 && s[|s| - 1] == CR
  {
    AsciiUtf8(last);
    var u := Utf8(last) + [CR];
    forall k | |a| <= k < |a| + |last| ensures s[k] == last[k - |a|] as int {
      assert s[k] == u[k - |a|];
    }
  }

  /** A head cut off right after the CR of its last line yields every line exactly once. */
  lemma TruncatedHeadRoundTrip(init: seq<string>, last: string, allowBareLf: bool)
    requires AsciiHeadLines(init) && AsciiHeadLines([last])
    ensures var s := Utf8(Join(init + [last], "\r\n") + "\r");
            ParseHead(s, allowBareLf, false) == Parsed(init + [last], |s|)
  {
    TruncatedFacts(init, last);
    ParseTruncated(Utf8(Join(init + [last], "\r\n") + "\r"), init, last, allowBareLf);
  }

  /** The code as written returns the last line of such a head twice. */
  lemma AsWrittenTruncatedHeadRepeats(init: seq<string>, last: string, allowBareLf: bool)
    requires AsciiHeadLines(init) && AsciiHeadLines([last])
    ensures var s := Utf8(Join(init + [last], "\r\n") + "\r");
            ParseHeadAsWritten(s, allowBareLf, false) == Parsed(init + [last, last], |s|)
  {
    TruncatedFacts(init, last);
    ParseTruncated(Utf8(Join(init + [last], "\r\n") + "\r"), init, last, allowBareLf);
  }

  // ---------------------------------------------------------------------------------------------
  // A head whose stream ends inside its last line (HttpProtocolUtils.java:69-71)

  lemma UnterminatedBytes(init: seq<string>, last: string)
    ensures Utf8(Join(init + [last], "\r\n")) == TerminatedBytes(init, [CR, LF]) + Utf8(last)
  {
    var j := Join(init + [last], "\r\n");
    var a := Utf8(j);
    var b := TerminatedBytes(init, [CR, LF]) + Utf8(last);
    TruncatedBytes(init, last);
    Utf8Append(j, "\r");
    TerminatorBytes();
    assert a + [CR] == b + [CR];
    assert a == (a + [CR])[..|a|];
    assert b == (b + [CR])[..|b|];
  }

  /** The last line at the end of `s`, after `a`. */
  lemma EndLine(s: seq<Byte>, a: seq<Byte>, last: string)
    requires IsAscii(last) && s == a + Utf8(last)
    ensures LineAt(s, |a|, last) && |s| == |a| + |last|
  {
    AsciiUtf8(last);
    var u := Utf8(last);
    forall k | |a| <= k < |a| + |last| ensures s[k] == last[k - |a|] as int {
      assert s[k] == u[k - |a|];
    }
  }

  lemma UnterminatedFacts(init: seq<string>, last: string)
    requires AsciiHeadLines(init) && AsciiHeadLines([last])
    ensures var s := Utf8(Join(init + [last], "\r\n"));
            && Framed(s, 0, init, [CR, LF])
            && LineAt(s, FramedLength(init, [CR, LF]), last)
            && |s| == FramedLength(init, [CR, LF]) + |last|
  {
    var tb := TerminatedBytes(init, [CR, LF]);
    var s := Utf8(Join(init + [last], "\r\n"));
    UnterminatedBytes(init, last);
    StartsWith(s, tb, Utf8(last));
    FramedBytes(s, 0, init, [CR, LF]);
    AsciiHeadLinesParts([last]);
    EndLine(s, tb, last);
  }

  /** Framed lines, then one more line cut off by the end of the stream. */
  lemma ParseUnterminated(s: seq<Byte>, init: seq<string>, last: string, allowBareLf: bool)
    requires AsciiHeadLines(init) && AsciiHeadLines([last]) && Framed(s, 0, init, [CR, LF])
    requires LineAt(s, FramedLength(init, [CR, LF]), last)
    requires |s| == FramedLength(init, [CR, LF]) + |last|
    requires init != [] || |last| >= 2
    ensures ParseHead(s, allowBareLf, false) == Parsed(init + [last], |s|)
    ensures ParseHeadAsWritten(s, allowBareLf, false) == Parsed(init + [last], |s|)
  {
    var n := FramedLength(init, [CR, LF]);
    var st := ScanState([], true, 1 + |init|, CountedBytes(init), init);
    var st1 := ScanState(last, false, 1 + |init|, CountedBytes(init) + |last|, init);
    ScanFromStart(s, init, [CR, LF], allowBareLf, false);
    AsciiHeadLinesParts([last]);
    ScanLineText(s, n, last, allowBareLf, false, st);
    assert Scan(s, |s|, allowBareLf, false, st1) == Stopped(st1, StreamEnded, |s|);
    if init != [] {
      CountedAtLeastTwo(init);
    }
  }

  /**
   * A head whose stream ends right after the text of its last line, with no CR LF after it,
   * still yields every line once, in the corrected parse and in the code as written alike;
   * a single line needs two bytes not to be the "Request is empty" failure.
   */
  lemma UnterminatedHeadRoundTrip(init: seq<string>, last: string, allowBareLf: bool)
    requires AsciiHeadLines(init) && AsciiHeadLines([last])
    requires init != [] || |last| >= 2
    ensures var s := Utf8(Join(init + [last], "\r\n"));
            && ParseHead(s, allowBareLf, false) == Parsed(init + [last], |s|)
            && ParseHeadAsWritten(s, allowBareLf, false) == Parsed(init + [last], |s|)
  {
    UnterminatedFacts(init, last);
    ParseUnterminated(Utf8(Join(init + [last], "\r\n")), init, last, allowBareLf);
  }
}
