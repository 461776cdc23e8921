/**
 * The header half of util/HttpProtocolUtils.java: `getHeaders` (:83-91), which splits every line
 * after the first on the regular expression `:\s+`, and the two lookups built on the resulting
 * map, `getContentLength` (:93-99) and `getHost` (:101-107).
 *
 * `String.split` and `Integer.parseInt` are library code; they are modelled here as the functions
 * `Split` and `ParseInt`, following the documented behaviour of the Java library.
 */
module HttpHeaders {
  import opened Wrappers
  import opened Errors
  import opened General

  // ---------------------------------------------------------------------------------------------
  // `line.split(":\\s+")`

  /** `\s` of java.util.regex: space, tab, line feed, vertical tab, form feed, carriage return. */
  predicate IsSpace(c: char)
  {
    c == ' ' || c == '\t' || c == '\n' || c == '\U{000B}' || c == '\U{000C}' || c == '\r'
  }

  /** A match of `:\s+` starts at `k`: a colon followed by at least one white-space character. */
  predicate SeparatorAt(s: string, k: int)
  {
    0 <= k && k + 1 < |s| && s[k] == ':' && IsSpace(s[k + 1])
  }

  ghost predicate HasSeparator(s: string)
  {
    exists k :: SeparatorAt(s, k)
  }

  /** The start of the leftmost match at or after `from`, as `Matcher.find` reports it. */
  function FindSeparator(s: string, from: nat): (r: Option<nat>)
    ensures r.Some? ==> from <= r.value && SeparatorAt(s, r.value)
    ensures r.Some? ==> forall k :: from <= k < r.value ==> !SeparatorAt(s, k)
    ensures r.None? ==> forall k :: from <= k ==> !SeparatorAt(s, k)
    decreases |s| - from
  {
    if from + 1 >= |s| then None
    else if SeparatorAt(s, from) then Some(from)
    else FindSeparator(s, from + 1)
  }

  /** Where the greedy `\s+` that starts at `j` stops. */
  function SpaceEnd(s: string, j: nat): (e: nat)
    requires j <= |s|
    ensures j <= e <= |s| && (e < |s| ==> !IsSpace(s[e]))
    ensures forall k :: j <= k < e ==> IsSpace(s[k])
    decreases |s| - j
  {
    if j < |s| && IsSpace(s[j]) then SpaceEnd(s, j + 1) else j
  }

  /** The text between successive matches, the text after the last match included. */
  function Pieces(s: string): (p: seq<string>)
    ensures |p| >= 1
    ensures |p| == 1 <==> !HasSeparator(s)
    decreases |s|
  {
    match FindSeparator(s, 0)
    case None => [s]
    case Some(k) =>
      assert SeparatorAt(s, k);
      [s[..k]] + Pieces(s[SpaceEnd(s, k + 1)..])
  }

  /** `split` with limit 0 drops the empty strings at the end of the result. */
  function DropTrailingEmpty(p: seq<string>): (r: seq<string>)
    ensures r <= p
    ensures r != [] ==> r[|r| - 1] != []
    ensures forall k :: |r| <= k < |p| ==> p[k] == []
  {
    if p == [] || p[|p| - 1] != [] then p else DropTrailingEmpty(p[..|p| - 1])
  }

  /** `s.split(":\\s+")`: the whole string when nothing matches, else the pieces without trailing empties. */
  function Split(s: string): seq<string>
  {
    var p := Pieces(s);
    if |p| == 1 then p else DropTrailingEmpty(p)
  }

  /** `headerKeyValuePair[0]` and `headerKeyValuePair[1]`; fewer than two pieces throw. */
  function HeaderFields(line: string): (r: Result<(string, string), Fault>)
    ensures r.Ok? <==> |Split(line)| >= 2
    ensures r.Err? ==> r.error == MalformedHeaderLine
  {
    var p := Split(line);
    if |p| < 2 then Err(MalformedHeaderLine) else Ok((p[0], p[1]))
  }

  // ---------------------------------------------------------------------------------------------
  // getHeaders

  /** `headers.put(key, value)` for each of `lines` in turn, starting from `m`; the first bad line throws. */
  function PutAll(m: map<string, string>, lines: seq<string>): Result<map<string, string>, Fault>
    decreases |lines|
  {
    if lines == [] then Ok(m)
    else
      match HeaderFields(lines[0])
      case Err(e) => Err(e)
      case Ok(kv) => PutAll(m[kv.0 := kv.1], lines[1..])
  }

  /** The map `getHeaders` returns for a request or response head: line 0 is skipped. */
  function Headers(head: seq<string>): Result<map<string, string>, Fault>
  {
    if |head| <= 1 then Ok(map[]) else PutAll(map[], head[1..])
  }

  /** `getHeaders(requestMetadata)`: the loop of HttpProtocolUtils.java:85-88. */
  method GetHeaders(head: seq<string>) returns (r: Result<map<string, string>, Fault>)
    ensures r == Headers(head)
  {
    var headers: map<string, string> := map[];
    ghost var lines := if |head| <= 1 then [] else head[1..];
    var i := 1;
    while i < |head|
      invariant 1 <= i <= |lines| + 1
      invariant Headers(head) == PutAll(headers, lines[i - 1..])
    {
      assert head[i] == lines[i - 1..][0];
      var pair := HeaderFields(head[i]);
      if pair.Err? {
        PutAllFails(headers, lines[i - 1..]);
        return Err(pair.error);
      }
      PutAllStep(headers, lines[i - 1..]);
      assert lines[i - 1..][1..] == lines[i..];
      headers := headers[pair.value.0 := pair.value.1];
      i := i + 1;
    }
    return Ok(headers);
  }

  lemma PutAllFails(m: map<string, string>, lines: seq<string>)
    requires lines != [] && !WellFormed(lines[0])
    ensures PutAll(m, lines) == Err(MalformedHeaderLine)
  {
  }

  // ---------------------------------------------------------------------------------------------
  // getContentLength and getHost

  predicate IsDigit(c: char)
  {
    '0' <= c <= '9'
  }

  /** The value of a string of decimal digits, most significant first. */
  /** Every character of `ds` is a decimal digit. */
  predicate AllDigits(ds: string)
  {
    forall k :: 0 <= k < |ds| ==> IsDigit(ds[k])
  }

  function DigitsValue(ds: string): nat
    requires AllDigits(ds)
    decreases |ds|
  {
    if ds == [] then 0
    else
      var d := ds[|ds| - 1];
      assert IsDigit(d);
      DigitsValue(ds[..|ds| - 1]) * 10 + (d as int - '0' as int)
  }

  /**
   * `Integer.parseInt(s)`: an optional `+` or `-`, then at least one decimal digit, and a value
   * that fits into an `int`; anything else throws `NumberFormatException`.
   */
  function ParseInt(s: string): (r: Result<Int32, Fault>)
    ensures r.Err? ==> r.error == NumberFormat
  {
    var negative := |s| > 0 && s[0] == '-';
    var digits := if |s| > 0 && (s[0] == '-' || s[0] == '+') then s[1..] else s;
    if digits == [] || !AllDigits(digits) then Err(NumberFormat)
    else
      var v: int := if negative then -(DigitsValue(digits) as int) else DigitsValue(digits);
      if MIN_INT <= v <= MAX_INT then Ok(v) else Err(NumberFormat)
  }

  /** `getContentLength`: the parsed `Content-Length` header, else what `available()` reports. */
  function ContentLength(headers: map<string, string>, available: Int32): Result<Int32, Fault>
  {
    if "Content-Length" in headers then ParseInt(headers["Content-Length"]) else Ok(available)
  }

  /** `getHost`: the `Host` header, else the peer's host name. */
  function HostOf(headers: map<string, string>, peerHostName: string): string
  {
    if "Host" in headers then headers["Host"] else peerHostName
  }

  // ---------------------------------------------------------------------------------------------
  // What the header map holds

  /** A header line `getHeaders` accepts: it splits into at least two pieces. */
  predicate WellFormed(line: string)
  {
    |Split(line)| >= 2
  }

  /** The key and value `getHeaders` takes from a header line that has them. */
  function KeyOf(line: string): string
    requires WellFormed(line)
  {
    Split(line)[0]
  }

  function ValueOf(line: string): string
    requires WellFormed(line)
  {
    Split(line)[1]
  }

  /** `getHeaders` throws exactly when some line after the first lacks a key or a value. */
  lemma {:induction false} HeadersFailIff(head: seq<string>)
    ensures Headers(head).Err? <==> exists j :: 1 <= j < |head| && !WellFormed(head[j])
  {
    if |head| > 1 {
      PutAllFailIff(map[], head[1..]);
      if Headers(head).Err? {
        var j :| 0 <= j < |head[1..]| && !WellFormed(head[1..][j]);
        assert !WellFormed(head[j + 1]);
      }
      if exists j :: 1 <= j < |head| && !WellFormed(head[j]) {
        var j :| 1 <= j < |head| && !WellFormed(head[j]);
        assert head[1..][j - 1] == head[j];
      }
    }
  }

  lemma {:induction false} PutAllFailIff(m: map<string, string>, lines: seq<string>)
    ensures PutAll(m, lines).Err? <==> exists j :: 0 <= j < |lines| && !WellFormed(lines[j])
    decreases |lines|
  {
    if lines != [] && WellFormed(lines[0]) {
      var rest := lines[1..];
      PutAllStep(m, lines);
      PutAllFailIff(m[KeyOf(lines[0]) := ValueOf(lines[0])], rest);
      if exists j :: 0 <= j < |lines| && !WellFormed(lines[j]) {
        var j :| 0 <= j < |lines| && !WellFormed(lines[j]);
        assert rest[j - 1] == lines[j];
      }
      if exists j :: 0 <= j < |rest| && !WellFormed(rest[j]) {
        var j :| 0 <= j < |rest| && !WellFormed(rest[j]);
        assert lines[j + 1] == rest[j];
      }
    }
  }

  /**
   * The value under the key of header line `j` is that line's value when no later line has the
   * same key: `HashMap.put` overwrites, so the last line wins.
   */
  lemma HeadersLastWins(head: seq<string>, j: nat)
    requires Headers(head).Ok? && 1 <= j < |head|
    requires forall i :: 1 <= i < |head| ==> WellFormed(head[i])
    requires forall i :: j < i < |head| ==> KeyOf(head[i]) != KeyOf(head[j])
    ensures KeyOf(head[j]) in Headers(head).value
    ensures Headers(head).value[KeyOf(head[j])] == ValueOf(head[j])
  {
    var lines := head[1..];
    forall i | 0 <= i < |lines| ensures WellFormed(lines[i]) {
      assert lines[i] == head[i + 1];
    }
    forall i | j - 1 < i < |lines| ensures KeyOf(lines[i]) != KeyOf(lines[j - 1]) {
      assert lines[i] == head[i + 1];
    }
    PutAllLastWins(map[], lines, j - 1);
  }

  lemma {:induction false} PutAllLastWins(m: map<string, string>, lines: seq<string>, j: nat)
    requires j < |lines| && forall i :: 0 <= i < |lines| ==> WellFormed(lines[i])
    requires forall i :: j < i < |lines| ==> KeyOf(lines[i]) != KeyOf(lines[j])
    ensures PutAll(m, lines).Ok?
    ensures KeyOf(lines[j]) in PutAll(m, lines).value
    ensures PutAll(m, lines).value[KeyOf(lines[j])] == ValueOf(lines[j])
    decreases |lines|
  {
    var m' := m[KeyOf(lines[0]) := ValueOf(lines[0])];
    var rest := lines[1..];
    PutAllStep(m, lines);
    if j == 0 {
      forall i | 0 <= i < |rest| ensures WellFormed(rest[i]) && KeyOf(rest[i]) != KeyOf(lines[0]) {
        assert rest[i] == lines[i + 1];
      }
      PutAllKeeps(m', rest, KeyOf(lines[0]));
    } else {
      forall i | 0 <= i < |rest| ensures WellFormed(rest[i]) {
        assert rest[i] == lines[i + 1];
      }
      forall i | j - 1 < i < |rest| ensures KeyOf(rest[i]) != KeyOf(rest[j - 1]) {
        assert rest[i] == lines[i + 1];
      }
      PutAllLastWins(m', rest, j - 1);
    }
  }

  lemma PutAllStep(m: map<string, string>, lines: seq<string>)
    requires lines != [] && WellFormed(lines[0])
    ensures PutAll(m, lines) == PutAll(m[KeyOf(lines[0]) := ValueOf(lines[0])], lines[1..])
  {
  }

  /** Lines that never mention key `k` leave its entry as it was. */
  lemma {:induction false} PutAllKeeps(m: map<string, string>, lines: seq<string>, k: string)
    requires k in m && forall i :: 0 <= i < |lines| ==> WellFormed(lines[i]) && KeyOf(lines[i]) != k
    ensures PutAll(m, lines).Ok? && k in PutAll(m, lines).value && PutAll(m, lines).value[k] == m[k]
    decreases |lines|
  {
    if lines != [] {
      var rest := lines[1..];
      forall i | 0 <= i < |rest| ensures WellFormed(rest[i]) && KeyOf(rest[i]) != k {
        assert rest[i] == lines[i + 1];
      }
      PutAllStep(m, lines);
      PutAllKeeps(m[KeyOf(lines[0]) := ValueOf(lines[0])], rest, k);
    }
  }

  /** Every key of the map is the key of some header line. */
  lemma {:induction false} PutAllKeys(m: map<string, string>, lines: seq<string>, k: string)
    requires PutAll(m, lines).Ok? && k in PutAll(m, lines).value
    ensures k in m || exists i :: 0 <= i < |lines| && WellFormed(lines[i]) && KeyOf(lines[i]) == k
    decreases |lines|
  {
    if lines != [] {
      var rest := lines[1..];
      PutAllOkStep(m, lines);
      PutAllKeys(m[KeyOf(lines[0]) := ValueOf(lines[0])], rest, k);
      if k !in m && k != KeyOf(lines[0]) {
        var i :| 0 <= i < |rest| && WellFormed(rest[i]) && KeyOf(rest[i]) == k;
        assert lines[i + 1] == rest[i];
      }
    }
  }

  /** A fold that succeeds took its first line apart. */
  lemma PutAllOkStep(m: map<string, string>, lines: seq<string>)
    requires lines != [] && PutAll(m, lines).Ok?
    ensures WellFormed(lines[0])
    ensures PutAll(m, lines) == PutAll(m[KeyOf(lines[0]) := ValueOf(lines[0])], lines[1..])
  {
  }

  lemma HeadersKeys(head: seq<string>, k: string)
    requires Headers(head).Ok? && k in Headers(head).value
    ensures exists j :: 1 <= j < |head| && WellFormed(head[j]) && KeyOf(head[j]) == k
  {
    PutAllKeys(map[], head[1..], k);
    var i :| 0 <= i < |head[1..]| && WellFormed(head[1..][i]) && KeyOf(head[1..][i]) == k;
    assert head[i + 1] == head[1..][i];
  }

  // ---------------------------------------------------------------------------------------------
  // Header lines as a client writes them

  ghost predicate NoSeparator(s: string)
  {
    forall k :: !SeparatorAt(s, k)
  }

  /**
   * `key + ": " + value` splits back into the key and the value when neither holds a colon
   * followed by white space and the value is non-empty and does not start with white space.
   */
  lemma SplitHeaderLine(key: string, value: string)
    requires NoSeparator(key) && NoSeparator(value) && value != [] && !IsSpace(value[0])
    ensures Split(key + ": " + value) == [key, value]
  {
    var s := key + ": " + value;
    FindInHeaderLine(key, value);
    assert s[..|key|] == key;
    assert SpaceEnd(s, |key| + 1) == |key| + 2 by {
      assert s[|key| + 1] == ' ' && s[|key| + 2] == value[0];
      assert SpaceEnd(s, |key| + 2) == |key| + 2;
    }
    assert s[|key| + 2..] == value;
    assert Pieces(value) == [value];
    assert Pieces(s) == [key, value];
  }

  lemma FindInHeaderLine(key: string, value: string)
    requires NoSeparator(key) && NoSeparator(value) && value != []
    ensures FindSeparator(key + ": " + value, 0) == Some(|key|)
  {
    var s := key + ": " + value;
    assert SeparatorAt(s, |key|);
    forall k | 0 <= k < |key| ensures !SeparatorAt(s, k) {
      if k + 1 < |key| {
        assert s[k] == key[k] && s[k + 1] == key[k + 1];
        assert !SeparatorAt(key, k);
      } else {
        assert s[k + 1] == ':';
      }
    }
    FindFirst(s, 0, |key|);
  }

  /** The search returns the first match when nothing before it matches. */
  lemma {:induction false} FindFirst(s: string, from: nat, k: nat)
    requires from <= k && SeparatorAt(s, k) && forall i :: from <= i < k ==> !SeparatorAt(s, i)
    ensures FindSeparator(s, from) == Some(k)
    decreases k - from
  {
    if from < k {
      FindFirst(s, from + 1, k);
    }
  }

  /** A line without `:` followed by white space is a single piece, so `getHeaders` throws on it. */
  lemma NoSeparatorIsMalformed(line: string)
    requires NoSeparator(line)
    ensures Split(line) == [line] && !WellFormed(line)
  {
  }

  /** A header with nothing after the separator has no value: the trailing empty piece is dropped. */
  lemma EmptyValueIsMalformed(key: string)
    requires NoSeparator(key)
    ensures !WellFormed(key + ": ")
  {
    var s := key + ": ";
    assert SeparatorAt(s, |key|);
    forall k | 0 <= k < |key| ensures !SeparatorAt(s, k) {
      if k + 1 < |key| {
        assert s[k] == key[k] && s[k + 1] == key[k + 1];
        assert !SeparatorAt(key, k);
      } else {
        assert s[k + 1] == ':';
      }
    }
    FindFirst(s, 0, |key|);
    assert SpaceEnd(s, |key| + 1) == |s|;
    assert s[..|key|] == key;
    assert s[|s|..] == [];
    assert Pieces(s) == [key, []];
    assert Split(s) == DropTrailingEmpty([key, []]);
    assert [key, []][..1] == [key];
  }

  // ---------------------------------------------------------------------------------------------
  // Numbers

  /** `Integer.toString(n)` for a non-negative `n`: decimal digits without leading zeros. */
  function NatToString(n: nat): (s: string)
    ensures |s| >= 1 && AllDigits(s)
    decreases n
  {
    if n < 10 then [('0' as int + n) as char] else NatToString(n / 10) + [('0' as int + n % 10) as char]
  }

  function IntToString(n: int): string
  {
    if n < 0 then "-" + NatToString(-n) else NatToString(n)
  }

  lemma {:induction false} DigitsOfNat(n: nat)
    ensures DigitsValue(NatToString(n)) == n
    decreases n
  {
    var s := NatToString(n);
    if n >= 10 {
      DigitsOfNat(n / 10);
      assert s[..|s| - 1] == NatToString(n / 10);
    }
  }

  /** `Integer.parseInt(Integer.toString(n)) == n` for every `int`. */
  lemma ParseIntRoundTrip(n: Int32)
    ensures ParseInt(IntToString(n)) == Ok(n)
  {
    ParseIntOfString(n);
  }

  /** Every `int` goes through `parseInt`, and nothing else does: a value past the range throws. */
  lemma ParseIntRange(n: int)
    requires n < MIN_INT || n > MAX_INT
    ensures ParseInt(IntToString(n)) == Err(NumberFormat)
  {
    ParseIntOfString(n);
  }

  lemma ParseIntOfString(n: int)
    ensures ParseInt(IntToString(n)) == if MIN_INT <= n <= MAX_INT then Ok(n) else Err(NumberFormat)
  {
    if n < 0 {
      ParseNegative(-n);
    } else {
      ParseNonNegative(n);
    }
  }

  lemma ParseNegative(m: nat)
    requires m > 0
    ensures ParseInt("-" + NatToString(m)) == if MIN_INT <= -(m as int) then Ok(-(m as int)) else Err(NumberFormat)
  {
    var s := "-" + NatToString(m);
    DigitsOfNat(m);
    assert s[1..] == NatToString(m);
  }

  lemma ParseNonNegative(m: nat)
    ensures ParseInt(NatToString(m)) == if m <= MAX_INT then Ok(m) else Err(NumberFormat)
  {
    var s := NatToString(m);
    DigitsOfNat(m);
    assert IsDigit(s[0]);
  }

  /** An empty value or one with a character that is not a digit and not a leading sign throws. */
  lemma ParseIntRejects(s: string)
    requires s == [] || s == "-" || s == "+" || (exists k :: 0 < k < |s| && !IsDigit(s[k]))
             || (|s| > 0 && !IsDigit(s[0]) && s[0] != '-' && s[0] != '+')
    ensures ParseInt(s) == Err(NumberFormat)
  {
    if exists k :: 0 < k < |s| && !IsDigit(s[k]) {
      var k :| 0 < k < |s| && !IsDigit(s[k]);
      if s[0] == '-' || s[0] == '+' {
        assert s[1..][k - 1] == s[k];
        assert !AllDigits(s[1..]);
      } else {
        assert !AllDigits(s);
      }
    } else if |s| > 0 && !IsDigit(s[0]) && s[0] != '-' && s[0] != '+' {
      assert !AllDigits(s);
    }
  }

  /**
   * A head whose last `Content-Length` line carries the decimal form of `n` has content
   * length `n`; the other lines only need to be well formed.
   */
  lemma ContentLengthOfHead(head: seq<string>, j: nat, n: Int32, available: Int32)
    requires 1 <= j < |head| && forall i :: 1 <= i < |head| ==> WellFormed(head[i])
    requires KeyOf(head[j]) == "Content-Length" && ValueOf(head[j]) == IntToString(n)
    requires forall i :: j < i < |head| ==> KeyOf(head[i]) != "Content-Length"
    ensures Headers(head).Ok? && ContentLength(Headers(head).value, available) == Ok(n)
  {
    HeadersFailIff(head);
    HeadersLastWins(head, j);
    ParseIntRoundTrip(n);
  }

  /** A head with a `Host` line names that host, the last such line winning; without one the peer's name is used. */
  lemma HostOfHead(head: seq<string>, j: nat, peerHostName: string)
    requires 1 <= j < |head| && forall i :: 1 <= i < |head| ==> WellFormed(head[i])
    requires KeyOf(head[j]) == "Host"
    requires forall i :: j < i < |head| ==> KeyOf(head[i]) != "Host"
    ensures Headers(head).Ok? && HostOf(Headers(head).value, peerHostName) == ValueOf(head[j])
  {
    HeadersFailIff(head);
    HeadersLastWins(head, j);
  }

  lemma HostWithoutHostLine(head: seq<string>, peerHostName: string)
    requires Headers(head).Ok?
    requires forall i :: 1 <= i < |head| && WellFormed(head[i]) ==> KeyOf(head[i]) != "Host"
    ensures HostOf(Headers(head).value, peerHostName) == peerHostName
  {
    if "Host" in Headers(head).value {
      HeadersKeys(head, "Host");
    }
  }
}
