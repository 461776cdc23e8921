# Domain-Router-SSL core in Dafny

This project models the sequential core of Domain-Router-SSL, a reverse proxy that routes HTTP and HTTPS
connections by host name. The model covers:

- the HTTP head codec and body relay (`HttpProtocolUtils`);
- the connection lifecycle (`Connection`) and the exchange close (`Exchange`);
- the routing table and the `process` decision flow (`ConnectionHandlerImpl`), with the scheme compatibility rules (`Scheme`);
- the certificate-alias table and SNI alias selection (`SSLContextBeanConfig`);
- the options defaulting and cache (`OptionsServiceImpl`).

Sockets are abstract:

- What a peer sends is a fixed byte sequence with a read cursor.
- What is written to a peer is an appended byte sequence.
- Sockets have a `closed` flag.
- `failsAtEnd` chooses whether a read at end of stream returns end-of-stream or throws (a reset).
- `closeFails` chooses whether `close()` itself throws.

Java exceptions become `Result` values:

- A caught `IOException` is `IoFault`.
- The runtime exceptions that escape are the other `Fault` constructors.
- `Closeable` callbacks are values that may or may not throw.
- The thread pool is the sequence of tasks `process` submits.

Modules, one per file:

| file | module | models |
|---|---|---|
| `wrappers.dfy` | `Wrappers` | `Option`, `Result` |
| `errors.dfy` | `Errors` | the exceptions the core raises or catches |
| `general.dfy` | `General` | the constants of `General.java`, 32-bit `int` wrap-around |
| `sockets.dfy` | `Sockets` | the abstract socket and its streams |
| `scheme.dfy` | `Schemes` | `Scheme` |
| `http_head.dfy` | `HttpHead` | `parseMetadataLines`, both as a function (`Scan`/`ParseHead`) and as the loop itself (`ParseMetadataLines`); the head formatting of the transfers |
| `http_headers.dfy` | `HttpHeaders` | `getHeaders` (split on `:\s+`, `HashMap.put`), `Integer.parseInt`, `getContentLength`, `getHost` |
| `connection.dfy` | `Connections` | `Connection` as a class; `ScheduleUtils.scheduleConnectionTerminator` |
| `exchange.dfy` | `Exchanges` | `Exchange` and `DestinationDto` |
| `http_relay.dfy` | `HttpRelay` | `transferHttpRequest`, `transferHttpResponse` |
| `options.dfy` | `Configuration` | `Options`, `RouteOption`, `readFromFile` from the parsed options on, `getOptions` |
| `connection_handler.dfy` | `ConnectionHandling` | `init`, destination resolution, `process`, `transferServerResponse`, the task body of `asyncSocketConnection` |
| `ssl_context.dfy` | `SslContext` | `init` (host to alias), `MyKeyManager.getCertAlias` |

Each imperative operation is a method proved against a specification function, for example:

- `ParseMetadataLines` against `ParseHead`;
- `GetHeaders` against `Headers`;
- `ConnectionHandler.Init` against `Table`;
- `SslContextConfig.Init` against `Filled`;
- `ReadFromFile` against `Normalised`.

Lemmas then relate the specification functions to independent reference definitions and inverses.
In `ConnectionHandling`, the reference for a key's destinations is `Entries`. In `SslContext`, the reference for a key's alias is `LastAlias`. The head parser's inverse is `EncodeHead`.

## Model

| member | source | states |
|---|---|---|
| General.Wrap | src/main/java/com/cyecize/gatewayserver/util/HttpProtocolUtils.java:130 | The result is the 32-bit two's-complement value of its argument: in range, and congruent modulo 2^32. |
| Schemes.IsSslCompatible | src/main/java/com/cyecize/gatewayserver/api/server/Scheme.java:11-13 | The `isSSLCompatible` flag holds exactly when the scheme's validator accepts a TLS connection. |
| Schemes.CompatibilityPartition | src/main/java/com/cyecize/gatewayserver/api/server/Scheme.java:11-13 | HTTP accepts exactly the plain connections, HTTPS exactly the TLS ones, and ALL accepts every connection. |
| Schemes.SslCompatibleMeansSomeTlsConnection | src/main/java/com/cyecize/gatewayserver/api/server/Scheme.java:11-13 | The flag is set if and only if some TLS connection is accepted. |
| HttpHead.ParseMetadataLines | src/main/java/com/cyecize/gatewayserver/util/HttpProtocolUtils.java:21-81 | The byte loop returns what `ParseHead` gives for the unread bytes and advances the cursor by exactly the bytes consumed. A closed stream gives a read failure. A CR followed by another byte closes the stream, and a failing close turns that into a read failure. |
| HttpHead.ParsedLinesAreHeadLines | src/main/java/com/cyecize/gatewayserver/util/HttpProtocolUtils.java:34-71 | A successful parse has at least one line, every line non-empty and free of CR and LF. A parse never consumes more than the stream holds. |
| HttpHead.HeadRoundTrip | src/main/java/com/cyecize/gatewayserver/util/HttpProtocolUtils.java:117-121 | For non-empty ASCII lines without CR or LF, parsing the CRLF-joined head plus a blank CRLF line, followed by anything, gives back the lines. The parse stops right after the head, so what follows stays unread. |
| HttpHead.BareLfHeadAccepted | src/main/java/com/cyecize/gatewayserver/util/HttpProtocolUtils.java:50-62 | With bare LF tolerated, a head whose lines end in LF alone parses to its lines and stops after the blank line. |
| HttpHead.BareLfRejected | src/main/java/com/cyecize/gatewayserver/util/HttpProtocolUtils.java:50-55 | Without that tolerance, a bare LF after line `n` of a head, every earlier line ended by CR LF, fails with the new-line-without-return error for line `n`. The bytes up to and including the LF are consumed. |
| HttpHead.ReturnWithoutNewLineRejected | src/main/java/com/cyecize/gatewayserver/util/HttpProtocolUtils.java:34-49 | A CR followed by a byte other than LF after line `n` of a head, every earlier line ended by CR LF, fails with the illegal-character-after-return error for line `n`. Both bytes are consumed. |
| HttpHead.ShortInputIsEmpty | src/main/java/com/cyecize/gatewayserver/util/HttpProtocolUtils.java:73-75 | With bare LF accepted, fewer than two bytes, when the stream then ends, is the "Request is empty" failure. |
| HttpHead.BlankFirstLineIsEmpty | src/main/java/com/cyecize/gatewayserver/util/HttpProtocolUtils.java:33-39 | A head that starts with CR LF counts only one byte, because the looked-ahead LF is not counted, so it is empty. |
| HttpHead.AsWrittenRepeatsLastLine | src/main/java/com/cyecize/gatewayserver/util/HttpProtocolUtils.java:37-41 | The code as written agrees with the corrected parse on failures and on bytes consumed. On successes it differs at most by repeating the last line. |
| HttpHead.AsWrittenDuplicatesExample | src/main/java/com/cyecize/gatewayserver/util/HttpProtocolUtils.java:69-71 | On the bytes `G` CR at end of stream, the code as written returns `["G", "G"]`, while the corrected parse returns `["G"]`. |
| HttpHead.AsWrittenTruncatedHeadRepeats | src/main/java/com/cyecize/gatewayserver/util/HttpProtocolUtils.java:37-41 | The code as written returns the last line twice for every head cut off right after the CR of its last line. |
| HttpHead.TruncatedHeadRoundTrip | src/main/java/com/cyecize/gatewayserver/util/HttpProtocolUtils.java:69-71 | The corrected parse returns every line of such a head exactly once, so the final unterminated line is still returned. |
| HttpHead.UnterminatedHeadRoundTrip | src/main/java/com/cyecize/gatewayserver/util/HttpProtocolUtils.java:69-75 | Lines joined by CR LF, with the stream ending right after the text of the last line, parse back to exactly those lines, all bytes consumed. This holds for the corrected parse and for the code as written. A single line needs at least two characters. |
| HttpHeaders.GetHeaders | src/main/java/com/cyecize/gatewayserver/util/HttpProtocolUtils.java:83-91 | The loop over lines 1.. returns the header map `Headers` defines, or the failure of the first malformed line. |
| HttpHeaders.HeadersFailIff | src/main/java/com/cyecize/gatewayserver/util/HttpProtocolUtils.java:85-87 | `getHeaders` fails if and only if some line after the first lacks a key or a value. Line 0 is never looked at. |
| HttpHeaders.HeadersLastWins | src/main/java/com/cyecize/gatewayserver/util/HttpProtocolUtils.java:87 | A header line that no later line shares a key with has its value in the map, so for duplicate keys the last line wins. |
| HttpHeaders.HeadersKeys | src/main/java/com/cyecize/gatewayserver/util/HttpProtocolUtils.java:85-88 | Every key of the map is the key of some well-formed header line after the first. |
| HttpHeaders.SplitHeaderLine | src/main/java/com/cyecize/gatewayserver/util/HttpProtocolUtils.java:86 | `key + ": " + value` splits back into the key and the value when neither contains a separator and the value does not start with white space. |
| HttpHeaders.NoSeparatorIsMalformed | src/main/java/com/cyecize/gatewayserver/util/HttpProtocolUtils.java:86-87 | A line with no `:` followed by white space is one piece, so indexing its value throws. |
| HttpHeaders.EmptyValueIsMalformed | src/main/java/com/cyecize/gatewayserver/util/HttpProtocolUtils.java:86-87 | A line that ends right after the separator has no value, because `split` drops the trailing empty piece. |
| HttpHeaders.ParseIntRoundTrip | src/main/java/com/cyecize/gatewayserver/util/HttpProtocolUtils.java:95 | `Integer.parseInt` of the decimal form of every `int` gives that `int` back. |
| HttpHeaders.ParseIntRange | src/main/java/com/cyecize/gatewayserver/util/HttpProtocolUtils.java:95 | The decimal form of a value outside the `int` range is a `NumberFormatException`. |
| HttpHeaders.ParseIntRejects | src/main/java/com/cyecize/gatewayserver/util/HttpProtocolUtils.java:95 | The empty string, a lone sign, and a string with a non-digit where a digit must be are all `NumberFormatException`. |
| HttpHeaders.ContentLengthOfHead | src/main/java/com/cyecize/gatewayserver/util/HttpProtocolUtils.java:93-96 | A head whose last `Content-Length` line carries the decimal form of `n` has content length `n`, whatever `available()` says. |
| HttpHeaders.HostOfHead | src/main/java/com/cyecize/gatewayserver/util/HttpProtocolUtils.java:101-104 | A head with a `Host` line names the value of the last such line as its host. |
| HttpHeaders.HostWithoutHostLine | src/main/java/com/cyecize/gatewayserver/util/HttpProtocolUtils.java:101-107 | Without a `Host` line, the host is the peer's host name. |
| Connections.RunIsPrefix | src/main/java/com/cyecize/gatewayserver/api/server/Connection.java:58 | `closeables.forEach(Closeable::close)` runs a prefix of the callbacks in registration order: all of them when none throws, and otherwise up to the first one that throws. |
| Connections.Connection.constructor | src/main/java/com/cyecize/gatewayserver/api/server/Connection.java:42-45 | A new connection is open, has read nothing, has no headers and no callbacks, and keeps its socket and TLS flag. |
| Connections.Connection.Close | src/main/java/com/cyecize/gatewayserver/api/server/Connection.java:47-61 | A closed connection is left alone, which makes close idempotent. Otherwise the socket is closed, any failure there being swallowed, and then the callbacks run. The connection is marked closed only when no callback threw. |
| Connections.Connection.AddCloseable | src/main/java/com/cyecize/gatewayserver/api/server/Connection.java:75-77 | Exactly one callback is appended and the others are unchanged. |
| Connections.Connection.ReadRequestLines | src/main/java/com/cyecize/gatewayserver/api/server/Connection.java:79-100 | Once lines were read, it returns true, consumes nothing and changes nothing. Otherwise the head is parsed with bare LF accepted. A success stores the lines. Any parse failure closes the connection and returns false, or the callback failure if a callback threw. A closed socket is an `IOException`. |
| Connections.Connection.GetRequestLines | src/main/java/com/cyecize/gatewayserver/api/server/Connection.java:102-105 | Callable only after lines were read. What it returns is a head: at least one line, each non-empty and free of CR and LF. |
| Connections.Connection.SetHeaders | src/main/java/com/cyecize/gatewayserver/api/server/Connection.java:118-124 | The result is always the head's header map. It is computed on first use and cached, a kept cache is never replaced, and a failure caches nothing. |
| Connections.Connection.GetHost | src/main/java/com/cyecize/gatewayserver/api/server/Connection.java:107-110 | The `Host` header of the head, else the peer's host name. The header map is cached. |
| Connections.Connection.GetContentLength | src/main/java/com/cyecize/gatewayserver/api/server/Connection.java:112-116 | A malformed header comes first, then the `IOException` of a closed socket, then the `Content-Length` header or `available()`. |
| Connections.ScheduleConnectionTerminator | src/main/java/com/cyecize/gatewayserver/util/ScheduleUtils.java:13-27 | A timeout below 1 registers nothing. Any other timeout appends one callback that does not throw. |
| Exchanges.Exchange.constructor | src/main/java/com/cyecize/gatewayserver/api/connection/Exchange.java:7-18 | The two connections and the destination are set once; they are constants of the object. |
| Exchanges.Exchange.Close | src/main/java/com/cyecize/gatewayserver/api/connection/Exchange.java:28-34 | Both sockets end up closed, the server's too when a callback of the client threw. Each connection runs its callbacks at most once. A second close after a successful one changes nothing. |
| HttpRelay.CopyBody | src/main/java/com/cyecize/gatewayserver/util/HttpProtocolUtils.java:123-135 | If the counter is at most 0, nothing is read. If the source holds the whole body, exactly its first `contentLength` bytes are appended in order, each read asking for `min(8196, what is left)`. If the source ends early, it is drained, and then it either throws or reads end-of-stream until the counter wraps past `Integer.MAX_VALUE`. |
| HttpRelay.TransferHttpRequest | src/main/java/com/cyecize/gatewayserver/util/HttpProtocolUtils.java:113-136 | The server receives the client's head, formatted, before any body byte, followed by exactly the body bytes read. A closed socket throws before anything is read, and a failing length throws before any body byte is read. |
| HttpRelay.TransferHttpResponse | src/main/java/com/cyecize/gatewayserver/util/HttpProtocolUtils.java:141-169 | If the server's head cannot be read, the client receives nothing. Otherwise the client receives the server's head and then its body, relayed as `ResponseRelayed` states. |
| HttpRelay.RelayResponse | src/main/java/com/cyecize/gatewayserver/util/HttpProtocolUtils.java:149-168 | The length is computed before the head is written. If the length fails or the client is closed, nothing is written. |
| Configuration.KeysDistinct | src/main/java/com/cyecize/gatewayserver/api/connection/ConnectionHandlerImpl.java:60-66 | The host names a route serves, its host and then `subdomain + "." + host` for each subdomain, hold no name twice if and only if its subdomain list holds none twice. |
| Configuration.WithScheme | src/main/java/com/cyecize/gatewayserver/api/options/OptionsServiceImpl.java:110-114 | A route without a scheme gets `ALL`. A route with a scheme is untouched. Nothing else of the route changes. |
| Configuration.Normalised | src/main/java/com/cyecize/gatewayserver/api/options/OptionsServiceImpl.java:61-114 | Each missing setting gets its constant from `General.java`. A kill timeout that is missing or below 1 becomes 600. Routes keep their order, each gets `WithScheme`, and missing routes become an empty list. The result is always normal. |
| Configuration.NormalIsFixed | src/main/java/com/cyecize/gatewayserver/api/options/OptionsServiceImpl.java:61-114 | Settings that are already valid are left unchanged. |
| Configuration.NormaliseIdempotent | src/main/java/com/cyecize/gatewayserver/api/options/OptionsServiceImpl.java:61-114 | Normalising twice is the same as normalising once. |
| Configuration.ReadFromFile | src/main/java/com/cyecize/gatewayserver/api/options/OptionsServiceImpl.java:45-117 | The step-by-step setters produce `Normalised` of the parsed options, or of `Options.empty()` when reading or parsing failed. |
| Configuration.DefaultSchemes | src/main/java/com/cyecize/gatewayserver/api/options/OptionsServiceImpl.java:110-114 | The in-place loop gives every route `WithScheme`, keeping the order and the length. |
| Configuration.OptionsService.GetOptions | src/main/java/com/cyecize/gatewayserver/api/options/OptionsServiceImpl.java:24-43 | Every call after the first returns the cached options and leaves the cache alone. The first call caches the normalised options and returns them. |
| ConnectionHandling.TableGet | src/main/java/com/cyecize/gatewayserver/api/connection/ConnectionHandlerImpl.java:53-68 | After `init`, a key holds what it held before, followed by the reference entries `Entries`: route by route in declaration order. |
| ConnectionHandling.TableKeys | src/main/java/com/cyecize/gatewayserver/api/connection/ConnectionHandlerImpl.java:53-68 | A key is in the table after `init` if and only if it was there before or some route serves it. |
| ConnectionHandling.RouteReachable | src/main/java/com/cyecize/gatewayserver/api/connection/ConnectionHandlerImpl.java:60-66 | After `init`, the host and every `sub.host` of each route hold that route's destination. |
| ConnectionHandling.TableAppendOnly | src/main/java/com/cyecize/gatewayserver/api/connection/ConnectionHandlerImpl.java:60-66 | The entries of the first `n` routes are a prefix of a key's list, so destinations appear in declaration order. |
| ConnectionHandling.FirstCompatible | src/main/java/com/cyecize/gatewayserver/api/connection/ConnectionHandlerImpl.java:83-85 | The result is absent if and only if no destination is compatible. Otherwise it is the first compatible one. |
| ConnectionHandling.Resolve | src/main/java/com/cyecize/gatewayserver/api/connection/ConnectionHandlerImpl.java:82-85 | An unknown host resolves to nothing. A result is listed under exactly that key and is compatible with the connection. |
| ConnectionHandling.ResolveAfterInit | src/main/java/com/cyecize/gatewayserver/api/connection/ConnectionHandlerImpl.java:53-85 | Resolving against the table `init` built is the first compatible entry of the reference list. A host that no route serves resolves to nothing. |
| ConnectionHandling.ContainsInfix | src/main/java/com/cyecize/gatewayserver/api/connection/ConnectionHandlerImpl.java:132 | `String.contains` finds a part wherever it sits. |
| ConnectionHandling.ContainsIsInfix | src/main/java/com/cyecize/gatewayserver/api/connection/ConnectionHandlerImpl.java:132 | It finds the part only where it sits: the string is some `a + part + b`. |
| ConnectionHandling.ConnectionHandler.Init | src/main/java/com/cyecize/gatewayserver/api/connection/ConnectionHandlerImpl.java:51-69 | The nested `putIfAbsent`/`add` loops build exactly `Table` of the route options. |
| ConnectionHandling.ConnectionHandler.Process | src/main/java/com/cyecize/gatewayserver/api/connection/ConnectionHandlerImpl.java:72-126 | The terminator is registered first. An unread head returns before routing. An `IOException` closes the client. A head that was read leads to one of three outcomes. An unknown host or no compatible scheme closes the client. A dial failure closes the client. Otherwise both transfer tasks are submitted, in order, for a new exchange with the resolved destination. Only that last case submits tasks. |
| ConnectionHandling.ConnectionHandler.Route | src/main/java/com/cyecize/gatewayserver/api/connection/ConnectionHandlerImpl.java:80-120 | Routing once the head was read: the outcome for each combination of host lookup and dial result. A callback that throws while closing the client escapes. |
| ConnectionHandling.CloseOnIoFault | src/main/java/com/cyecize/gatewayserver/api/connection/ConnectionHandlerImpl.java:145-151 | An `IOException` from a transfer closes the whole exchange and is swallowed. Any other outcome passes through with both connections unchanged. |
| ConnectionHandling.RunRequestTransfer | src/main/java/com/cyecize/gatewayserver/api/connection/ConnectionHandlerImpl.java:110-114 | The request task: the server receives the client's head and body bytes. An `IOException` closes both sockets. |
| ConnectionHandling.TransferServerResponse | src/main/java/com/cyecize/gatewayserver/api/connection/ConnectionHandlerImpl.java:128-138 | After the response is relayed, the exchange is closed unless the `Connection` value is present and contains `keep-alive`. In that case it is handed over to the keep-alive handler, unclosed. A failed transfer throws before the check. |
| ConnectionHandling.RunResponseTransfer | src/main/java/com/cyecize/gatewayserver/api/connection/ConnectionHandlerImpl.java:116-120 | The response task: the exchange ends closed after an `IOException` or a response without keep-alive. |
| SslContext.FailsIff | src/main/java/com/cyecize/gatewayserver/config/SSLContextBeanConfig.java:61-71 | `init` throws if and only if there is no default alias and some TLS route has no alias of its own. |
| SslContext.FilledGet | src/main/java/com/cyecize/gatewayserver/config/SSLContextBeanConfig.java:73-79 | When `init` goes through, a key is bound if and only if it was bound before or a TLS route serves it. It is then bound to the alias of the last such route, the route's own or else the default. A route's host and subdomain names share that alias. |
| SslContext.HttpRoutesBindNothing | src/main/java/com/cyecize/gatewayserver/config/SSLContextBeanConfig.java:62-64 | A key that only plain-HTTP routes serve is left as it was. |
| SslContext.LastAliasSnoc | src/main/java/com/cyecize/gatewayserver/config/SSLContextBeanConfig.java:76-79 | A route added last overrides the earlier alias of every key it serves, when it has an alias. |
| SslContext.SslContextConfig.Init | src/main/java/com/cyecize/gatewayserver/config/SSLContextBeanConfig.java:53-81 | With HTTPS off, the table is unchanged. Otherwise the table is `Filled`, and the result is `IllegalArgumentException` exactly when the filling failed. |
| SslContext.FirstHostName | src/main/java/com/cyecize/gatewayserver/config/SSLContextBeanConfig.java:191-196 | The result is absent if and only if no requested name is a host name. Otherwise it is the ASCII name of the first one. |
| SslContext.KeyManager.GetCertAlias | src/main/java/com/cyecize/gatewayserver/config/SSLContextBeanConfig.java:189-212 | Without a host name, `IllegalStateException`. A bound host gets its alias. An unbound host gets the default alias, or `IllegalStateException` when there is none. |

## Left out

- I/O is abstract:
  - Sockets are byte sequences with a cursor.
  - `available()` is the number of bytes that have arrived and are not read yet, capped at `Integer.MAX_VALUE`. How many bytes have arrived is a per-socket constant.
  - `getInetAddress().getHostName()` is a per-socket `peerHostName`.
  - `new Socket(host, port)` is the `dial` parameter of `Process`.
- `Connection.getConnection()` is not shown in the repository's files. The `Connection` value of a response is a parameter of `TransferServerResponse`.
- Concurrency and timers are not modelled:
  - The pool is the sequence of tasks `process` submits.
  - The scheduled terminator is one callback that does not throw; its firing is not modelled.
  - The keep-alive handler `runKeepAliveConnection` is only the `keptAlive` flag.
  - `updateCurrentTaskName` is not modelled.
- Logging is not modelled, and neither are `Exchange.getName`, `Connection.getHostOrIp` or the exception messages. Malformed-line errors carry their line number only.
- File, environment and JSON reading in `getOptions`/`readFromFile` are not modelled; the parsed options, or their absence, are an input. `General.WORKING_DIRECTORY` is a parameter.
- `buildSSLContext`, keystore loading and the other `X509ExtendedKeyManager` methods are JSSE wrappers and are not part of this model. `getCertAlias` takes the requested server names as a sequence.
- `ConnectionHandling.ConnectionHandler.constructor` and `SslContext.SslContextConfig.constructor` require normalised options, as `OptionsService.getOptions()` supplies them. The `NullPointerException` of a route without a scheme is not modelled. Subdomain lists are never null.
- `Connections.Connection.GetRequestLines`, `SetHeaders`, `GetHost` and `GetContentLength` require the lines to have been read: the source would throw a `NullPointerException` otherwise.
- `HttpHeaders.ParseInt`: only ASCII digits are accepted, not the other Unicode decimal digits `Character.digit` knows.
- `HttpRelay.CopyBody`: the end-of-stream defect is modelled as written. `contentLength -= read` with `read == -1` makes the counter grow until it wraps. `TransferHttpRequest` and `RelayResponse` call it for every body they relay, so both carry the defect. No corrected loop is modelled, because the repository's intent there is not evident.
- `Options` holds only the settings `readFromFile` reads or writes; `DebuggingOptions` is only logged.
- `HttpHead.ParseMetadataLines` and `Connections.Connection.ReadRequestLines` use the corrected treatment of a CR at end of stream (see Findings), not the line the code repeats.
- `EmptyRequestException` is thrown by none of the modelled code, so its catch branch in `readRequestLines` is not modelled separately.

## Findings

| source | as written | input that shows it | evidently intended | confidence | as-written member | corrected member |
|---|---|---|---|---|---|---|
| src/main/java/com/cyecize/gatewayserver/util/HttpProtocolUtils.java:37-41 | At a CR followed by end of stream, the line is appended and the loop breaks without resetting the builder. The check at :69-71 then appends the same line again. | the bytes `G` CR, then end of stream: `["G", "G"]` | each line once: `["G"]` | not executed | HttpHead.AsWrittenDuplicatesExample | HttpHead.TruncatedHeadRoundTrip |
