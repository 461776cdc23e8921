/** api/server/Scheme.java: which transports a route accepts. */
module Schemes {

  /** The three constants of the enum; a connection is described by whether it is TLS. */
  datatype Scheme = HTTP | HTTPS | ALL

  /** The validator each constant carries (Scheme.java:11-13, applied at :19-21). */
  predicate IsCompatibleWith(s: Scheme, isSsl: bool)
  {
    match s
    case HTTP => !isSsl
    case HTTPS => isSsl
    case ALL => true
  }

  /** The `isSSLCompatible` flag: false only for HTTP. It holds exactly when the scheme accepts a TLS connection. */
  predicate IsSslCompatible(s: Scheme)
    ensures IsSslCompatible(s) <==> IsCompatibleWith(s, true)
  {
    s != HTTP
  }

  /** HTTP and HTTPS split the connections between them, and ALL accepts whatever either accepts. */
  lemma CompatibilityPartition(isSsl: bool)
    ensures IsCompatibleWith(HTTP, isSsl) != IsCompatibleWith(HTTPS, isSsl)
    ensures IsCompatibleWith(ALL, isSsl)
    ensures IsCompatibleWith(HTTP, isSsl) <==> !isSsl
    ensures IsCompatibleWith(HTTPS, isSsl) <==> isSsl
  {
  }

  /** The flag tells which schemes can be served over TLS at all: some TLS connection is accepted iff the flag is set. */
  lemma SslCompatibleMeansSomeTlsConnection(s: Scheme)
    ensures IsSslCompatible(s) <==> exists isSsl: bool :: isSsl && IsCompatibleWith(s, isSsl)
  {
    if IsSslCompatible(s) {
      assert IsCompatibleWith(s, true);
    }
  }
}
