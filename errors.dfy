/** The exceptions that leave the modelled operations, grouped by how callers treat them. */
module Errors {

  datatype Fault =
    /** `IOException`: a read, write or `getInputStream` on a closed or failing socket. */
    | IoFault
    /** `ArrayIndexOutOfBoundsException` from `getHeaders` on a header line without a value. */
    | MalformedHeaderLine
    /** `NumberFormatException` from `Integer.parseInt` on the `Content-Length` value. */
    | NumberFormat
    /** A runtime exception thrown by a close callback registered on a connection. */
    | CallbackFailure
    /** `IllegalArgumentException`: a TLS route without a certificate alias and no default alias. */
    | IllegalArgument
    /** `IllegalStateException`: no SNI host name in a handshake, or no certificate for its host. */
    | IllegalState
}
