/** Constants of constants/General.java and Java's 32-bit `int` arithmetic. */
module General {

  const DEFAULT_HTTP_PORT := 80
  const DEFAULT_HTTPS_PORT := 443
  const DEFAULT_CLIENT_SO_TIMEOUT_MILLIS := 2000
  const DEFAULT_CONNECTION_TIMEOUT_SECONDS := 600
  /** Size of the relay buffer; transfers never ask a socket for more bytes than this at once. */
  const READ_BUFFER_SIZE := 8196
  const DEFAULT_THREAD_POOL_SIZE := 20
  const MIN_THREAD_POOL_SIZE := 3
  const DEFAULT_KEYSTORE_FILE_NAME := "self-signed.keystore"

  const MIN_INT := -0x8000_0000
  const MAX_INT := 0x7FFF_FFFF

  /** Values of Java's `int`. */
  type Int32 = x: int | MIN_INT <= x <= MAX_INT

  /** Two's-complement wrap-around of a mathematical integer into `int`. */
  function Wrap(x: int): (r: Int32)
    ensures MIN_INT <= x <= MAX_INT ==> r == x
    ensures x == MAX_INT + 1 ==> r == MIN_INT
    ensures (x - r) % 0x1_0000_0000 == 0
  {
    (x - MIN_INT) % 0x1_0000_0000 + MIN_INT
  }

  function Min(a: int, b: int): (r: int)
    ensures r <= a && r <= b && (r == a || r == b)
  {
    if a <= b then a else b
  }
}
