/** Declarations that several components share. */
module Basics {

  datatype Option<+T> = None | Some(value: T)

  /** The most plaintext one record may carry (`SSL3_RT_MAX_PLAIN_LENGTH`). */
  const MAX_PLAIN_LENGTH := 16384

  /** The most messages of one flight (`SSL_MAX_HANDSHAKE_FLIGHT`). */
  const MAX_HANDSHAKE_FLIGHT := 7
}
