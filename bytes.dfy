/** Bytes as they travel on the DIAG interface. */
module Bytes {
  newtype Byte = b: int | 0 <= b < 256
}
