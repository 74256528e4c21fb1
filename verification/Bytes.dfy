/** Bytes, as unsigned 8-bit numbers. */
module Bytes {
  newtype Byte = b: int | 0 <= b < 256
}
