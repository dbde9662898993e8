/** Octets, as buffers and packets hold them. */
module Bytes {
  type byte = b: int | 0 <= b < 256
}
