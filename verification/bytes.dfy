/** Octets, as produced by a text encoding and consumed by a binary-to-text codec. */
module Bytes {

  type Byte = b: int | 0 <= b < 256
}
