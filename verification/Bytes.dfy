/** Octets, as assemblers emit them and memories hold them. */
module Bytes {
  type Byte = b: int | 0 <= b < 256
}
