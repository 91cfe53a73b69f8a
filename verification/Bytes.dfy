/** Bytes, as the wifi and image modules use them. */
module Bytes {
  type Byte = x: int | 0 <= x < 256
}
