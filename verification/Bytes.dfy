/** Bytes as the numbers 0 to 255. */
module Bytes {
  type Byte = b: int | 0 <= b < 256
}
