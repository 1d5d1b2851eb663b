/** The unit of all streams and files. */
module Bytes {
  type Byte = x: int | 0 <= x < 256
}
