// The unit of memory and of disk sectors.
module Bytes {
  type byte = x: int | 0 <= x < 0x100
}
