/** What files, segments and buffers are made of. */
module Bytes {
  newtype byte = b: int | 0 <= b < 256
}
