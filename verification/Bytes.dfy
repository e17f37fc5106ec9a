/** The unit that block files, page frames and packets are made of. */
module Bytes {
  newtype byte = x: int | 0 <= x < 0x100
}
