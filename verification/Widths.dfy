/** The fixed-width numbers of the C code. */
module Widths {
  type Byte = x: int | 0 <= x < 0x100
  type U32 = x: int | 0 <= x < 0x1_0000_0000
}
