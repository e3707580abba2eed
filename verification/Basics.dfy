/** Machine types that several modules share. */
module Basics {
  type byte = x: int | 0 <= x < 256
  type u32 = x: int | 0 <= x < 0x1_0000_0000

  /** The end of a C string. */
  const NUL: char := '\0'
}
