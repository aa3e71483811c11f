// The fixed-width integers of the C sources, as ranges of the mathematical
// integers. Assigning to one of these types is a proof that the value fits, so
// an expression of type u64 or i64 below is also a proof of no overflow.
// A narrowing cast is written out as a remainder, a right shift as a division
// by a power of two; both round toward minus infinity, as the sources need.
module Machine {
  const TWO8: int := 0x100
  const TWO32: int := 0x1_0000_0000
  const TWO64: int := 0x1_0000_0000_0000_0000

  type u8 = x: int | 0 <= x < 0x100
  type u32 = x: int | 0 <= x < 0x1_0000_0000
  type u64 = x: int | 0 <= x < 0x1_0000_0000_0000_0000
  type i8 = x: int | -0x80 <= x < 0x80
  type i16 = x: int | -0x8000 <= x < 0x8000
  type i32 = x: int | -0x8000_0000 <= x < 0x8000_0000
  type i64 = x: int | -0x8000_0000_0000_0000 <= x < 0x8000_0000_0000_0000
}
