/**
  The C integer types the sources rely on, at their widths on the LP64
  platforms the code targets: `int` is 32 bits, `int64_t` is 64 bits, and
  `unsigned long` is 64 bits, as is `size_t`, which is `unsigned long` there.
*/
module CTypes {

  /** 2^31: one more than the largest `int`. */
  const IntLimit: int := 0x8000_0000

  /** A C `int`. */
  newtype Int32 = x: int | -IntLimit <= x < IntLimit

  /** A C `int64_t`. */
  newtype Int64 = x: int | -0x8000_0000_0000_0000 <= x < 0x8000_0000_0000_0000

  /** 2^64: one more than the largest `unsigned long` and `size_t`. */
  const ULongLimit: int := 0x1_0000_0000_0000_0000

  /** A C `unsigned long`, kept as a bounded integer. */
  type ULong = x: int | 0 <= x < ULongLimit
}
