/** Machine integer widths of the 64-bit targets the kernel is built for.
    Dafny integers are unbounded; every width, wrap-around and reinterpreting
    cast the kernel relies on is written out here. */
module Ints {

  const U8_LIMIT: int := 0x100
  const U32_LIMIT: int := 0x1_0000_0000
  const U64_LIMIT: int := 0x1_0000_0000_0000_0000
  const I32_SIGN: int := 0x8000_0000
  const I64_SIGN: int := 0x8000_0000_0000_0000

  type u8 = x: int | 0 <= x < 0x100
  type u32 = x: int | 0 <= x < 0x1_0000_0000
  type u64 = x: int | 0 <= x < 0x1_0000_0000_0000_0000
  type i64 = x: int | -0x8000_0000_0000_0000 <= x < 0x8000_0000_0000_0000

  /** The bit-for-bit reinterpretation `x as i64` of an unsigned 64-bit value. */
  function U64AsI64(x: u64): (r: i64)
    ensures 0 <= r <==> x < I64_SIGN
    ensures (r - x) % U64_LIMIT == 0
  {
    if x < I64_SIGN then x else x - U64_LIMIT
  }

  /** The reinterpretation `x as i32 < 0` of an unsigned 32-bit value: bit 31 is set. */
  predicate NegativeAsI32(x: u32)
  {
    x >= I32_SIGN
  }
}
