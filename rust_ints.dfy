/** Rust's fixed-width integer types and the two casts that the drawing
    primitives rely on: `v as u8` (keep the low 8 bits) and `v as i32`
    (two's-complement truncation), plus the release-mode wrapping `i32`
    addition used for the square's cell coordinates. */
module RustInts {

  const U8_LIMIT := 0x100
  const U32_LIMIT := 0x1_0000_0000
  const U32_MAX := 0xFFFF_FFFF
  const I32_MIN := -0x8000_0000
  const I32_MAX := 0x7FFF_FFFF

  type u8 = x: int | 0 <= x < 0x100
  type u32 = x: int | 0 <= x < 0x1_0000_0000
  type i32 = x: int | -0x8000_0000 <= x < 0x8000_0000
  type i64 = x: int | -0x8000_0000_0000_0000 <= x < 0x8000_0000_0000_0000

  /** `v as u8`: the unique byte congruent to `v` modulo 256 (wraparound,
      never saturation). */
  function AsU8(v: i64): (r: u8)
    ensures (v - r) % U8_LIMIT == 0
    ensures 0 <= v < U8_LIMIT ==> r == v
  {
    v % U8_LIMIT
  }

  /** `v as i32`: the unique `i32` congruent to `v` modulo 2^32. */
  function AsI32(v: i64): (r: i32)
    ensures (v - r) % U32_LIMIT == 0
    ensures I32_MIN <= v <= I32_MAX ==> r == v
  {
    var low := v % U32_LIMIT;
    if low <= I32_MAX then low else low - U32_LIMIT
  }

  /** `a + b` on `i32` as a release build computes it: the sum, wrapped
      into the `i32` range. */
  function WrappingAddI32(a: i32, b: i32): (r: i32)
    ensures (a + b - r) % U32_LIMIT == 0
    ensures I32_MIN <= a + b <= I32_MAX ==> r == a + b
    ensures a + b > I32_MAX ==> r == a + b - U32_LIMIT
  {
    AsI32(a + b)
  }

  /** Truncation to a byte is periodic: adding any multiple of 256 to a
      channel value gives the same colour byte. */
  lemma AsU8Periodic(v: i64, k: int)
    requires -0x8000_0000_0000_0000 <= v + k * U8_LIMIT < 0x8000_0000_0000_0000
    ensures AsU8(v + k * U8_LIMIT) == AsU8(v)
  {
  }

  /** The out-of-range channel values wrap around instead of saturating:
      256 becomes 0, 300 becomes 44 and -1 becomes 255. */
  lemma AsU8WrapsAround()
    ensures AsU8(256) == 0 && AsU8(300) == 44 && AsU8(-1) == 255
  {
  }

  /** `as i32` keeps the coordinates that already fit and wraps the rest:
      2^31 becomes i32::MIN and -2^31 - 1 becomes i32::MAX. */
  lemma AsI32Wraps()
    ensures AsI32(0x8000_0000) == I32_MIN
    ensures AsI32(-0x8000_0001) == I32_MAX
    ensures AsI32(0x1_0000_0005) == 5
  {
  }
}
