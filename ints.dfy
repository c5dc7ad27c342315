/**
 * Rust's fixed-width integer types and the `as` casts between them.
 * Dafny integers are unbounded, so each width is a subset type and each
 * truncating cast is written out as arithmetic modulo a power of two.
 */
module Ints {
  const TWO_8: int := 0x100
  const TWO_16: int := 0x1_0000
  const TWO_31: int := 0x8000_0000
  const TWO_32: int := 0x1_0000_0000
  const TWO_63: int := 0x8000_0000_0000_0000
  const TWO_64: int := 0x1_0000_0000_0000_0000

  type u8 = x: int | 0 <= x < TWO_8
  type u16 = x: int | 0 <= x < TWO_16
  type u32 = x: int | 0 <= x < TWO_32
  type i32 = x: int | -TWO_31 <= x < TWO_31
  type i64 = x: int | -TWO_63 <= x < TWO_63
  /** `usize` on the 64-bit targets the program is built for. */
  type usize = x: int | 0 <= x < TWO_64
  type u64 = x: int | 0 <= x < TWO_64

  /** `x as u32`: keeps the low 32 bits. */
  function AsU32(x: i64): (r: u32)
    ensures r % TWO_32 == x % TWO_32
    ensures 0 <= x < TWO_32 ==> r == x
  {
    x % TWO_32
  }

  /** `x as i32`: keeps the low 32 bits and reads them as two's complement. */
  function AsI32(x: i64): (r: i32)
    ensures r % TWO_32 == x % TWO_32
    ensures -TWO_31 <= x < TWO_31 ==> r == x
  {
    var low := x % TWO_32;
    if low < TWO_31 then low else low - TWO_32
  }

  /** A cast that wraps: two arguments 2^32 apart land on the same `u32`. */
  lemma AsU32Wraps(x: i64)
    requires x + TWO_32 < TWO_63
    ensures AsU32(x + TWO_32) == AsU32(x)
  {
  }

  /** `x as usize`: a negative value wraps around to a large index. */
  function AsUsize(x: i64): (r: usize)
    ensures 0 <= x ==> r == x
    ensures x < 0 ==> r == x + TWO_64
  {
    x % TWO_64
  }

  /** `x as i64`: the upper half of the `usize` range reads as negative. */
  function AsI64(x: usize): (r: i64)
    ensures x < TWO_63 ==> r == x
    ensures x >= TWO_63 ==> r == x - TWO_64
  {
    if x < TWO_63 then x else x - TWO_64
  }

  /**
   * `x + 1` on `i64` as a release build computes it, without an overflow
   * check: `i64::MAX + 1` wraps around to `i64::MIN`.
   */
  function WrappingInc(x: i64): (r: i64)
    ensures x < TWO_63 - 1 ==> r == x + 1
    ensures x == TWO_63 - 1 ==> r == -TWO_63
    ensures r % TWO_64 == (x + 1) % TWO_64
  {
    if x == TWO_63 - 1 then -TWO_63 else x + 1
  }

  /** Casting to `usize` and back gives every `i64` back. */
  lemma AsI64AsUsize(x: i64)
    ensures AsI64(AsUsize(x)) == x
  {
  }
}
