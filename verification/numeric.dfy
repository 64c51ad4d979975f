/**
  Rust's fixed-width integers and its numeric `as` conversions, stated over
  Dafny's unbounded `int` and exact `real`.

  Floating-point values of the rasterizer are modelled as exact reals, so a
  float-to-integer `as` cast is truncation toward zero followed by saturation
  into the target type's range.
 */
module Numeric {

  type Byte = b: int | 0 <= b < 0x100
  type U32 = n: int | 0 <= n < 0x1_0000_0000

  const U8_MAX: nat := 0xFF
  const U32_MAX: nat := 0xFFFF_FFFF
  const USIZE_MAX: nat := 0xFFFF_FFFF_FFFF_FFFF

  /** `n` fits in an `i32`. */
  predicate InI32(n: int) {
    -0x8000_0000 <= n < 0x8000_0000
  }

  /** Rust's `v as i32` for a `u32`: the same 32 bits read as two's
      complement, that is the one `i32` that differs from `v` by a multiple
      of 2^32 (0 or 2^32, given the ranges). */
  function AsI32(v: U32): (r: int)
    ensures InI32(r)
    ensures r == v || r == v - 0x1_0000_0000
  {
    if v < 0x8000_0000 then v else v - 0x1_0000_0000
  }

  /** `n` is what Rust's saturating cast `x as T` yields for an unsigned `T`
      whose largest value is `max`. */
  predicate Truncates(n: int, x: real, max: nat) {
    && (x < 0.0 ==> n == 0)
    && (x >= (max + 1) as real ==> n == max)
    && (0.0 <= x < (max + 1) as real ==> n as real <= x < n as real + 1.0)
  }

  function SatTrunc(x: real, max: nat): (n: nat)
    ensures n <= max
    ensures Truncates(n, x, max)
  {
    if x < 0.0 then 0
    else if x >= (max + 1) as real then max
    else x.Floor
  }

  /** `x as u8` */
  function SatU8(x: real): (b: Byte)
    ensures Truncates(b, x, U8_MAX)
  {
    SatTrunc(x, U8_MAX)
  }

  /** `x as u32` */
  function SatU32(x: real): (n: U32)
    ensures Truncates(n, x, U32_MAX)
  {
    SatTrunc(x, U32_MAX)
  }

  /** `x as usize` on a 64-bit target */
  function SatUsize(x: real): (n: nat)
    ensures Truncates(n, x, USIZE_MAX)
  {
    SatTrunc(x, USIZE_MAX)
  }

  /** A saturating cast never reverses the order of its arguments. */
  lemma SatTruncMonotone(x: real, y: real, max: nat)
    requires x <= y
    ensures SatTrunc(x, max) <= SatTrunc(y, max)
  {
  }
}

/** The failure-carrying results of the source's fallible functions. */
module Results {

  datatype Option<+T> = None | Some(value: T)

  /** The error kinds the modelled code can report. */
  datatype Error =
    | IntegerOverflow   // `parse::<u32>` of a digit string above `u32::MAX`

  datatype Result<+T> = Ok(value: T) | Err(error: Error)
}
