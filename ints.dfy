/** Rust's fixed-width unsigned integers, as bounded subsets of `int`.
    Arithmetic on them is written out wherever the model needs it:
    nothing here wraps around silently. */
module Ints {
  const U8_MAX: int := 0xFF
  const U32_MAX: int := 0xFFFF_FFFF
  /** `usize::MAX` on a 64-bit target. */
  const USIZE_MAX: int := 0xFFFF_FFFF_FFFF_FFFF

  type u8 = x: int | 0 <= x <= U8_MAX
  type u32 = x: int | 0 <= x <= U32_MAX
  type usize = x: int | 0 <= x <= USIZE_MAX

  datatype Option<+T> = None | Some(value: T)

  /** `u32::checked_add`. */
  function CheckedAddU32(a: u32, b: u32): Option<u32> {
    if a + b <= U32_MAX then Some(a + b) else None
  }

  /** `u32::checked_sub`. */
  function CheckedSubU32(a: u32, b: u32): Option<u32> {
    if a >= b then Some(a - b) else None
  }

  /** `usize::checked_add`. */
  function CheckedAddUsize(a: usize, b: usize): Option<usize> {
    if a + b <= USIZE_MAX then Some(a + b) else None
  }

  /** `usize::checked_sub`. */
  function CheckedSubUsize(a: usize, b: usize): Option<usize> {
    if a >= b then Some(a - b) else None
  }
}
