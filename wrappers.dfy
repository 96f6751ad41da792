/** Option, the value-or-nothing result the Rust code spells `Option<T>`. */
module Wrappers {
  datatype Option<+T> = None | Some(value: T)
}

/** Fixed-width machine integers as ranges over the unbounded `int`. */
module Words {
  const USIZE_LIMIT: int := 0x1_0000_0000_0000_0000
  const USIZE_MAX: int := USIZE_LIMIT - 1
  const U32_LIMIT: int := 0x1_0000_0000
  const ISIZE_MIN: int := -0x8000_0000_0000_0000
  const ISIZE_MAX: int := 0x7fff_ffff_ffff_ffff

  type usize = x: int | 0 <= x < USIZE_LIMIT
  type isize = x: int | ISIZE_MIN <= x <= ISIZE_MAX
  type u32 = x: int | 0 <= x < U32_LIMIT
  type i32 = x: int | -0x8000_0000 <= x < 0x8000_0000
  type u16 = x: int | 0 <= x < 0x1_0000
  type u8 = x: int | 0 <= x < 0x100

  /** `a.min(b)`. */
  function Min(a: nat, b: nat): (r: nat)
    ensures r <= a && r <= b && (r == a || r == b)
  {
    if a <= b then a else b
  }

  /** `usize::wrapping_add`. */
  function WrappingAdd(a: usize, b: usize): usize {
    (a + b) % USIZE_LIMIT
  }

  /** `v as isize` for a `usize` v: the two's-complement reinterpretation. */
  function AsIsize(v: usize): isize {
    if v <= ISIZE_MAX then v else v - USIZE_LIMIT
  }

  /** `v as usize` for an `isize` v. */
  function AsUsize(v: isize): usize {
    if v >= 0 then v else v + USIZE_LIMIT
  }

  /** `v as i32` for a `usize` v: keep the low 32 bits, reinterpret as signed. */
  function AsI32(v: usize): i32 {
    var low := v % U32_LIMIT;
    if low < 0x8000_0000 then low else low - U32_LIMIT
  }
}
