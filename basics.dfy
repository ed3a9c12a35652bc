/** Small value types shared by the assembler and the header-fix models: optional
    values, results, and the machine integer ranges the Rust code works with. */
module Basics {

  datatype Option<+T> = None | Some(value: T)

  datatype Result<+T, +E> = Ok(value: T) | Err(error: E)

  /** Rust's fixed-width integers as ranges of unbounded integers; every wrap-around,
      truncation or saturation in the models is written out explicitly. */
  type u8 = x: int | 0 <= x < 0x100
  type u16 = x: int | 0 <= x < 0x1_0000
  type u32 = x: int | 0 <= x < 0x1_0000_0000
  type i32 = x: int | -0x8000_0000 <= x < 0x8000_0000

  const USIZE_MAX: nat := 0xFFFF_FFFF_FFFF_FFFF

  function Pow2(n: nat): (r: nat)
    ensures r >= 1
  {
    if n == 0 then 1 else 2 * Pow2(n - 1)
  }

  function Min(a: int, b: int): int
  {
    if a <= b then a else b
  }
}
