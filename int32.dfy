/** Rust's 32-bit signed integer and the few operations on it that the model uses. */
module Int32 {
  const I32_MIN: int := -0x8000_0000
  const I32_MAX: int := 0x7FFF_FFFF

  /** `i32`: every arithmetic result stored in one must be proved to fit
      (Rust panics on overflow in debug builds). */
  newtype i32 = x: int | I32_MIN <= x <= I32_MAX

  /** `Ord::min`: the first argument when it is not greater, else the second. */
  function Min(a: i32, b: i32): (r: i32)
    ensures r <= a && r <= b
    ensures r == a || r == b
  {
    if a <= b then a else b
  }

  /** `i32::abs`; `i32::MIN.abs()` overflows, so it is excluded. */
  function Abs(x: i32): (r: i32)
    requires x != I32_MIN as i32
    ensures r >= 0
    ensures r as int == x as int || r as int == -(x as int)
  {
    if x < 0 then -x else x
  }
}
