/** Small shared vocabulary: optional values, results, and Rust's `i64`. */
module Prelude {

  datatype Option<+T> = None | Some(value: T)

  /** The outcome of a fallible step: a value, or the reason it stopped. */
  datatype Result<+T, +E> = Ok(value: T) | Err(error: E)

  const I64Min: int := -0x8000_0000_0000_0000
  const I64Max: int := 0x7FFF_FFFF_FFFF_FFFF

  /** Rust's `i64`: the type of notification timestamps and of the checkpoint. */
  type I64 = x: int | I64Min <= x <= I64Max

  function Max(a: int, b: int): (m: int)
    ensures m >= a && m >= b && (m == a || m == b)
  {
    if b > a then b else a
  }
}
