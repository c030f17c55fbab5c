/** Machine integer types and the Option/Result wrappers shared by the model. */
module Base {

  const TWO_TO_THE_8: int := 0x100
  const TWO_TO_THE_63: int := 0x8000_0000_0000_0000
  const TWO_TO_THE_64: int := 0x1_0000_0000_0000_0000

  /** Units of a Unix timestamp, shared by the recurrence and the countdown text. */
  const SECONDS_PER_MINUTE: int := 60
  const SECONDS_PER_HOUR: int := 3600
  const SECONDS_PER_DAY: int := 86400

  /** A Rust `u8`. */
  type byte = b: int | 0 <= b < TWO_TO_THE_8

  /** A Rust `u64`. */
  type u64 = x: int | 0 <= x < TWO_TO_THE_64

  /** A Rust `i64`. */
  type i64 = x: int | -TWO_TO_THE_63 <= x < TWO_TO_THE_63

  /** Rust's `x as i64` for a `u64`: two's-complement reinterpretation. */
  function U64AsI64(x: u64): (r: i64)
    ensures r == x || r == x - TWO_TO_THE_64
    ensures 0 <= r <==> x < TWO_TO_THE_63
  {
    if x < TWO_TO_THE_63 then x else x - TWO_TO_THE_64
  }

  /** Rust's `x as u64` for an `i64`: two's-complement reinterpretation. */
  function I64AsU64(x: i64): (r: u64)
    ensures r % TWO_TO_THE_64 == x % TWO_TO_THE_64
    ensures 0 <= x ==> r == x
  {
    if 0 <= x then x else x + TWO_TO_THE_64
  }

  datatype Option<+T> = None | Some(value: T)

  datatype Result<+T, +E> = Ok(value: T) | Err(error: E)
}
