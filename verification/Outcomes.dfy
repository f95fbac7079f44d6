/** Shared result types, byte type and machine-integer arithmetic. */
module Outcomes {

  datatype Option<+T> = None | Some(value: T)

  /** A call returns a value, returns a non-nil error, or panics. */
  datatype Outcome<+T> = Ok(value: T) | Err | Panic

  type byte = x: int | 0 <= x < 256

  const TWO_TO_THE_32: nat := 0x1_0000_0000
  const TWO_TO_THE_63: nat := 0x8000_0000_0000_0000
  const TWO_TO_THE_64: nat := 0x1_0000_0000_0000_0000

  /** A uint64 value. Arithmetic on it is exact unless it is wrapped by U64. */
  type u64 = x: int | 0 <= x < 0x1_0000_0000_0000_0000

  /** The value a uint64 register holds after exact arithmetic produced `x`. */
  function U64(x: int): u64 {
    if 0 <= x < 0x1_0000_0000_0000_0000 then x else x % 0x1_0000_0000_0000_0000
  }

  /** The value an int64 register holds after exact arithmetic produced `x` (two's complement). */
  function I64(x: int): int {
    var u := U64(x);
    if u < 0x8000_0000_0000_0000 then u else u - 0x1_0000_0000_0000_0000
  }

  function Min(a: int, b: int): int {
    if a <= b then a else b
  }

  function Max(a: int, b: int): int {
    if a <= b then b else a
  }

  /** Both registers hold the exact result up to a multiple of 2^64, in their own range. */
  lemma RegistersWrap(x: int) returns (k: int, l: int)
    ensures x == U64(x) + 0x1_0000_0000_0000_0000 * k
    ensures x == I64(x) + 0x1_0000_0000_0000_0000 * l
    ensures -0x8000_0000_0000_0000 <= I64(x) < 0x8000_0000_0000_0000
  {
    k := (x - U64(x)) / 0x1_0000_0000_0000_0000;
    l := (x - I64(x)) / 0x1_0000_0000_0000_0000;
  }
}
