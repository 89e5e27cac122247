/** Fixed-width machine integers as bounded subsets of `int`, with the two kinds
    of conversion the clock code performs: checked conversions (`try_into`),
    which fail when the value does not fit, and `as` casts, which keep the low
    bits (two's-complement reinterpretation or truncation). */
module Ints {
  import opened Options

  const U32_LIMIT: int := 0x1_0000_0000
  const U64_LIMIT: int := 0x1_0000_0000_0000_0000
  const U128_LIMIT: int := 0x1_0000_0000_0000_0000_0000_0000_0000_0000
  const I64_MIN: int := -0x8000_0000_0000_0000
  const I64_LIMIT: int := 0x8000_0000_0000_0000

  type u32 = x: int | 0 <= x < U32_LIMIT
  type u64 = x: int | 0 <= x < U64_LIMIT
  type u128 = x: int | 0 <= x < U128_LIMIT
  type i64 = x: int | I64_MIN <= x < I64_LIMIT

  /** `i64::try_into::<u64>()`: succeeds exactly for non-negative values, and
      then keeps the value. */
  function TryIntoU64(x: i64): (r: Option<u64>)
    ensures r.Some? <==> 0 <= x
    ensures r.Some? ==> r.value == x
  {
    if x < 0 then None else Some(x)
  }

  /** `i64::try_into::<u32>()`: succeeds exactly for values in `[0, 2^32)`, and
      then keeps the value. */
  function TryIntoU32(x: i64): (r: Option<u32>)
    ensures r.Some? <==> 0 <= x < U32_LIMIT
    ensures r.Some? ==> r.value == x
  {
    if 0 <= x < U32_LIMIT then Some(x) else None
  }

  /** `x as u64` for an `i64`: the unique `u64` congruent to `x` modulo 2^64. */
  function AsU64(x: i64): (r: u64)
    ensures (r - x) % U64_LIMIT == 0
    ensures 0 <= x ==> r == x
  {
    if x < 0 then x + U64_LIMIT else x
  }

  /** `x as u32` for a `u128`: the unique `u32` congruent to `x` modulo 2^32. */
  function AsU32(x: u128): (r: u32)
    ensures (r - x) % U32_LIMIT == 0
    ensures x < U32_LIMIT ==> r == x
  {
    x % U32_LIMIT
  }

  /** `x as i64` for a `u64`: the inverse reinterpretation, used only to state
      that `AsU64` loses nothing. */
  function AsI64(x: u64): (r: i64)
    ensures (r - x) % U64_LIMIT == 0
    ensures x < I64_LIMIT ==> r == x
  {
    if x < I64_LIMIT then x else x - U64_LIMIT
  }

  /** The `i64 -> u64` cast is a bijection: casting back recovers the value,
      and casting a `u64` there and back does too. */
  lemma AsU64RoundTrip(x: i64, y: u64)
    ensures AsI64(AsU64(x)) == x
    ensures AsU64(AsI64(y)) == y
  {
  }
}
