/** Fixed-width integers of the instruments: the signed 64-bit cell of a
    counter and the unsigned 64-bit atomics of meters and histograms.
    Rust's atomic `fetch_add`/`fetch_sub` wrap in two's complement; Dafny's
    integers are unbounded, so the wrap is written out here. */
module Numeric {

  const U64_MODULUS: int := 0x1_0000_0000_0000_0000
  const I64_MIN: int := -0x8000_0000_0000_0000
  const I64_MAX: int := 0x7FFF_FFFF_FFFF_FFFF

  type u64 = x: int | 0 <= x < U64_MODULUS
  type i64 = x: int | I64_MIN <= x <= I64_MAX

  /** Two's-complement reduction of an unbounded integer into i64: the unique
      i64 congruent to `x` modulo 2^64. */
  function WrapI64(x: int): (r: i64)
    ensures (r - x) % U64_MODULUS == 0
    ensures I64_MIN <= x <= I64_MAX ==> r == x
  {
    (x - I64_MIN) % U64_MODULUS + I64_MIN
  }

  /** Unsigned reduction modulo 2^64 (u64 `wrapping_add`, `as u64` truncation). */
  function WrapU64(x: int): (r: u64)
    ensures (r - x) % U64_MODULUS == 0
    ensures 0 <= x < U64_MODULUS ==> r == x
  {
    x % U64_MODULUS
  }

  /** i64 `wrapping_add`, as done by `AtomicI64::fetch_add`. */
  function WrappingAdd(a: i64, b: i64): (r: i64)
    ensures (r - (a + b)) % U64_MODULUS == 0
    ensures I64_MIN <= a + b <= I64_MAX ==> r == a + b
  {
    WrapI64(a + b)
  }

  /** i64 `wrapping_sub`, as done by `AtomicI64::fetch_sub`. */
  function WrappingSub(a: i64, b: i64): (r: i64)
    ensures (r - (a - b)) % U64_MODULUS == 0
    ensures I64_MIN <= a - b <= I64_MAX ==> r == a - b
  {
    WrapI64(a - b)
  }

  /** Wrapping is insensitive to how an argument was reduced before:
      WrapI64(x + y) only depends on x modulo 2^64. */
  lemma WrapAbsorbs(x: int, y: int)
    ensures WrapI64(WrapI64(x) + y) == WrapI64(x + y)
  {
    var q := (x - I64_MIN) / U64_MODULUS;
    assert x - I64_MIN == q * U64_MODULUS + (x - I64_MIN) % U64_MODULUS;
    assert WrapI64(x) + y - I64_MIN == (-q) * U64_MODULUS + (x + y - I64_MIN);
    ModMultiple(x + y - I64_MIN, -q);
  }

  /** Reducing before adding makes no difference modulo 2^64. */
  lemma WrapU64Absorbs(x: int, y: int)
    ensures WrapU64(WrapU64(x) + y) == WrapU64(x + y)
  {
    var q := x / U64_MODULUS;
    assert x == q * U64_MODULUS + WrapU64(x);
    assert x + y == q * U64_MODULUS + (WrapU64(x) + y);
    ModMultiple(WrapU64(x) + y, q);
  }

  lemma ModMultiple(z: int, q: int)
    ensures (q * U64_MODULUS + z) % U64_MODULUS == z % U64_MODULUS
  {
  }
}
