/** Fixed-width unsigned integers of the on-chain records, and the wrapping
    addition the token minter uses for its telemetry counters. */
module Integers {

  /** 2^64: the modulus of Rust's `u64` arithmetic. */
  const U64_MODULUS: int := 0x1_0000_0000_0000_0000

  newtype u8 = x: int | 0 <= x < 0x100
  newtype u32 = x: int | 0 <= x < 0x1_0000_0000
  newtype u64 = x: int | 0 <= x < U64_MODULUS

  const U64_MAX: u64 := 0xFFFF_FFFF_FFFF_FFFF

  /** Rust's `u64::wrapping_add`: the sum reduced modulo 2^64; it never fails. */
  function WrappingAdd(a: u64, b: u64): (r: u64)
    ensures a as int + b as int < U64_MODULUS ==> r as int == a as int + b as int
    ensures a as int + b as int >= U64_MODULUS ==> r as int == a as int + b as int - U64_MODULUS
    ensures r < a <==> a as int + b as int >= U64_MODULUS
  {
    ((a as int + b as int) % U64_MODULUS) as u64
  }

  /** Incrementing a counter at `u64::MAX` wraps it to zero instead of failing. */
  lemma WrappingIncrementAtMax()
    ensures WrappingAdd(U64_MAX, 1) == 0
    ensures forall c: u64 :: c < U64_MAX ==> WrappingAdd(c, 1) as int == c as int + 1
  {
  }

  /** Adding a multiple of the modulus does not change the residue. */
  lemma {:induction false} ModShift(z: int, q: nat)
    ensures (z + q * U64_MODULUS) % U64_MODULUS == z % U64_MODULUS
    decreases q
  {
    if q > 0 {
      ModShift(z, q - 1);
      assert z + q * U64_MODULUS == (z + (q - 1) * U64_MODULUS) + U64_MODULUS;
    }
  }

  /** Reducing an intermediate sum early does not change the final residue. */
  lemma ModAbsorb(x: nat, y: nat)
    ensures (x % U64_MODULUS + y) % U64_MODULUS == (x + y) % U64_MODULUS
  {
    var q := x / U64_MODULUS;
    assert x == x % U64_MODULUS + q * U64_MODULUS;
    ModShift(x % U64_MODULUS + y, q);
  }

  /** A wrapped counter that later absorbs `n` more units ends where the
      unwrapped sum, reduced once, ends. */
  lemma WrappingAddThenAccumulate(a: u64, b: u64, n: nat)
    ensures (WrappingAdd(a, b) as int + n) % U64_MODULUS == (a as int + b as int + n) % U64_MODULUS
  {
    ModAbsorb(a as int + b as int, n);
  }

  /** `c'` is the counter `c` after absorbing `n` more units, modulo 2^64. */
  predicate Advanced(c: u64, n: nat, c': u64)
  {
    c' as int == (c as int + n) % U64_MODULUS
  }

  /** One step of a counter that is bumped by `d` when `applied` and left
      alone otherwise, followed by `n` more units: the end value is the
      unwrapped total, reduced once. */
  lemma AdvanceStep(c: u64, d: u64, applied: bool, c1: u64, n: nat, c': u64, total: nat)
    requires c1 == (if applied then WrappingAdd(c, d) else c)
    requires Advanced(c1, n, c')
    requires total == (if applied then d as nat else 0) + n
    ensures Advanced(c, total, c')
  {
    if applied {
      WrappingAddThenAccumulate(c, d, n);
    }
  }

  /** Absorbing nothing leaves a counter where it was. */
  lemma AdvancedByNothing(c: u64, c': u64)
    requires Advanced(c, 0, c')
    ensures c' == c
  {
  }
}
