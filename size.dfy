/**
 * Fixed-width unsigned integers and the size constants of tools/base/size.hpp.
 * The `u8`..`u64` aliases themselves live in `using.hpp`, which is not part of
 * this model; here they are the usual ranges.  The constants are computed in
 * `u64`, so their products wrap modulo 2^64.
 */
module Size {
  import opened Numerals

  const U8_LIMIT: nat := 0x100
  const U16_LIMIT: nat := 0x1_0000
  const U32_LIMIT: nat := 0x1_0000_0000
  const U64_LIMIT: nat := 0x1_0000_0000_0000_0000

  type U8 = x: nat | x < U8_LIMIT
  type U16 = x: nat | x < U16_LIMIT
  type U32 = x: nat | x < U32_LIMIT
  type U64 = x: nat | x < U64_LIMIT

  /** The natural numbers a `u64` can hold. */
  predicate InU64(x: nat) { x < U64_LIMIT }

  lemma {:induction false} U64LimitIsPow()
    ensures Pow(2, 64) == U64_LIMIT
  {
    assert Pow(2, 8) == 256;
    PowAdd(2, 8, 8);
    assert Pow(2, 16) == 0x1_0000;
    PowAdd(2, 16, 16);
    assert Pow(2, 32) == 0x1_0000_0000;
    PowAdd(2, 32, 32);
  }

  /** `max<u64>()`: the largest `u64`. */
  function MaxU64(): (r: U64)
    ensures forall x: nat :: InU64(x) <==> x <= r
    ensures r + 1 == Pow(2, 64)
  {
    U64LimitIsPow();
    U64_LIMIT - 1
  }

  /** `min<u64>()` (`lowest()`): the smallest `u64`. */
  function MinU64(): (r: U64)
    ensures forall x: nat :: InU64(x) ==> r <= x
  {
    0
  }

  /** `u64` multiplication: exact when the product fits, else reduced modulo 2^64. */
  function Mul64(a: U64, b: U64): (r: U64)
    ensures a * b < U64_LIMIT ==> r == a * b
    ensures (r - a * b) % U64_LIMIT == 0
  {
    (a * b) % U64_LIMIT
  }

  const K: U64 := 1000
  const KI: U64 := 1024
  const M: U64 := Mul64(K, K)
  const MI: U64 := Mul64(KI, KI)
  const G: U64 := Mul64(M, K)
  const GI: U64 := Mul64(MI, KI)
  const T: U64 := Mul64(G, K)
  const TI: U64 := Mul64(GI, KI)
  const P: U64 := Mul64(T, K)
  const PI: U64 := Mul64(TI, KI)
  const E: U64 := Mul64(P, K)
  const EI: U64 := Mul64(PI, KI)
  const Z: U64 := Mul64(E, K)
  const ZI: U64 := Mul64(EI, KI)

  /** Up to `e`, the decimal constants are exact powers of 1000: nothing wraps. */
  lemma DecimalConstants()
    ensures M == Pow(10, 6) && G == Pow(10, 9) && T == Pow(10, 12)
    ensures P == Pow(10, 15) && E == Pow(10, 18)
  {
    PowAdd(10, 9, 3);
    PowAdd(10, 12, 3);
    PowAdd(10, 15, 3);
  }

  /** Up to `ei`, the binary constants are exact powers of 1024; `16 * mi` is the 16 MiB file block floor. */
  lemma BinaryConstants()
    ensures KI == Pow(2, 10) && MI == Pow(2, 20) && GI == Pow(2, 30)
    ensures TI == Pow(2, 40) && PI == Pow(2, 50) && EI == Pow(2, 60)
    ensures 16 * MI == 16777216
  {
    assert Pow(2, 10) == 1024;
    PowAdd(2, 10, 10);
    assert Pow(2, 20) == 0x10_0000;
    PowAdd(2, 20, 10);
    assert Pow(2, 30) == 0x4000_0000;
    PowAdd(2, 30, 10);
    assert Pow(2, 40) == 0x100_0000_0000;
    PowAdd(2, 40, 10);
    assert Pow(2, 50) == 0x4_0000_0000_0000;
    PowAdd(2, 50, 10);
  }

  /** `z = e * k` does not fit in `u64`: it is 10^21 reduced modulo 2^64. */
  lemma ZettaWraps()
    ensures 1000 * E > MaxU64()
    ensures Z == Pow(10, 21) % Pow(2, 64) == 3875820019684212736
  {
    DecimalConstants();
    PowAdd(10, 18, 3);
    U64LimitIsPow();
  }

  /** `zi = ei * ki` is 2^70, a multiple of 2^64, so it wraps to 0. */
  lemma ZebiWraps()
    ensures 1024 * EI == Pow(2, 70) && ZI == 0
  {
    BinaryConstants();
    PowAdd(2, 60, 10);
  }
}
