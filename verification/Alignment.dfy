/**
 Address arithmetic of the resource allocator.
 */
module Alignment {

  function Pow2(n: nat): (p: nat)
    ensures p >= 1
  {
    if n == 0 then 1 else 2 * Pow2(n - 1)
  }

  /** `val & ~mask` with `mask == 2^pow - 1`: the low bits are cleared one by one. */
  function RoundDown(val: nat, pow: nat): nat
    decreases pow
  {
    if pow == 0 then val else 2 * RoundDown(val / 2, pow - 1)
  }

  /** `(val + mask) & ~mask` with `mask == 2^pow - 1`. */
  function RoundUp(val: nat, pow: nat): nat {
    RoundDown(val + Pow2(pow) - 1, pow)
  }

  lemma Euclid(x: int, m: int)
    requires m > 0
    ensures x == x / m * m + x % m && 0 <= x % m < m
  {
  }

  lemma RemainderAtMost(x: nat, m: int)
    requires m > 0
    ensures x % m <= x
  {
    Euclid(x, m);
    if x < m {
      DivModUnique(x, m, 0, x);
    }
  }

  const WORDS: int := 0x1_0000_0000_0000_0000

  predicate IsWord(x: int) { 0 <= x < WORDS }

  /** What a 64-bit word keeps of a number. */
  function Wrap(x: int): (w: nat)
    ensures IsWord(w)
  {
    x % WORDS
  }

  predicate Aligned(x: nat, pow: nat) {
    x % Pow2(pow) == 0
  }

  lemma MultipleIsAligned(k: int, m: int)
    requires m > 0
    ensures (k * m) % m == 0
  {
    DivModUnique(k * m, m, k, 0);
  }

  lemma DivModUnique(x: int, m: int, q: int, r: int)
    requires m > 0 && 0 <= r < m && x == q * m + r
    ensures x / m == q && x % m == r
  {
    Euclid(x, m);
    var e := x / m - q;
    assert e * m == x / m * m - q * m;
    SmallMultiple(e, m);
  }

  lemma SmallMultiple(e: int, m: int)
    requires m > 0 && -m < e * m < m
    ensures e == 0
  {
    if e >= 1 {
      MultipleAtLeast(e, m);
    } else if e <= -1 {
      MultipleAtLeast(-e, m);
    }
  }

  lemma MultipleAtLeast(e: int, m: int)
    requires e >= 1 && m > 0
    ensures e * m >= m
  {
  }

  /** RoundDown(val, pow) is the greatest multiple of 2^pow that is not above val. */
  lemma {:induction false} RoundDownIsGreatestMultiple(val: nat, pow: nat)
    ensures Aligned(RoundDown(val, pow), pow)
    ensures RoundDown(val, pow) <= val < RoundDown(val, pow) + Pow2(pow)
    decreases pow
  {
    if pow > 0 {
      RoundDownIsGreatestMultiple(val / 2, pow - 1);
      TwiceAligned(RoundDown(val / 2, pow - 1), Pow2(pow - 1));
    }
  }

  lemma TwiceAligned(x: nat, p: nat)
    requires p > 0 && x % p == 0
    ensures 2 * x % (2 * p) == 0
  {
    Euclid(x, p);
    var k := x / p;
    assert 2 * x == k * (2 * p);
    MultipleIsAligned(k, 2 * p);
  }

  lemma RoundDownIs(val: nat, pow: nat)
    ensures RoundDown(val, pow) == val - val % Pow2(pow)
  {
    hide RoundDown, Pow2;
    RoundDownIsGreatestMultiple(val, pow);
    var r, p := RoundDown(val, pow), Pow2(pow);
    Euclid(r, p);
    DivModUnique(val, p, r / p, val - r);
  }

  /** RoundUp(val, pow) is the least multiple of 2^pow that is not below val. */
  lemma RoundUpIsLeastMultiple(val: nat, pow: nat)
    ensures Aligned(RoundUp(val, pow), pow)
    ensures val <= RoundUp(val, pow) < val + Pow2(pow)
    ensures forall y: nat :: Aligned(y, pow) && val <= y ==> RoundUp(val, pow) <= y
  {
    hide Pow2;
    RoundDownIsGreatestMultiple(val + Pow2(pow) - 1, pow);
    forall y: nat | Aligned(y, pow) && val <= y
      ensures RoundUp(val, pow) <= y
    {
      NoMultipleBetween(RoundUp(val, pow), y, Pow2(pow), val);
    }
  }

  lemma NoMultipleBetween(x: nat, y: nat, p: int, val: int)
    requires p > 0 && x % p == 0 && y % p == 0 && x < val + p && val <= y
    ensures x <= y
  {
    Euclid(x, p);
    Euclid(y, p);
    MultiplesAreApart(x / p, y / p, p, val);
  }

  lemma MultiplesAreApart(q: int, k: int, p: int, val: int)
    requires p > 0 && q * p < val + p && val <= k * p
    ensures q * p <= k * p
  {
    assert (q - k) * p == q * p - k * p;
    if q > k {
      MultipleAtLeast(q - k, p);
    } else {
      Nonnegative(k - q, p);
    }
  }

  lemma Nonnegative(e: nat, m: nat)
    ensures e * m >= 0
  {
  }

  lemma AlignedSum(x: nat, d: nat, pow: nat)
    requires Aligned(d, pow)
    ensures Aligned(x + d, pow) <==> Aligned(x, pow)
  {
    var p := Pow2(pow);
    Euclid(x, p);
    Euclid(d, p);
    assert (x / p + d / p) * p == x / p * p + d / p * p;
    DivModUnique(x + d, p, x / p + d / p, x % p);
  }

  /** Moving a range by a multiple of the alignment moves its aligned start with it. */
  lemma RoundUpTranslates(x: nat, d: nat, pow: nat)
    requires Aligned(d, pow)
    ensures RoundUp(x + d, pow) == RoundUp(x, pow) + d
  {
    RoundUpIsLeastMultiple(x, pow);
    RoundUpIsLeastMultiple(x + d, pow);
    AlignedSum(RoundUp(x, pow), d, pow);
    var y := RoundUp(x + d, pow) - d;
    AlignedSum(y, d, pow);
  }

  /** A multiple of a larger power of two is a multiple of a smaller one. */
  lemma {:induction false} AlignedWeaken(x: nat, big: nat, small: nat)
    requires small <= big && Aligned(x, big)
    ensures Aligned(x, small)
  {
    if small < big {
      var p := Pow2(big - 1);
      var k := x / (2 * p);
      assert x == k * (2 * p) == (2 * k) * p;
      MultipleIsAligned(2 * k, p);
      AlignedWeaken(x, big - 1, small);
    }
  }

  lemma {:induction false} Pow2Bound(n: nat)
    requires n >= 10
    ensures Pow2(10) == 0x400 && Pow2(n) % 0x400 == 0
  {
    assert Pow2(10) == 2 * Pow2(9) == 4 * Pow2(8) == 8 * Pow2(7) == 16 * Pow2(6) == 32 * Pow2(5) == 0x400;
    if n > 10 {
      Pow2Bound(n - 1);
    }
  }

  lemma {:induction false} Pow2Sum(m: nat, n: nat)
    ensures Pow2(m + n) == Pow2(m) * Pow2(n)
  {
    if n > 0 {
      Pow2Sum(m, n - 1);
      assert Pow2(m) * (2 * Pow2(n - 1)) == 2 * (Pow2(m) * Pow2(n - 1));
    }
  }

  /**
   Where the next I/O range may start. Legacy cards decode ten address bits, so only
   the first 0x100 of every 0x400 ports are used; then comes the VGA range.
   */
  function SkipAliases(base: nat): nat {
    if base % 0x400 >= 0x100 then
      base - base % 0x400 + 0x400
    else if 0x3b0 <= base <= 0x3df then
      0x3e0
    else
      base
  }

  /** The alias rule already covers the VGA range, so the VGA branch is never taken. */
  lemma VgaSkipIsUnreachable(base: nat)
    requires 0x3b0 <= base <= 0x3df
    ensures base % 0x400 >= 0x100 && SkipAliases(base) == 0x400
  {
  }

  lemma SkipAliasesIsLeast(base: nat)
    ensures base <= SkipAliases(base) && SkipAliases(base) % 0x400 < 0x100
    ensures forall y: nat :: base <= y && y % 0x400 < 0x100 ==> SkipAliases(base) <= y
  {
  }

  lemma SkipAliasesTranslates(x: nat, d: nat)
    requires d % 0x400 == 0
    ensures SkipAliases(x + d) == SkipAliases(x) + d
  {
    assert (x + d) % 0x400 == x % 0x400;
  }
}
