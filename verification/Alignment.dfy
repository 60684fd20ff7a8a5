/** Alignment of 32-bit addresses, which the linker and the tile memory map share. */
module Alignment {
  import opened DivMod

  const U32_MAX: nat := 0xFFFF_FFFF

  /** Powers of two, which alignments must be. */
  predicate IsPowerOfTwo(n: nat) {
    n == 1 || (n > 1 && n % 2 == 0 && IsPowerOfTwo(n / 2))
  }

  function NextMultiple(x: nat, d: nat): nat
    requires d > 0
  {
    (x + d - 1) / d * d
  }

  /** The next multiple is the least one at or above the value. */
  lemma NextMultipleIsLeast(x: nat, d: nat, m: nat)
    requires d > 0
    ensures NextMultiple(x, d) % d == 0 && x <= NextMultiple(x, d) < x + d
    ensures x <= m && m % d == 0 ==> NextMultiple(x, d) <= m
  {
    var q := (x + d - 1) / d;
    assert x + d - 1 == q * d + (x + d - 1) % d;
    QuotientIs(q * d, d, q, 0);
    if x <= m && m % d == 0 {
      assert m == m / d * d;
      LeastQuotient(x, d, q, m / d);
    }
  }

  lemma LeastQuotient(x: nat, d: nat, q: nat, k: nat)
    requires d > 0 && q == (x + d - 1) / d && x <= k * d
    ensures q * d <= k * d
  {
    DivMonotone(x + d - 1, k * d + (d - 1), d);
    QuotientIs(k * d + (d - 1), d, k, d - 1);
    MulMonotone(q, k, d);
  }

  /** Aligning keeps the order. */
  lemma NextMultipleGrows(x: nat, y: nat, d: nat)
    requires d > 0 && x <= y
    ensures NextMultiple(x, d) <= NextMultiple(y, d)
  {
    hide NextMultiple;
    NextMultipleIsLeast(y, d, 0);
    NextMultipleIsLeast(x, d, NextMultiple(y, d));
  }

  ghost function Doubled(k: nat): nat {
    if k == 0 then 1 else 2 * Doubled(k - 1)
  }

  ghost predicate IsDoubled(n: nat) {
    exists k: nat :: n == Doubled(k)
  }

  lemma {:induction false} DoubledIsPower(k: nat)
    ensures IsPowerOfTwo(Doubled(k)) && Doubled(k) > 0
  {
    if k > 0 {
      DoubledIsPower(k - 1);
      assert Doubled(k) / 2 == Doubled(k - 1);
    }
  }

  lemma {:induction false} PowerIsDoubled(n: nat) returns (k: nat)
    requires IsPowerOfTwo(n)
    ensures n == Doubled(k)
  {
    if n == 1 {
      k := 0;
    } else {
      var half := PowerIsDoubled(n / 2);
      k := half + 1;
    }
  }

  /** The powers of two are what repeated doubling makes of 1. */
  lemma PowersAreDoubled(n: nat)
    ensures IsPowerOfTwo(n) <==> IsDoubled(n)
  {
    if IsPowerOfTwo(n) {
      var k := PowerIsDoubled(n);
    }
    forall k: nat | n == Doubled(k)
      ensures IsPowerOfTwo(n)
    {
      DoubledIsPower(k);
    }
  }

  lemma PowerIsPositive(n: nat)
    requires IsPowerOfTwo(n)
    ensures n > 0
  {
  }
}
