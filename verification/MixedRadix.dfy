/** Numbers made of quotients and remainders.

    Products, quotients and remainders are named functions, so that proofs about layouts can
    hide their definitions and rest on the laws below. */
module MixedRadix {
  import opened DivMod

  function Times(a: nat, b: nat): nat {
    a * b
  }

  function Quo(x: nat, d: nat): nat
    requires d > 0
  {
    x / d
  }

  function Rem(x: nat, d: nat): (r: nat)
    requires d > 0
    ensures r < d
  {
    x % d
  }

  /** The number with the quotient `q` and the remainder `r`. */
  function Join(q: nat, d: nat, r: nat): nat {
    q * d + r
  }

  lemma JoinSplits(q: nat, d: nat, r: nat)
    requires r < d
    ensures Quo(Join(q, d, r), d) == q && Rem(Join(q, d, r), d) == r
  {
    QuotientIs(Join(q, d, r), d, q, r);
  }

  lemma SplitJoins(x: nat, d: nat)
    requires d > 0
    ensures Join(Quo(x, d), d, Rem(x, d)) == x
  {
  }

  lemma JoinBelow(q: nat, n: nat, d: nat, r: nat)
    requires q < n && r < d
    ensures Join(q, d, r) < Times(n, d)
  {
    MulMonotone(q + 1, n, d);
    MulNext(q, d);
  }

  lemma QuotientBelow(x: nat, n: nat, d: nat)
    requires d > 0 && x < Times(n, d)
    ensures Quo(x, d) < n
  {
    var q := x / d;
    assert q * d <= x;
    if n <= q {
      MulMonotone(n, q, d);
    }
  }

  lemma Multiple(x: nat, d: nat)
    requires d > 0 && Rem(x, d) == 0
    ensures Times(Quo(x, d), d) == x
  {
  }

  lemma QuotientPositive(x: nat, d: nat)
    requires 0 < d <= x
    ensures Quo(x, d) > 0
  {
    OneDivisorLess(x, d);
  }

  /** The row within a block, and within a group of `d` rows of the block. */
  lemma RemainderOfBlock(x: nat, b: nat, d: nat)
    requires d > 0 && b > 0 && Rem(b, d) == 0
    ensures Rem(Rem(x, b), d) == Rem(x, d) && Quo(Rem(x, b), d) < Quo(b, d)
  {
    hide Quo, Rem, Times, Join;
    var k, y := Quo(b, d), Rem(x, b);
    Multiple(b, d);
    SplitJoins(x, b);
    SplitJoins(y, d);
    Regroups(Quo(x, b), k, d, Quo(y, d), Rem(y, d));
    JoinSplits(Join(Quo(x, b), k, Quo(y, d)), d, Rem(y, d));
    QuotientBelow(y, k, d);
  }

  lemma Regroups(q: nat, k: nat, d: nat, g: nat, r: nat)
    ensures Join(q, Times(k, d), Join(g, d, r)) == Join(Join(q, k, g), d, r)
  {
    assert q * (k * d) == q * k * d;
  }
}
