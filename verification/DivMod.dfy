/** Division facts that the index arithmetic of several modules rests on. */
module DivMod {

  lemma MulMonotone(a: nat, b: nat, d: nat)
    requires a <= b
    ensures a * d <= b * d
  {
    assert b * d == a * d + (b - a) * d;
  }

  lemma MulNext(a: nat, d: nat)
    ensures (a + 1) * d == a * d + d
  {
  }

  /** Quotient and remainder are the only pair that recombine below the divisor. */
  lemma QuotientIs(x: nat, d: nat, q: nat, r: nat)
    requires r < d && x == q * d + r
    ensures x / d == q && x % d == r
  {
    var k, m := x / d, x % d;
    assert x == k * d + m;
    if k > q {
      MulMonotone(q + 1, k, d);
      MulNext(q, d);
    } else if k < q {
      MulMonotone(k + 1, q, d);
      MulNext(k, d);
    }
  }

  lemma OneDivisorLess(x: nat, d: nat)
    requires 0 < d <= x
    ensures x / d == (x - d) / d + 1 && x % d == (x - d) % d
  {
    var q, r := (x - d) / d, (x - d) % d;
    assert x - d == q * d + r;
    MulNext(q, d);
    QuotientIs(x, d, q + 1, r);
  }

  lemma DivMonotone(x: nat, y: nat, d: nat)
    requires 0 < d && x <= y
    ensures x / d <= y / d
  {
    var p, q := x / d, y / d;
    assert x == p * d + x % d && y == q * d + y % d;
    MulNext(q, d);
    if p > q {
      MulMonotone(q + 1, p, d);
    }
  }
}
