/** Saturating unsigned 64-bit arithmetic.

    `Clamp` sends a natural number to the nearest representable word. It commutes
    with addition, multiplication and maximum, so a computation that saturates at
    every step ends with the clamp of the unbounded result. A saturating sum of two
    words is written `Clamp(a + b)`, a saturating product `Clamp(a * b)`. */
module Saturating {

  const U64_MAX: nat := 0xFFFF_FFFF_FFFF_FFFF

  function Clamp(x: nat): (r: nat)
    ensures if x < 0x1_0000_0000_0000_0000 then r == x else r == 0xFFFF_FFFF_FFFF_FFFF
  {
    if x <= U64_MAX then x else U64_MAX
  }

  function Max2(a: nat, b: nat): nat {
    if a < b then b else a
  }

  /** The largest element, or 0 for the empty sequence. */
  function Maximum(values: seq<nat>): nat
  {
    if values == [] then 0
    else Max2(Maximum(values[..|values| - 1]), values[|values| - 1])
  }

  lemma {:induction false} MaximumBounds(values: seq<nat>)
    ensures forall i :: 0 <= i < |values| ==> values[i] <= Maximum(values)
    ensures values != [] ==> Maximum(values) in values
  {
    if values != [] {
      MaximumBounds(values[..|values| - 1]);
    }
  }

  /** Adding the same amount to every element adds it to the largest one. */
  lemma {:induction false} MaximumOfShifted(values: seq<nat>, shifted: seq<nat>, amount: nat)
    requires |shifted| == |values| > 0
    requires forall i :: 0 <= i < |values| ==> shifted[i] == values[i] + amount
    ensures Maximum(shifted) == Maximum(values) + amount
  {
    if |values| > 1 {
      MaximumOfShifted(values[..|values| - 1], shifted[..|values| - 1], amount);
    } else {
      assert values[..0] == shifted[..0] == [];
    }
  }

  function Clamped(values: seq<nat>): (r: seq<nat>)
    ensures |r| == |values|
    ensures forall i :: 0 <= i < |values| ==> r[i] == Clamp(values[i])
  {
    seq(|values|, i requires 0 <= i < |values| => Clamp(values[i]))
  }

  lemma MulClamps(a: nat, n: nat)
    requires n <= U64_MAX
    ensures Clamp(Clamp(a) * n) == Clamp(a * n)
  {
    if n == 0 {
      assert a * n == 0 && Clamp(a) * n == 0;
    } else if a > U64_MAX {
      assert a * n >= a by { assert a * n == a + a * (n - 1); }
      assert U64_MAX * n >= U64_MAX by { assert U64_MAX * n == U64_MAX + U64_MAX * (n - 1); }
    }
  }

  lemma UpdateClamps(values: seq<nat>, k: nat, value: nat)
    requires k < |values|
    ensures Clamped(values)[k := Clamp(value)] == Clamped(values[k := value])
  {
  }

  lemma {:induction false} MaximumClamps(values: seq<nat>)
    ensures Maximum(Clamped(values)) == Clamp(Maximum(values))
  {
    if values != [] {
      var last := |values| - 1;
      MaximumClamps(values[..last]);
      assert Clamped(values)[..last] == Clamped(values[..last]);
    }
  }
}
