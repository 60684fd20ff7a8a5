/** Sums that do not depend on the order of their terms. */
module Permutations {

  lemma WithoutPermutes<T>(a: seq<T>, b: seq<T>, at: nat)
    requires multiset(a) == multiset(b) && a != [] && at < |b| && b[at] == a[|a| - 1]
    ensures multiset(a[..|a| - 1]) == multiset(b[..at] + b[at + 1..])
  {
    var rest, left, right := a[..|a| - 1], b[..at], b[at + 1..];
    assert a == rest + [b[at]];
    assert b == left + ([b[at]] + right);
    assert multiset(rest) + multiset{b[at]} == multiset(left) + multiset(right) + multiset{b[at]};
    Cancels(multiset(rest), multiset(left) + multiset(right), b[at]);
  }

  lemma Cancels<T>(x: multiset<T>, y: multiset<T>, e: T)
    requires x + multiset{e} == y + multiset{e}
    ensures x == y
  {
    assert x == x + multiset{e} - multiset{e};
    assert y == y + multiset{e} - multiset{e};
  }

  /** The elements added one after the other. */
  ghost function Fold<T, U>(items: seq<T>, start: U, add: (U, T) -> U): U {
    if items == [] then start else add(Fold(items[..|items| - 1], start, add), items[|items| - 1])
  }

  ghost predicate Commutes<T(!new), U(!new)>(add: (U, T) -> U) {
    forall u, x, y :: add(add(u, x), y) == add(add(u, y), x)
  }

  /** Any element may be added last. */
  lemma {:induction false} FoldWithout<T(!new), U(!new)>(items: seq<T>, start: U, add: (U, T) -> U, at: nat)
    requires Commutes(add) && at < |items|
    ensures Fold(items, start, add) == add(Fold(items[..at] + items[at + 1..], start, add), items[at])
  {
    hide Commutes;
    var last := |items| - 1;
    if at == last {
      assert items[at + 1..] == [];
      assert items[..at] + [] == items[..last];
    } else {
      var rest := items[..last];
      FoldWithout(rest, start, add, at);
      var fewer := rest[..at] + rest[at + 1..];
      WithoutLast(items, at);
      FoldAppends(fewer, items[last], start, add);
      CommutesAt(add, Fold(fewer, start, add), items[at], items[last]);
    }
  }

  lemma WithoutLast<T>(items: seq<T>, at: nat)
    requires at < |items| - 1
    ensures var rest := items[..|items| - 1];
      items[..at] + items[at + 1..] == (rest[..at] + rest[at + 1..]) + [items[|items| - 1]]
  {
    var rest := items[..|items| - 1];
    var a, b := items[..at] + items[at + 1..], (rest[..at] + rest[at + 1..]) + [items[|items| - 1]];
    assert |a| == |b|;
    forall i | 0 <= i < |a|
      ensures a[i] == b[i]
    {
    }
    assert a == b;
  }

  lemma FoldAppends<T, U>(items: seq<T>, item: T, start: U, add: (U, T) -> U)
    ensures Fold(items + [item], start, add) == add(Fold(items, start, add), item)
  {
    assert (items + [item])[..|items|] == items;
  }

  lemma CommutesAt<T(!new), U(!new)>(add: (U, T) -> U, u: U, x: T, y: T)
    requires Commutes(add)
    ensures add(add(u, x), y) == add(add(u, y), x)
  {
  }

  /** Additions that commute give every permutation the same result. */
  lemma {:induction false} FoldPermutes<T(!new), U(!new)>(a: seq<T>, b: seq<T>, start: U, add: (U, T) -> U)
    requires Commutes(add) && multiset(a) == multiset(b)
    ensures Fold(a, start, add) == Fold(b, start, add)
  {
    if a == [] {
      assert |multiset(b)| == 0;
    } else {
      var last := a[|a| - 1];
      assert last in multiset(b);
      var at :| 0 <= at < |b| && b[at] == last;
      FoldWithout(b, start, add, at);
      WithoutPermutes(a, b, at);
      FoldPermutes(a[..|a| - 1], b[..at] + b[at + 1..], start, add);
    }
  }
}
