/** How the axes of a layout are spread over tiles (crates/ipu-codegen/src/tensor/resolved.rs).

    Each axis is cut into partitions, and the partition of a tile is a digit of its number. A
    layout is valid when every combination of partitions lies on as many tiles as it has replicas.
    The validator counts tiles, unless a quick test of the strides succeeds. The module proves that
    the quick test finds only what counting would, and that some tile of a valid layout holds the
    largest shard that the planner works out axis by axis. */
module TileShards {
  import opened Saturating
  import opened MixedRadix
  import DivMod

  /** The widths of an axis' partitions, and the distance between tiles of neighbouring ones. */
  datatype Axis = Axis(widths: seq<nat>, stride: nat)

  ghost predicate AllCut(axes: seq<Axis>) {
    forall a :: 0 <= a < |axes| ==> |axes[a].widths| > 0 && axes[a].stride > 0
  }

  /** The partition of an axis on a tile. */
  function Digit(axis: Axis, tile: nat): (r: nat)
    requires |axis.widths| > 0 && axis.stride > 0
    ensures r < |axis.widths|
  {
    Rem(Quo(tile, axis.stride), |axis.widths|)
  }

  /** The combinations of partitions of the first `k` axes. */
  function Combinations(axes: seq<Axis>, k: nat): nat
    requires k <= |axes|
  {
    if k == 0 then 1 else Times(Combinations(axes, k - 1), |axes[k - 1].widths|)
  }

  /** The number of a tile's combination, with the digit of a later axis in a lower place. */
  function Number(axes: seq<Axis>, tile: nat, k: nat): nat
    requires AllCut(axes) && k <= |axes|
  {
    if k == 0 then 0 else Join(Number(axes, tile, k - 1), |axes[k - 1].widths|, Digit(axes[k - 1], tile))
  }

  lemma {:induction false} NumberBelow(axes: seq<Axis>, tile: nat, k: nat)
    requires AllCut(axes) && k <= |axes|
    ensures Number(axes, tile, k) < Combinations(axes, k)
  {
    hide Quo, Rem, Times, Join, Digit;
    if k > 0 {
      NumberBelow(axes, tile, k - 1);
      JoinBelow(Number(axes, tile, k - 1), Combinations(axes, k - 1), |axes[k - 1].widths|, Digit(axes[k - 1], tile));
    }
  }

  // ---------------------------------------------------------------------------
  // Counting tiles
  // ---------------------------------------------------------------------------

  /** The first `m` tiles with the given combination. */
  ghost function Copies(axes: seq<Axis>, number: nat, m: nat): nat
    requires AllCut(axes)
  {
    if m == 0 then 0
    else Copies(axes, number, m - 1) + if Number(axes, m - 1, |axes|) == number then 1 else 0
  }

  /** Every combination lies on as many of the tiles as there are replicas. */
  ghost predicate Covered(axes: seq<Axis>, replicas: nat)
    requires AllCut(axes)
  {
    forall number :: 0 <= number < Combinations(axes, |axes|) ==>
      Copies(axes, number, Times(replicas, Combinations(axes, |axes|))) == replicas
  }

  /** Counting the tiles of every combination. */
  method CountCopies(axes: seq<Axis>, replicas: nat) returns (ok: bool)
    requires AllCut(axes)
    ensures ok <==> Covered(axes, replicas)
  {
    hide Quo, Rem, Times, Join, Digit, Number, Combinations;
    var combinations := Combinations(axes, |axes|);
    var copies := new nat[combinations](_ => 0);
    for tile := 0 to Times(replicas, combinations)
      invariant forall number :: 0 <= number < combinations ==> copies[number] == Copies(axes, number, tile)
    {
      NumberBelow(axes, tile, |axes|);
      var number := Number(axes, tile, |axes|);
      copies[number] := copies[number] + 1;
    }
    for number := 0 to combinations
      invariant forall n :: 0 <= n < number ==> copies[n] == replicas
    {
      if copies[number] != replicas {
        return false;
      }
    }
    ok := true;
  }

  // ---------------------------------------------------------------------------
  // The quick test
  // ---------------------------------------------------------------------------

  const MAX_U32: nat := 0xFFFF_FFFF

  /** The axes with more than one partition, each once, in any order. */
  ghost predicate Orders(axes: seq<Axis>, order: seq<nat>) {
    && (forall j :: 0 <= j < |order| ==> order[j] < |axes| && |axes[order[j]].widths| > 1)
    && (forall i, j :: 0 <= i < j < |order| ==> order[i] != order[j])
    && (forall a :: 0 <= a < |axes| && |axes[a].widths| > 1 ==> a in order)
  }

  /** The stride that the quick test expects of the `k`-th axis in the order. */
  function Expected(axes: seq<Axis>, order: seq<nat>, k: nat): nat
    requires k <= |order| && forall j :: 0 <= j < |order| ==> order[j] < |axes|
  {
    if k == 0 then (if order == [] then 1 else axes[order[0]].stride)
    else Times(Expected(axes, order, k - 1), |axes[order[k - 1]].widths|)
  }

  /** The `k`-th axis has the expected stride, and the next can be computed in 32 bits. */
  predicate Follows(axes: seq<Axis>, order: seq<nat>, k: nat)
    requires k < |order| && forall j :: 0 <= j < |order| ==> order[j] < |axes|
  {
    axes[order[k]].stride == Expected(axes, order, k) && Expected(axes, order, k + 1) <= 0xFFFF_FFFF
  }

  ghost predicate Regular(axes: seq<Axis>, replicas: nat, order: seq<nat>)
    requires AllCut(axes) && Orders(axes, order)
  {
    order == [] ||
    (Rem(replicas, axes[order[0]].stride) == 0 && forall k :: 0 <= k < |order| ==> Follows(axes, order, k))
  }

  /** The strides of the axes follow one another, lowest first. */
  method HasRegularMapping(axes: seq<Axis>, replicas: nat, order: seq<nat>) returns (ok: bool)
    requires AllCut(axes) && Orders(axes, order)
    ensures ok <==> Regular(axes, replicas, order)
  {
    hide Rem, Times;
    if order == [] {
      return true;
    }
    var base := axes[order[0]].stride;
    if Rem(replicas, base) != 0 {
      return false;
    }
    var expected := base;
    for k := 0 to |order|
      invariant expected == Expected(axes, order, k)
      invariant forall j :: 0 <= j < k ==> Follows(axes, order, j)
    {
      var next := Times(expected, |axes[order[k]].widths|);
      if axes[order[k]].stride != expected || next > MAX_U32 {
        assert !Follows(axes, order, k);
        return false;
      }
      expected := next;
    }
    ok := true;
  }

  // ---------------------------------------------------------------------------
  // What the quick test finds
  // ---------------------------------------------------------------------------

  /** A tile has the given partitions of the first `k` axes in the order. */
  ghost predicate Matches(axes: seq<Axis>, order: seq<nat>, digits: seq<nat>, k: nat, tile: nat)
    requires AllCut(axes) && Orders(axes, order) && k <= |order| && |digits| == |axes|
  {
    forall j :: 0 <= j < k ==> Digit(axes[order[j]], tile) == digits[order[j]]
  }

  ghost function Matching(axes: seq<Axis>, order: seq<nat>, digits: seq<nat>, k: nat, m: nat): nat
    requires AllCut(axes) && Orders(axes, order) && k <= |order| && |digits| == |axes|
  {
    if m == 0 then 0
    else Matching(axes, order, digits, k, m - 1) + if Matches(axes, order, digits, k, m - 1) then 1 else 0
  }

  /** How many of the first `b` numbers leave the remainder `digit`. */
  ghost function Hits(b: nat, width: nat, digit: nat): nat
    requires width > 0
  {
    if b == 0 then 0 else Hits(b - 1, width, digit) + if Rem(b - 1, width) == digit then 1 else 0
  }

  /** Within one block of tiles, the next digit is the block's number. */
  lemma {:induction false} MatchingInBlock(axes: seq<Axis>, order: seq<nat>, digits: seq<nat>, k: nat, b: nat, r: nat)
    requires AllCut(axes) && Orders(axes, order) && k < |order| && |digits| == |axes|
    requires r <= axes[order[k]].stride
    ensures var axis := axes[order[k]];
      var start := Times(b, axis.stride);
      Matching(axes, order, digits, k + 1, start + r) - Matching(axes, order, digits, k + 1, start) ==
      if Rem(b, |axis.widths|) == digits[order[k]]
      then Matching(axes, order, digits, k, start + r) - Matching(axes, order, digits, k, start) else 0
  {
    hide Rem, Times, Quo, Join;
    if r > 0 {
      MatchingInBlock(axes, order, digits, k, b, r - 1);
      var axis := axes[order[k]];
      var tile := Times(b, axis.stride) + r - 1;
      QuotientInBlock(b, axis.stride, r - 1);
      assert Digit(axis, tile) == Rem(b, |axis.widths|);
      MatchesNext(axes, order, digits, k, tile);
    }
  }

  lemma QuotientInBlock(b: nat, stride: nat, r: nat)
    requires r < stride
    ensures Quo(Times(b, stride) + r, stride) == b
  {
    JoinSplits(b, stride, r);
  }

  lemma MatchesNext(axes: seq<Axis>, order: seq<nat>, digits: seq<nat>, k: nat, tile: nat)
    requires AllCut(axes) && Orders(axes, order) && k < |order| && |digits| == |axes|
    ensures Matches(axes, order, digits, k + 1, tile) <==>
            Matches(axes, order, digits, k, tile) && Digit(axes[order[k]], tile) == digits[order[k]]
  {
    hide Digit;
  }

  /** Blocks of tiles whose lower digits match equally often. */
  lemma {:induction false} MatchingBlocks(axes: seq<Axis>, order: seq<nat>, digits: seq<nat>, k: nat, base: nat, b: nat)
    requires AllCut(axes) && Orders(axes, order) && k < |order| && |digits| == |axes|
    requires forall q: nat {:trigger Times(q, base)} ::
               Matching(axes, order, digits, k, Times(q, axes[order[k]].stride)) == Times(q, base)
    ensures var axis := axes[order[k]];
      Matching(axes, order, digits, k + 1, Times(b, axis.stride)) == Times(Hits(b, |axis.widths|, digits[order[k]]), base)
  {
    hide Rem, Times, Quo, Join, Matching;
    var axis := axes[order[k]];
    NoTimes(axis.stride);
    NoTimes(base);
    if b == 0 {
      MatchingNone(axes, order, digits, k + 1);
    } else {
      MatchingBlocks(axes, order, digits, k, base, b - 1);
      MatchingInBlock(axes, order, digits, k, b - 1, axis.stride);
      TimesNext(b - 1, axis.stride);
      TimesNext(b - 1, base);
      TimesNext(Hits(b - 1, |axis.widths|, digits[order[k]]), base);
      assert Matching(axes, order, digits, k, Times(b, axis.stride)) == Times(b, base);
      assert Matching(axes, order, digits, k, Times(b - 1, axis.stride)) == Times(b - 1, base);
    }
  }

  lemma MatchingNone(axes: seq<Axis>, order: seq<nat>, digits: seq<nat>, k: nat)
    requires AllCut(axes) && Orders(axes, order) && k <= |order| && |digits| == |axes|
    ensures Matching(axes, order, digits, k, 0) == 0
  {
  }

  lemma TimesNext(a: nat, d: nat)
    ensures Times(a + 1, d) == Times(a, d) + d
  {
  }

  lemma {:induction false} HitsOnce(q: nat, width: nat, digit: nat, r: nat)
    requires digit < width && r <= width
    ensures Hits(Times(q, width) + r, width, digit) == q + if r > digit then 1 else 0
    decreases q, r
  {
    hide Rem, Times;
    if r > 0 {
      HitsOnce(q, width, digit, r - 1);
      RemainderInBlock(q, width, r - 1);
    } else if q > 0 {
      HitsOnce(q - 1, width, digit, width);
      TimesNext(q - 1, width);
    } else {
      assert Times(0, width) == 0 by {
        NoTimes(width);
      }
    }
  }

  lemma NoTimes(d: nat)
    ensures Times(0, d) == 0
  {
  }

  lemma RemainderInBlock(b: nat, d: nat, r: nat)
    requires r < d
    ensures Rem(Times(b, d) + r, d) == r
  {
    JoinSplits(b, d, r);
  }

  lemma {:induction false} MatchingAll(axes: seq<Axis>, order: seq<nat>, digits: seq<nat>, m: nat)
    requires AllCut(axes) && Orders(axes, order) && |digits| == |axes|
    ensures Matching(axes, order, digits, 0, m) == m
  {
    if m > 0 {
      MatchingAll(axes, order, digits, m - 1);
    }
  }

  ghost predicate DigitsOf(axes: seq<Axis>, digits: seq<nat>) {
    |digits| == |axes| && forall a :: 0 <= a < |axes| ==> digits[a] < |axes[a].widths|
  }

  /** Regular strides give every choice of partitions equally many tiles. */
  lemma {:induction false} RegularMatches(axes: seq<Axis>, replicas: nat, order: seq<nat>, digits: seq<nat>, k: nat, q: nat)
    requires AllCut(axes) && Orders(axes, order) && Regular(axes, replicas, order) && DigitsOf(axes, digits)
    requires k <= |order|
    ensures Matching(axes, order, digits, k, Times(q, Expected(axes, order, k))) == Times(q, Expected(axes, order, 0))
    decreases k
  {
    hide Rem, Times, Quo, Join, Matching, Hits;
    if k == 0 {
      MatchingAll(axes, order, digits, Times(q, Expected(axes, order, 0)));
    } else {
      var axis, base := axes[order[k - 1]], Expected(axes, order, 0);
      assert Follows(axes, order, k - 1);
      forall p: nat {:trigger Times(p, base)}
        ensures Matching(axes, order, digits, k - 1, Times(p, axis.stride)) == Times(p, base)
      {
        RegularMatches(axes, replicas, order, digits, k - 1, p);
      }
      var b := Times(q, |axis.widths|);
      MatchingBlocks(axes, order, digits, k - 1, base, b);
      HitsOnce(q, |axis.widths|, digits[order[k - 1]], 0);
      TimesSwap(q, |axis.widths|, axis.stride);
    }
  }

  lemma TimesSwap(q: nat, w: nat, s: nat)
    ensures Times(Times(q, w), s) == Times(q, Times(s, w))
  {
    assert q * w * s == q * (s * w);
  }

  // ---------------------------------------------------------------------------
  // The number of combinations
  // ---------------------------------------------------------------------------

  /** The combinations of those of the first `n` axes that are not in `done`. */
  ghost function Rest(axes: seq<Axis>, done: set<nat>, n: nat): nat
    requires n <= |axes|
  {
    if n == 0 then 1
    else if n - 1 in done then Rest(axes, done, n - 1)
    else Times(Rest(axes, done, n - 1), |axes[n - 1].widths|)
  }

  lemma {:induction false} RestOfNone(axes: seq<Axis>, n: nat)
    requires n <= |axes|
    ensures Rest(axes, {}, n) == Combinations(axes, n)
  {
    hide Times;
    if n > 0 {
      RestOfNone(axes, n - 1);
    }
  }

  lemma {:induction false} RestWithout(axes: seq<Axis>, done: set<nat>, a: nat, n: nat)
    requires n <= |axes| && a < |axes| && a !in done
    ensures Rest(axes, done, n) == if a < n then Times(Rest(axes, done + {a}, n), |axes[a].widths|) else Rest(axes, done + {a}, n)
  {
    hide Times;
    if n > 0 {
      RestWithout(axes, done, a, n - 1);
      TimesCommute(Rest(axes, done + {a}, n - 1), |axes[a].widths|, |axes[n - 1].widths|);
    }
  }

  lemma TimesCommute(x: nat, a: nat, b: nat)
    ensures Times(Times(x, a), b) == Times(Times(x, b), a)
  {
    assert x * a * b == x * b * a;
  }

  lemma {:induction false} RestOfWhole(axes: seq<Axis>, done: set<nat>, n: nat)
    requires n <= |axes| && forall a :: 0 <= a < n && a !in done ==> |axes[a].widths| == 1
    ensures Rest(axes, done, n) == 1
  {
    if n > 0 {
      RestOfWhole(axes, done, n - 1);
    }
  }

  ghost function Done(order: seq<nat>, k: nat): set<nat>
    requires k <= |order|
  {
    set j | 0 <= j < k :: order[j]
  }

  /** What the order has reached, times the axes still to come, is all combinations. */
  lemma {:induction false} ExpectedRest(axes: seq<Axis>, order: seq<nat>, k: nat)
    requires AllCut(axes) && Orders(axes, order) && order != [] && k <= |order|
    ensures Times(Expected(axes, order, k), Rest(axes, Done(order, k), |axes|)) ==
            Times(axes[order[0]].stride, Combinations(axes, |axes|))
  {
    hide Times, Combinations, Rest;
    if k == 0 {
      RestOfNone(axes, |axes|);
      assert Done(order, k) == {};
    } else {
      var before, done := Done(order, k - 1), Done(order, k);
      ExpectedRest(axes, order, k - 1);
      assert done == before + {order[k - 1]};
      RestWithout(axes, before, order[k - 1], |axes|);
      TimesRegroup(Expected(axes, order, k - 1), |axes[order[k - 1]].widths|, Rest(axes, done, |axes|));
    }
  }

  lemma TimesRegroup(e: nat, w: nat, r: nat)
    ensures Times(Times(e, w), r) == Times(e, Times(r, w))
  {
    assert e * w * r == e * (r * w);
  }

  lemma AllExpected(axes: seq<Axis>, order: seq<nat>)
    requires AllCut(axes) && Orders(axes, order) && order != []
    ensures Expected(axes, order, |order|) == Times(axes[order[0]].stride, Combinations(axes, |axes|))
  {
    hide Times, Combinations, Rest;
    var done := Done(order, |order|);
    ExpectedRest(axes, order, |order|);
    forall a | 0 <= a < |axes| && a !in done
      ensures |axes[a].widths| == 1
    {
      assert a in order ==> a in done;
    }
    RestOfWhole(axes, done, |axes|);
    TimesOne(Expected(axes, order, |order|));
  }

  lemma TimesOne(x: nat)
    ensures Times(x, 1) == x
  {
  }

  // ---------------------------------------------------------------------------
  // Combinations and their numbers
  // ---------------------------------------------------------------------------

  ghost function NumberOf(axes: seq<Axis>, digits: seq<nat>, k: nat): nat
    requires k <= |axes| == |digits|
  {
    if k == 0 then 0 else Join(NumberOf(axes, digits, k - 1), |axes[k - 1].widths|, digits[k - 1])
  }

  /** A tile's number tells all its partitions. */
  lemma {:induction false} NumberTells(axes: seq<Axis>, digits: seq<nat>, tile: nat, k: nat)
    requires AllCut(axes) && DigitsOf(axes, digits) && k <= |axes|
    ensures Number(axes, tile, k) == NumberOf(axes, digits, k) <==> forall a :: 0 <= a < k ==> Digit(axes[a], tile) == digits[a]
  {
    hide Quo, Rem, Join, Digit;
    if k > 0 {
      NumberTells(axes, digits, tile, k - 1);
      var width := |axes[k - 1].widths|;
      JoinSplits(Number(axes, tile, k - 1), width, Digit(axes[k - 1], tile));
      JoinSplits(NumberOf(axes, digits, k - 1), width, digits[k - 1]);
    }
  }

  /** Every number below the number of combinations stands for one. */
  lemma {:induction false} DigitsFor(axes: seq<Axis>, number: nat, k: nat) returns (digits: seq<nat>)
    requires AllCut(axes) && k <= |axes| && number < Combinations(axes, k)
    ensures DigitsOf(axes, digits) && NumberOf(axes, digits, k) == number
    decreases k
  {
    hide Quo, Rem, Join, Times;
    if k == 0 {
      digits := seq(|axes|, _ => 0);
    } else {
      var width := |axes[k - 1].widths|;
      QuotientBelow(number, Combinations(axes, k - 1), width);
      var before := DigitsFor(axes, Quo(number, width), k - 1);
      digits := before[k - 1 := Rem(number, width)];
      NumberOfPrefix(axes, before, digits, k - 1);
      SplitJoins(number, width);
    }
  }

  lemma {:induction false} NumberOfPrefix(axes: seq<Axis>, a: seq<nat>, b: seq<nat>, k: nat)
    requires k <= |axes| == |a| == |b| && forall i :: 0 <= i < k ==> a[i] == b[i]
    ensures NumberOf(axes, a, k) == NumberOf(axes, b, k)
  {
    if k > 0 {
      NumberOfPrefix(axes, a, b, k - 1);
    }
  }

  lemma NumberIsMatch(axes: seq<Axis>, order: seq<nat>, digits: seq<nat>, tile: nat)
    requires AllCut(axes) && Orders(axes, order) && DigitsOf(axes, digits)
    ensures Number(axes, tile, |axes|) == NumberOf(axes, digits, |axes|) <==> Matches(axes, order, digits, |order|, tile)
  {
    hide Number, NumberOf, Quo, Rem;
    NumberTells(axes, digits, tile, |axes|);
    forall a | 0 <= a < |axes| && Matches(axes, order, digits, |order|, tile)
      ensures Digit(axes[a], tile) == digits[a]
    {
      if |axes[a].widths| > 1 {
        var j :| 0 <= j < |order| && order[j] == a;
      }
    }
  }

  lemma {:induction false} CopiesAreMatching(axes: seq<Axis>, order: seq<nat>, digits: seq<nat>, m: nat)
    requires AllCut(axes) && Orders(axes, order) && DigitsOf(axes, digits)
    ensures Copies(axes, NumberOf(axes, digits, |axes|), m) == Matching(axes, order, digits, |order|, m)
  {
    hide Number, NumberOf, Matches, Orders;
    if m > 0 {
      CopiesAreMatching(axes, order, digits, m - 1);
      NumberIsMatch(axes, order, digits, m - 1);
    }
  }

  /** Regular strides cover every combination exactly, as counting would find. */
  lemma RegularIsCovered(axes: seq<Axis>, replicas: nat, order: seq<nat>)
    requires AllCut(axes) && Orders(axes, order) && Regular(axes, replicas, order)
    ensures Covered(axes, replicas)
  {
    hide Quo, Rem, Join, Times, Combinations, Copies, Matching, NumberOf, Expected, Follows;
    var all := Combinations(axes, |axes|);
    forall number | 0 <= number < all
      ensures Copies(axes, number, Times(replicas, all)) == replicas
    {
      var digits := DigitsFor(axes, number, |axes|);
      CopiesAreMatching(axes, order, digits, Times(replicas, all));
      AllMatch(axes, replicas, order, digits);
    }
  }

  lemma AllMatch(axes: seq<Axis>, replicas: nat, order: seq<nat>, digits: seq<nat>)
    requires AllCut(axes) && Orders(axes, order) && Regular(axes, replicas, order) && DigitsOf(axes, digits)
    ensures Matching(axes, order, digits, |order|, Times(replicas, Combinations(axes, |axes|))) == replicas
  {
    hide Quo, Rem, Join, Times, Combinations, Matching, Follows;
    var all := Combinations(axes, |axes|);
    if order == [] {
      NothingCut(axes, order);
      TimesOne(replicas);
      MatchingAll(axes, order, digits, replicas);
    } else {
      var base := axes[order[0]].stride;
      var q := Quo(replicas, base);
      Multiple(replicas, base);
      AllExpected(axes, order);
      RegularMatches(axes, replicas, order, digits, |order|, q);
      TimesAssociate(q, base, all);
    }
  }

  lemma NothingCut(axes: seq<Axis>, order: seq<nat>)
    requires AllCut(axes) && Orders(axes, order) && order == []
    ensures Combinations(axes, |axes|) == 1
  {
    hide Times, Combinations, Rest;
    RestOfNone(axes, |axes|);
    RestOfWhole(axes, {}, |axes|);
  }

  lemma TimesAssociate(a: nat, b: nat, c: nat)
    ensures Times(Times(a, b), c) == Times(a, Times(b, c))
  {
    assert a * b * c == a * (b * c);
  }

  /** The validator's test, quick or by counting: it passes exactly when every combination has as
      many tiles as there are replicas. */
  method IsCovered(axes: seq<Axis>, replicas: nat, order: seq<nat>) returns (ok: bool)
    requires AllCut(axes) && Orders(axes, order)
    ensures ok <==> Covered(axes, replicas)
  {
    ok := HasRegularMapping(axes, replicas, order);
    if ok {
      RegularIsCovered(axes, replicas, order);
    } else {
      ok := CountCopies(axes, replicas);
    }
  }

  // ---------------------------------------------------------------------------
  // Shards
  // ---------------------------------------------------------------------------

  /** What tile `tile` holds along the first `k` axes. */
  function Elements(axes: seq<Axis>, tile: nat, k: nat): nat
    requires AllCut(axes) && k <= |axes|
  {
    if k == 0 then 1 else Times(Elements(axes, tile, k - 1), axes[k - 1].widths[Digit(axes[k - 1], tile)])
  }

  /** The product of the widest partitions. */
  function Widest(axes: seq<Axis>, k: nat): nat
    requires k <= |axes|
  {
    if k == 0 then 1 else Times(Widest(axes, k - 1), Maximum(axes[k - 1].widths))
  }

  lemma TimesGrows(a: nat, b: nat, c: nat, d: nat)
    requires a <= b && c <= d
    ensures Times(a, c) <= Times(b, d)
  {
    DivMod.MulMonotone(a, b, c);
    DivMod.MulMonotone(c, d, b);
  }

  lemma {:induction false} ElementsBelow(axes: seq<Axis>, tile: nat, k: nat)
    requires AllCut(axes) && k <= |axes|
    ensures Elements(axes, tile, k) <= Widest(axes, k)
  {
    hide Times, Digit;
    if k > 0 {
      ElementsBelow(axes, tile, k - 1);
      MaximumBounds(axes[k - 1].widths);
      TimesGrows(Elements(axes, tile, k - 1), Widest(axes, k - 1), axes[k - 1].widths[Digit(axes[k - 1], tile)],
                 Maximum(axes[k - 1].widths));
    }
  }

  /** The widest partition of every axis. */
  lemma {:induction false} WidestDigits(axes: seq<Axis>, k: nat) returns (digits: seq<nat>)
    requires AllCut(axes) && k <= |axes|
    ensures DigitsOf(axes, digits)
    ensures forall a :: 0 <= a < k ==> axes[a].widths[digits[a]] == Maximum(axes[a].widths)
  {
    if k == 0 {
      digits := seq(|axes|, _ => 0);
    } else {
      digits := WidestDigits(axes, k - 1);
      MaximumBounds(axes[k - 1].widths);
      var d :| 0 <= d < |axes[k - 1].widths| && axes[k - 1].widths[d] == Maximum(axes[k - 1].widths);
      digits := digits[k - 1 := d];
    }
  }

  lemma {:induction false} ElementsAre(axes: seq<Axis>, tile: nat, k: nat)
    requires AllCut(axes) && k <= |axes|
    requires forall a :: 0 <= a < k ==> axes[a].widths[Digit(axes[a], tile)] == Maximum(axes[a].widths)
    ensures Elements(axes, tile, k) == Widest(axes, k)
  {
    hide Times, Digit;
    if k > 0 {
      ElementsAre(axes, tile, k - 1);
    }
  }

  lemma {:induction false} CopyFound(axes: seq<Axis>, number: nat, m: nat) returns (tile: nat)
    requires AllCut(axes) && Copies(axes, number, m) > 0
    ensures tile < m && Number(axes, tile, |axes|) == number
  {
    hide Number;
    tile := m - 1;
    if Number(axes, m - 1, |axes|) != number {
      tile := CopyFound(axes, number, m - 1);
    }
  }

  lemma {:induction false} NumberOfBelow(axes: seq<Axis>, digits: seq<nat>, k: nat)
    requires DigitsOf(axes, digits) && k <= |axes|
    ensures NumberOf(axes, digits, k) < Combinations(axes, k)
  {
    hide Times, Join;
    if k > 0 {
      NumberOfBelow(axes, digits, k - 1);
      JoinBelow(NumberOf(axes, digits, k - 1), Combinations(axes, k - 1), |axes[k - 1].widths|, digits[k - 1]);
    }
  }

  /** Some tile of a covered layout holds the widest partition of every axis at once. */
  lemma WidestIsHeld(axes: seq<Axis>, replicas: nat) returns (tile: nat)
    requires AllCut(axes) && replicas > 0 && Covered(axes, replicas)
    ensures tile < Times(replicas, Combinations(axes, |axes|)) && Elements(axes, tile, |axes|) == Widest(axes, |axes|)
  {
    hide Times, Join, Quo, Rem, Number, NumberOf, Copies, Elements, Widest, Combinations, Digit;
    var digits := WidestDigits(axes, |axes|);
    NumberOfBelow(axes, digits, |axes|);
    tile := CopyFound(axes, NumberOf(axes, digits, |axes|), Times(replicas, Combinations(axes, |axes|)));
    NumberTells(axes, digits, tile, |axes|);
    ElementsAre(axes, tile, |axes|);
  }

  /** A layout deals out the grains of the whole tensor, or cuts its axes. */
  datatype Layout = Linear(elements: nat, grain: nat, tiles: nat) | Grid(axes: seq<Axis>, replicas: nat) {
    /** What the resolver accepts. */
    ghost predicate Valid() {
      match this
      case Linear(elements, grain, tiles) => grain > 0 && 0 < tiles <= DivCeil(elements, grain)
      case Grid(axes, replicas) => AllCut(axes) && replicas > 0 && Covered(axes, replicas) && Narrow(axes)
    }

    function TileCount(): nat {
      match this
      case Linear(_, _, tiles) => tiles
      case Grid(axes, replicas) => Times(replicas, Combinations(axes, |axes|))
    }

    /** The elements of one owner. */
    function TileElements(tile: nat): nat
      requires Valid()
    {
      match this
      case Linear(elements, grain, tiles) =>
        var grains := DivCeil(elements, grain);
        Times(Quo(grains, tiles) + if tile < Rem(grains, tiles) then 1 else 0, grain)
      case Grid(axes, _) => Elements(axes, tile, |axes|)
    }

    /** The largest shard, without visiting the owners. */
    function MaximumTileElements(): nat
      requires Valid()
    {
      match this
      case Linear(elements, grain, tiles) => Clamp(Times(DivCeil(DivCeil(elements, grain), tiles), grain))
      case Grid(axes, _) => WidestClamped(axes, |axes|)
    }
  }

  function DivCeil(x: nat, d: nat): nat
    requires d > 0
  {
    Quo(x, d) + if Rem(x, d) > 0 then 1 else 0
  }

  /** Widths are 32-bit numbers. */
  ghost predicate Narrow(axes: seq<Axis>) {
    forall a, d :: 0 <= a < |axes| && 0 <= d < |axes[a].widths| ==> axes[a].widths[d] <= 0xFFFF_FFFF
  }

  function WidestClamped(axes: seq<Axis>, k: nat): nat
    requires k <= |axes|
  {
    if k == 0 then 1 else Clamp(Times(WidestClamped(axes, k - 1), Maximum(axes[k - 1].widths)))
  }

  lemma {:induction false} WidestClamps(axes: seq<Axis>, k: nat)
    requires AllCut(axes) && Narrow(axes) && k <= |axes|
    ensures WidestClamped(axes, k) == Clamp(Widest(axes, k))
  {
    hide Clamp;
    if k > 0 {
      WidestClamps(axes, k - 1);
      MaximumBounds(axes[k - 1].widths);
      MulClamps(Widest(axes, k - 1), Maximum(axes[k - 1].widths));
    } else {
      assert Clamp(1) == 1 by {
        ClampOne();
      }
    }
  }

  lemma ClampOne()
    ensures Clamp(1) == 1
  {
  }

  /** The largest shard is one of the shards and at least each of them, clamped to 64 bits. */
  lemma LargestIsHeld(l: Layout) returns (tile: nat)
    requires l.Valid()
    ensures tile < l.TileCount() && Clamp(l.TileElements(tile)) == l.MaximumTileElements()
    ensures forall t: nat :: Clamp(l.TileElements(t)) <= l.MaximumTileElements()
  {
    hide Times, Quo, Rem, Elements, Widest, WidestClamped, Combinations, Covered, AllCut, Narrow;
    match l
    case Linear(elements, grain, tiles) =>
      tile := 0;
      var grains := DivCeil(elements, grain);
      forall t: nat
        ensures Clamp(l.TileElements(t)) <= l.MaximumTileElements()
      {
        TimesGrows(Quo(grains, tiles) + if t < Rem(grains, tiles) then 1 else 0, DivCeil(grains, tiles), grain, grain);
      }
    case Grid(axes, replicas) =>
      tile := WidestIsHeld(axes, replicas);
      WidestClamps(axes, |axes|);
      forall t: nat
        ensures Clamp(l.TileElements(t)) <= l.MaximumTileElements()
      {
        ElementsBelow(axes, t, |axes|);
      }
  }
}
