/** What the tiles of a layout hold together (crates/ipu-codegen/src/tensor/resolved.rs).

    The module proves that the shards that `TileShards` works out tile by tile add up to the
    whole tensor, padded to whole grains or to whole partitions, once for every replica. */
module ShardTotals {
  import opened TileShards
  import opened MixedRadix
  import DivMod

  /** What the first `m` tiles hold. */
  ghost function Held(l: Layout, m: nat): nat
    requires l.Valid()
  {
    if m == 0 then 0 else Held(l, m - 1) + l.TileElements(m - 1)
  }

  /** All widths of an axis, added up. */
  ghost function Total(widths: seq<nat>): nat {
    if widths == [] then 0 else Total(widths[..|widths| - 1]) + widths[|widths| - 1]
  }

  /** The elements of the padded tensor. */
  ghost function Volume(axes: seq<Axis>): nat {
    if axes == [] then 1 else Volume(axes[..|axes| - 1]) * Total(axes[|axes| - 1].widths)
  }

  /** The partition of the axis on the tile is the one with that number. */
  ghost predicate LiesIn(axis: Axis, tile: nat, digit: nat) {
    digit < |axis.widths| && exists round: nat, rest: nat :: IsPlace(axis, tile, digit, round, rest)
  }

  ghost predicate IsPlace(axis: Axis, tile: nat, digit: nat, round: nat, rest: nat) {
    rest < axis.stride && tile == (round * |axis.widths| + digit) * axis.stride + rest
  }

  /** The product of the widths of the given partitions. */
  ghost function Size(axes: seq<Axis>, digits: seq<nat>): nat
    requires DigitsOf(axes, digits)
  {
    if axes == [] then 1
    else
      var last := |axes| - 1;
      Size(axes[..last], digits[..last]) * axes[last].widths[digits[last]]
  }

  // ---------------------------------------------------------------------------
  // One tile
  // ---------------------------------------------------------------------------

  lemma LiesInIff(axis: Axis, tile: nat, digit: nat)
    requires |axis.widths| > 0 && axis.stride > 0
    ensures LiesIn(axis, tile, digit) <==> digit == Digit(axis, tile)
  {
    hide Quo, Rem, Join, Times;
    var w, s := |axis.widths|, axis.stride;
    forall round: nat, rest: nat | digit < w && IsPlace(axis, tile, digit, round, rest)
      ensures digit == Digit(axis, tile)
    {
      PlaceIsJoin(axis, tile, digit, round, rest);
      JoinSplits(Join(round, w, digit), s, rest);
      JoinSplits(round, w, digit);
    }
    var q := Quo(tile, s);
    SplitJoins(tile, s);
    SplitJoins(q, w);
    PlaceIsJoin(axis, tile, Rem(q, w), Quo(q, w), Rem(tile, s));
  }

  lemma PlaceIsJoin(axis: Axis, tile: nat, digit: nat, round: nat, rest: nat)
    ensures IsPlace(axis, tile, digit, round, rest) <==>
            rest < axis.stride && tile == Join(Join(round, |axis.widths|, digit), axis.stride, rest)
  {
  }

  lemma {:induction false} ElementsOfPrefix(axes: seq<Axis>, more: seq<Axis>, tile: nat, k: nat)
    requires AllCut(axes) && AllCut(more) && axes <= more && k <= |axes|
    ensures Elements(more, tile, k) == Elements(axes, tile, k)
  {
    hide Digit, Times;
    if k > 0 {
      ElementsOfPrefix(axes, more, tile, k - 1);
    }
  }

  /** A tile holds the product of the widths of its partitions. */
  lemma {:induction false} TileHolds(axes: seq<Axis>, digits: seq<nat>, tile: nat)
    requires AllCut(axes) && DigitsOf(axes, digits)
    requires forall a :: 0 <= a < |axes| ==> LiesIn(axes[a], tile, digits[a])
    ensures Elements(axes, tile, |axes|) == Size(axes, digits)
  {
    hide Digit, LiesIn;
    forall a | 0 <= a < |axes|
      ensures digits[a] == Digit(axes[a], tile) && digits[a] < |axes[a].widths|
    {
      LiesInIff(axes[a], tile, digits[a]);
    }
    if axes != [] {
      var last := |axes| - 1;
      forall a | 0 <= a < last
        ensures LiesIn(axes[..last][a], tile, digits[..last][a])
      {
        assert LiesIn(axes[a], tile, digits[a]);
      }
      TileHolds(axes[..last], digits[..last], tile);
      ElementsOfPrefix(axes[..last], axes, tile, last);
    }
  }

  // ---------------------------------------------------------------------------
  // Tiles grouped by combination
  // ---------------------------------------------------------------------------

  /** What a tile with combination `number` of the first `k` axes holds. */
  ghost function Cell(axes: seq<Axis>, number: nat, k: nat): nat
    requires AllCut(axes) && k <= |axes|
    decreases k
  {
    if k == 0 then 1
    else
      var widths := axes[k - 1].widths;
      Times(Cell(axes, Quo(number, |widths|), k - 1), widths[Rem(number, |widths|)])
  }

  ghost function Cells(axes: seq<Axis>, k: nat, n: nat): nat
    requires AllCut(axes) && k <= |axes|
  {
    if n == 0 then 0 else Cells(axes, k, n - 1) + Cell(axes, n - 1, k)
  }

  lemma {:induction false} ElementsAreCell(axes: seq<Axis>, tile: nat, k: nat)
    requires AllCut(axes) && k <= |axes|
    ensures Elements(axes, tile, k) == Cell(axes, Number(axes, tile, k), k)
  {
    hide Quo, Rem, Times, Join, Digit;
    if k > 0 {
      ElementsAreCell(axes, tile, k - 1);
      JoinSplits(Number(axes, tile, k - 1), |axes[k - 1].widths|, Digit(axes[k - 1], tile));
    }
  }

  /** The cells with numbers below `n`, each as often as the first `m` tiles have it. */
  ghost function Weighted(axes: seq<Axis>, m: nat, n: nat): nat
    requires AllCut(axes)
  {
    if n == 0 then 0
    else Weighted(axes, m, n - 1) + Times(Copies(axes, n - 1, m), Cell(axes, n - 1, |axes|))
  }

  lemma {:induction false} WeightedNext(axes: seq<Axis>, m: nat, n: nat)
    requires AllCut(axes)
    ensures var number := Number(axes, m, |axes|);
      Weighted(axes, m + 1, n) == Weighted(axes, m, n) + if number < n then Cell(axes, number, |axes|) else 0
  {
    hide Times, Cell, Number;
    if n > 0 {
      WeightedNext(axes, m, n - 1);
      TimesNext(Copies(axes, n - 1, m), Cell(axes, n - 1, |axes|));
    }
  }

  lemma {:induction false} WeightedNone(axes: seq<Axis>, n: nat)
    requires AllCut(axes)
    ensures Weighted(axes, 0, n) == 0
  {
    hide Times, Cell;
    if n > 0 {
      WeightedNone(axes, n - 1);
      NoTimes(Cell(axes, n - 1, |axes|));
    }
  }

  lemma {:induction false} HeldIsWeighted(l: Layout, m: nat)
    requires l.Valid() && l.Grid?
    ensures Held(l, m) == Weighted(l.axes, m, Combinations(l.axes, |l.axes|))
  {
    hide Times, Cell, Number, Elements, Combinations, Covered, Narrow, AllCut, Weighted;
    var axes := l.axes;
    if m == 0 {
      WeightedNone(axes, Combinations(axes, |axes|));
    } else {
      HeldIsWeighted(l, m - 1);
      WeightedNext(axes, m - 1, Combinations(axes, |axes|));
      NumberBelow(axes, m - 1, |axes|);
      ElementsAreCell(axes, m - 1, |axes|);
    }
  }

  lemma {:induction false} WeightedEvenly(axes: seq<Axis>, replicas: nat, n: nat)
    requires AllCut(axes) && Covered(axes, replicas) && n <= Combinations(axes, |axes|)
    ensures Weighted(axes, Times(replicas, Combinations(axes, |axes|)), n) == Times(replicas, Cells(axes, |axes|, n))
  {
    hide Times, Cell, Copies, Combinations;
    if n == 0 {
      NoTimes(replicas);
      TimesCommute(1, replicas, 0);
      TimesZero(replicas);
    } else {
      WeightedEvenly(axes, replicas, n - 1);
      TimesAdds(replicas, Cells(axes, |axes|, n - 1), Cell(axes, n - 1, |axes|));
    }
  }

  lemma TimesZero(a: nat)
    ensures Times(a, 0) == 0
  {
  }

  lemma TimesAdds(a: nat, b: nat, c: nat)
    ensures Times(a, b + c) == Times(a, b) + Times(a, c)
  {
  }

  // ---------------------------------------------------------------------------
  // All combinations
  // ---------------------------------------------------------------------------

  lemma JoinNext(a: nat, w: nat, r: nat)
    ensures r > 0 ==> Join(a, w, r) == Join(a, w, r - 1) + 1
    ensures a > 0 ==> Join(a, w, 0) == Join(a - 1, w, w)
    ensures Join(0, w, 0) == 0
  {
    if a > 0 {
      DivMod.MulNext(a - 1, w);
    }
  }

  /** The cells of whole rounds of the last axis, and of a part of the next round. */
  lemma {:induction false} CellsOfRounds(axes: seq<Axis>, k: nat, a: nat, r: nat)
    requires AllCut(axes) && 0 < k <= |axes| && r <= |axes[k - 1].widths|
    ensures var widths := axes[k - 1].widths;
      Cells(axes, k, Join(a, |widths|, r)) ==
      Times(Cells(axes, k - 1, a), Total(widths)) + Times(Cell(axes, a, k - 1), Total(widths[..r]))
    decreases a, r
  {
    hide Times, Join, Quo, Rem;
    var widths := axes[k - 1].widths;
    JoinNext(a, |widths|, r);
    if r > 0 {
      CellsOfRounds(axes, k, a, r - 1);
      JoinSplits(a, |widths|, r - 1);
      assert widths[..r][..r - 1] == widths[..r - 1];
      TimesAdds(Cell(axes, a, k - 1), Total(widths[..r - 1]), widths[r - 1]);
    } else {
      TimesZero(Cell(axes, a, k - 1));
      if a > 0 {
        CellsOfRounds(axes, k, a - 1, |widths|);
        assert widths[..|widths|] == widths;
        TimesDistributes(Cells(axes, k - 1, a - 1), Cell(axes, a - 1, k - 1), Total(widths));
      } else {
        NoTimes(Total(widths));
      }
    }
  }

  lemma TimesDistributes(a: nat, b: nat, c: nat)
    ensures Times(a + b, c) == Times(a, c) + Times(b, c)
  {
  }

  lemma JoinWhole(a: nat, w: nat)
    ensures Join(a, w, 0) == Times(a, w)
  {
  }

  lemma VolumeNext(axes: seq<Axis>, k: nat)
    requires 0 < k <= |axes|
    ensures Volume(axes[..k]) == Times(Volume(axes[..k - 1]), Total(axes[k - 1].widths))
  {
    assert axes[..k][..k - 1] == axes[..k - 1];
  }

  lemma {:induction false} CellsAreVolume(axes: seq<Axis>, k: nat)
    requires AllCut(axes) && k <= |axes|
    ensures Cells(axes, k, Combinations(axes, k)) == Volume(axes[..k])
  {
    hide Times, Join;
    if k == 0 {
      assert Cells(axes, 0, 1) == Cells(axes, 0, 0) + Cell(axes, 0, 0);
    } else {
      var a, w := Combinations(axes, k - 1), |axes[k - 1].widths|;
      CellsAreVolume(axes, k - 1);
      JoinWhole(a, w);
      CellsOfRounds(axes, k, a, 0);
      assert axes[k - 1].widths[..0] == [];
      TimesZero(Cell(axes, a, k - 1));
      VolumeNext(axes, k);
    }
  }

  // ---------------------------------------------------------------------------
  // Grains
  // ---------------------------------------------------------------------------

  function Least(a: nat, b: nat): nat {
    if a < b then a else b
  }

  lemma {:induction false} GrainsHeld(l: Layout, m: nat)
    requires l.Valid() && l.Linear? && m <= l.tiles
    ensures var grains := DivCeil(l.elements, l.grain);
      Held(l, m) == Times(Times(Quo(grains, l.tiles), m) + Least(m, Rem(grains, l.tiles)), l.grain)
  {
    hide Times, Quo, Rem, DivCeil;
    var grains := DivCeil(l.elements, l.grain);
    var q, r := Quo(grains, l.tiles), Rem(grains, l.tiles);
    if m == 0 {
      TimesZero(q);
      NoTimes(l.grain);
    } else {
      GrainsHeld(l, m - 1);
      TimesAdds(q, m - 1, 1);
      TimesOne(q);
      TimesDistributes(Times(q, m - 1) + Least(m - 1, r), q + if m - 1 < r then 1 else 0, l.grain);
    }
  }

  lemma CeilBounds(x: nat, d: nat)
    requires d > 0
    ensures var padded := Times(DivCeil(x, d), d); x <= padded < x + d && padded % d == 0
  {
    var q, r := x / d, x % d;
    assert x == q * d + r;
    DivMod.MulNext(q, d);
    DivMod.QuotientIs(Times(DivCeil(x, d), d), d, DivCeil(x, d), 0);
  }

  /** The tiles together hold whole grains, less than one more than the tensor has, or the
      padded tensor as many times as there are replicas. */
  lemma TilesHoldTensor(l: Layout)
    requires l.Valid()
    ensures var held := Held(l, l.TileCount());
      match l
      case Linear(elements, grain, _) => held % grain == 0 && elements <= held < elements + grain
      case Grid(axes, replicas) => held == replicas * Volume(axes)
  {
    hide Times, Quo, Rem, DivCeil, Held, Volume, Covered, Combinations, Cells, Weighted;
    match l
    case Linear(elements, grain, tiles) =>
      var grains := DivCeil(elements, grain);
      GrainsHeld(l, tiles);
      SplitJoins(grains, tiles);
      JoinIs(Quo(grains, tiles), tiles, Rem(grains, tiles));
      CeilBounds(elements, grain);
    case Grid(axes, replicas) =>
      var n := Combinations(axes, |axes|);
      HeldIsWeighted(l, Times(replicas, n));
      WeightedEvenly(axes, replicas, n);
      CellsAreVolume(axes, |axes|);
      assert axes[..|axes|] == axes;
      TimesIs(replicas, Volume(axes));
  }

  /** Dealt grains are even: an earlier tile holds as much as a later one, or one grain more. */
  lemma GrainsAreEven(l: Layout, t: nat, u: nat)
    requires l.Valid() && l.Linear? && t < u < l.tiles
    ensures l.TileElements(t) == l.TileElements(u) || l.TileElements(t) == l.TileElements(u) + l.grain
  {
    hide Times, Quo, Rem, DivCeil;
    var grains := DivCeil(l.elements, l.grain);
    var q := Quo(grains, l.tiles);
    TimesDistributes(q, 1, l.grain);
    TimesCommute(1, 1, l.grain);
    TimesIs(1, l.grain);
  }

  lemma JoinIs(q: nat, d: nat, r: nat)
    ensures Join(q, d, r) == Times(q, d) + r
  {
  }

  lemma TimesIs(a: nat, b: nat)
    ensures Times(a, b) == a * b
  {
  }
}
