/** Distributed layer-norm moments (device/layer_norm_distributed.cpp and the worker split of
    device/elementwise_vector.hpp), over the reals.

    Six workers sum a part of a row in strides, once plainly and, after a barrier, once
    centered on the mean; another barrier later one worker writes the part's mean and
    variance. The parts of a row are combined afterwards. The module proves when the stages
    compute the moments of their part, and that equal parts combine to the moments of the row. */
module LayerNorm {
  import opened DivMod

  // ---------------------------------------------------------------------------
  // Moments
  // ---------------------------------------------------------------------------

  ghost function Sum(x: seq<real>, n: nat): real
    requires n <= |x|
  {
    if n == 0 then 0.0 else Sum(x, n - 1) + x[n - 1]
  }

  function Times(a: real, b: real): real {
    a * b
  }

  function Square(a: real): real {
    Times(a, a)
  }

  /** The sum of the squared distances of the first `n` elements from `center`. */
  ghost function Spread(x: seq<real>, center: real, n: nat): real
    requires n <= |x|
  {
    if n == 0 then 0.0 else Spread(x, center, n - 1) + Square(x[n - 1] - center)
  }

  ghost function Mean(x: seq<real>): real
    requires |x| > 0
  {
    Sum(x, |x|) / |x| as real
  }

  ghost function Variance(x: seq<real>): real
    requires |x| > 0
  {
    Spread(x, Mean(x), |x|) / |x| as real
  }

  // ---------------------------------------------------------------------------
  // Strided sums
  // ---------------------------------------------------------------------------

  /** What a worker adds up: elements, or squared distances from the mean. */
  function Term(x: real, mean: real, centered: bool): real {
    if centered then Square(x - mean) else x
  }

  ghost function Terms(x: seq<real>, mean: real, centered: bool): (r: seq<real>)
    ensures |r| == |x|
  {
    seq(|x|, i requires 0 <= i < |x| => Term(x[i], mean, centered))
  }

  lemma {:induction false} TermsSum(x: seq<real>, mean: real, centered: bool, n: nat)
    requires n <= |x|
    ensures Sum(Terms(x, mean, centered), n) == if centered then Spread(x, mean, n) else Sum(x, n)
  {
    if n > 0 {
      TermsSum(x, mean, centered, n - 1);
    }
  }

  /** Where group `k` starts. */
  function Offset(k: nat, group: nat): nat {
    k * group
  }

  lemma OffsetGrows(k: nat, n: nat, group: nat)
    requires k <= n
    ensures Offset(k, group) <= Offset(n, group) && Offset(0, group) == 0
  {
    MulMonotone(k, n, group);
  }

  /** The sum of `n` terms from `start` on. */
  ghost function Slice(f: seq<real>, start: nat, n: nat): real
    requires start + n <= |f|
  {
    if n == 0 then 0.0 else Slice(f, start, n - 1) + f[start + n - 1]
  }

  lemma {:induction false} SumSplits(f: seq<real>, start: nat, n: nat)
    requires start + n <= |f|
    ensures Sum(f, start + n) == Sum(f, start) + Slice(f, start, n)
  {
    if n > 0 {
      SumSplits(f, start, n - 1);
    }
  }

  /** The sum of the groups k < n of `group` terms that belong to a worker. */
  ghost function WorkerSum(f: seq<real>, group: nat, n: nat, worker: nat): real
    requires Offset(n, group) <= |f|
  {
    if n == 0 then 0.0
    else
      GroupInside(n, group);
      WorkerSum(f, group, n - 1, worker) + if (n - 1) % 6 == worker then Slice(f, Offset(n - 1, group), group) else 0.0
  }

  lemma GroupInside(n: nat, group: nat)
    requires n > 0
    ensures Offset(n - 1, group) + group == Offset(n, group)
  {
    MulNext(n - 1, group);
  }

  lemma SumOfNone(f: seq<real>)
    ensures Sum(f, 0) == 0.0
  {
  }

  /** The six workers together add every group once. */
  lemma {:induction false} WorkersSum(f: seq<real>, group: nat, n: nat)
    requires Offset(n, group) <= |f|
    ensures WorkerSum(f, group, n, 0) + WorkerSum(f, group, n, 1) + WorkerSum(f, group, n, 2)
            + WorkerSum(f, group, n, 3) + WorkerSum(f, group, n, 4) + WorkerSum(f, group, n, 5) == Sum(f, Offset(n, group))
  {
    hide Offset, Slice, Sum;
    OffsetGrows(0, n, group);
    SumOfNone(f);
    if n > 0 {
      GroupInside(n, group);
      WorkersSum(f, group, n - 1);
      SumSplits(f, Offset(n - 1, group), group);
    }
  }

  /** Groups between two of a worker's groups are not the worker's. */
  lemma {:induction false} SkipGroups(f: seq<real>, group: nat, from: nat, n: nat, worker: nat)
    requires Offset(n, group) <= |f| && from <= n
    requires forall k :: from <= k < n ==> k % 6 != worker
    ensures Offset(from, group) <= |f| && WorkerSum(f, group, n, worker) == WorkerSum(f, group, from, worker)
    decreases n
  {
    hide Offset, Slice;
    OffsetGrows(from, n, group);
    if from < n {
      GroupInside(n, group);
      SkipGroups(f, group, from, n - 1, worker);
    }
  }

  // ---------------------------------------------------------------------------
  // One worker
  // ---------------------------------------------------------------------------

  /** Whether the row is summed in groups of eight, or four when centered. */
  predicate IsWide(width: nat, aligned: bool) {
    width >= 96 && width % 8 == 0 && aligned
  }

  function Group(width: nat, aligned: bool, centered: bool): nat {
    if !IsWide(width, aligned) then 2 else if centered then 4 else 8
  }

  function Groups(width: nat, aligned: bool, centered: bool): nat {
    width / Group(width, aligned, centered)
  }

  /** The number of leading elements that complete groups cover. */
  function Covered(width: nat): nat {
    width / 2 * 2
  }

  lemma GroupsCover(width: nat, aligned: bool, centered: bool)
    ensures Offset(Groups(width, aligned, centered), Group(width, aligned, centered)) == Covered(width)
  {
    hide Offset;
    WholeGroups(width);
  }

  lemma WholeGroups(width: nat)
    ensures Offset(width / 2, 2) == Covered(width)
    ensures width % 8 == 0 ==> Offset(width / 4, 4) == width && Offset(width / 8, 8) == width && Covered(width) == width
  {
    hide Offset;
    OffsetInGroups(width / 2);
    OffsetInGroups(width / 4);
    OffsetInGroups(width / 8);
  }

  lemma OffsetInGroups(k: nat)
    ensures Offset(k, 2) == 2 * k && Offset(k, 4) == 4 * k && Offset(k, 8) == 8 * k
  {
  }

  /** One worker's strided sum; the two lanes of the accumulator are added. */
  method NormSum(x: seq<real>, aligned: bool, worker: nat, mean: real, centered: bool) returns (sum: real)
    requires worker < 6
    ensures Offset(Groups(|x|, aligned, centered), Group(|x|, aligned, centered)) <= |x|
    ensures sum == WorkerSum(Terms(x, mean, centered), Group(|x|, aligned, centered), Groups(|x|, aligned, centered), worker)
  {
    hide WorkerSum, Slice, Terms, Term, Offset, Group, Groups;
    var group := Group(|x|, aligned, centered);
    var groups := Groups(|x|, aligned, centered);
    GroupsCover(|x|, aligned, centered);
    ghost var f := Terms(x, mean, centered);
    sum := 0.0;
    if worker >= groups {
      NoGroups(f, group, groups, worker);
      return;
    }
    var rounds := (groups + 5 - worker) / 6;
    var k := worker;
    OffsetGrows(worker, groups, group);
    NoGroups(f, group, worker, worker);
    for round := 0 to rounds
      invariant k == worker + 6 * round && (round < rounds ==> k < groups)
      invariant Offset(Least(k, groups), group) <= |f|
      invariant sum == WorkerSum(f, group, Least(k, groups), worker)
    {
      GroupStart(k, groups, group);
      var start := Offset(k, group);
      ghost var before := sum;
      StartSlice(f, start);
      for j := 0 to group
        invariant sum == before + Slice(f, start, j)
      {
        NextSlice(x, mean, centered, start, j);
        sum := sum + Term(x[start + j], mean, centered);
      }
      TakeGroup(f, group, k, groups, worker);
      k := k + 6;
    }
  }

  function Least(a: nat, b: nat): nat {
    if a < b then a else b
  }

  lemma NoGroups(f: seq<real>, group: nat, n: nat, worker: nat)
    requires n <= worker < 6 && Offset(n, group) <= |f|
    ensures WorkerSum(f, group, n, worker) == 0.0
  {
    hide Offset;
    SkipGroups(f, group, 0, n, worker);
  }

  lemma GroupStart(k: nat, groups: nat, group: nat)
    requires k < groups
    ensures Offset(k, group) + group <= Offset(groups, group)
  {
    GroupInside(k + 1, group);
    OffsetGrows(k + 1, groups, group);
  }

  lemma StartSlice(f: seq<real>, start: nat)
    requires start <= |f|
    ensures Slice(f, start, 0) == 0.0
  {
  }

  lemma NextSlice(x: seq<real>, mean: real, centered: bool, start: nat, j: nat)
    requires start + j < |x|
    ensures Slice(Terms(x, mean, centered), start, j + 1)
            == Slice(Terms(x, mean, centered), start, j) + Term(x[start + j], mean, centered)
  {
  }

  /** Taking one group brings the worker to its next, or past the last. */
  lemma TakeGroup(f: seq<real>, group: nat, k: nat, groups: nat, worker: nat)
    requires k < groups && Offset(groups, group) <= |f| && worker < 6 && k % 6 == worker
    ensures Offset(k, group) + group <= |f| && Offset(Least(k + 6, groups), group) <= |f| && Offset(k, group) <= |f|
    ensures WorkerSum(f, group, Least(k + 6, groups), worker) ==
            WorkerSum(f, group, k, worker) + Slice(f, Offset(k, group), group)
  {
    hide Offset, Slice;
    GroupStart(k, groups, group);
    GroupInside(k + 1, group);
    OffsetGrows(Least(k + 6, groups), groups, group);
    SkipGroups(f, group, k + 1, Least(k + 6, groups), worker);
  }

  // ---------------------------------------------------------------------------
  // Three stages
  // ---------------------------------------------------------------------------

  /** The partial sums of the workers: plain in the first six, centered in the last. */
  ghost predicate Partial(x: seq<real>, aligned: bool, mean: real, centered: bool, worker: nat, value: real) {
    var group := Group(|x|, aligned, centered);
    Offset(Groups(|x|, aligned, centered), group) <= |x|
    && value == WorkerSum(Terms(x, mean, centered), group, Groups(|x|, aligned, centered), worker)
  }

  /** Six partial sums make up the sum over all complete groups. */
  lemma PartialsSum(x: seq<real>, aligned: bool, mean: real, centered: bool, a: real, b: real, c: real, d: real, e: real, f: real)
    requires Partial(x, aligned, mean, centered, 0, a) && Partial(x, aligned, mean, centered, 1, b)
    requires Partial(x, aligned, mean, centered, 2, c) && Partial(x, aligned, mean, centered, 3, d)
    requires Partial(x, aligned, mean, centered, 4, e) && Partial(x, aligned, mean, centered, 5, f)
    ensures a + b + c + d + e + f == if centered then Spread(x, mean, Covered(|x|)) else Sum(x, Covered(|x|))
  {
    hide WorkerSum, Terms, Offset, Group, Groups;
    var group := Group(|x|, aligned, centered);
    GroupsCover(|x|, aligned, centered);
    WorkersSum(Terms(x, mean, centered), group, Groups(|x|, aligned, centered));
    TermsSum(x, mean, centered, Covered(|x|));
  }

  /** The mean that the kernel divides out. */
  ghost function KernelMean(x: seq<real>): real
    requires |x| > 0
  {
    Sum(x, Covered(|x|)) / |x| as real
  }

  ghost function KernelVariance(x: seq<real>): real
    requires |x| > 0
  {
    Spread(x, KernelMean(x), Covered(|x|)) / |x| as real
  }

  /** The six workers in some order, each at least once. */
  ghost predicate AllSix(workers: seq<nat>) {
    (forall i :: 0 <= i < |workers| ==> workers[i] < 6) && forall w: nat :: w < 6 ==> w in workers
  }

  class Moments {
    const x: seq<real>
    const aligned: bool
    const scratch: array<real>
    var mean: real
    var variance: real

    constructor (x: seq<real>, aligned: bool)
      ensures this.x == x && this.aligned == aligned && fresh(scratch) && scratch.Length == 12
    {
      this.x := x;
      this.aligned := aligned;
      scratch := new real[12];
      mean, variance := 0.0, 0.0;
    }

    /** All six partial sums of a stage. */
    ghost predicate AllRan(centered: bool, at: real, base: nat)
      reads scratch
    {
      scratch.Length == 12 && base <= 6
      && Partial(x, aligned, at, centered, 0, scratch[base]) && Partial(x, aligned, at, centered, 1, scratch[base + 1])
      && Partial(x, aligned, at, centered, 2, scratch[base + 2]) && Partial(x, aligned, at, centered, 3, scratch[base + 3])
      && Partial(x, aligned, at, centered, 4, scratch[base + 4]) && Partial(x, aligned, at, centered, 5, scratch[base + 5])
    }

    /** What the workers of a list leave in the partial sums of a stage. */
    ghost predicate Ran(centered: bool, at: real, workers: seq<nat>, base: nat)
      reads scratch
    {
      scratch.Length == 12 && base <= 6
      && forall w: nat :: w < 6 && w in workers ==> Partial(x, aligned, at, centered, w, scratch[base + w])
    }

    /** One worker of stage 0 or 1. */
    method ComputeSum(stage: nat, worker: nat, ghost at: real)
      requires stage < 2 && worker < 6 && scratch.Length == 12 && |x| > 0
      requires stage == 1 ==> AllRan(false, 0.0, 0) && at == KernelMean(x)
      requires stage == 0 ==> at == 0.0
      modifies scratch
      ensures Partial(x, aligned, at, stage == 1, worker, scratch[6 * stage + worker])
      ensures forall i :: 0 <= i < 12 && i != 6 * stage + worker ==> scratch[i] == old(scratch[i])
    {
      hide Partial, KernelMean;
      if stage == 0 {
        var partial := NormSum(x, aligned, worker, 0.0, false);
        PartialIs(x, aligned, 0.0, false, worker, partial);
        scratch[worker] := partial;
      } else {
        var mean := PartialMean();
        var partial := NormSum(x, aligned, worker, mean, true);
        PartialIs(x, aligned, mean, true, worker, partial);
        scratch[6 + worker] := partial;
      }
    }

    /** Every worker of a later stage computes the same mean from the partial sums. */
    method PartialMean() returns (mean: real)
      requires |x| > 0 && AllRan(false, 0.0, 0)
      ensures mean == KernelMean(x)
    {
      hide Partial;
      var sum := SumSix(0);
      PartialsSum(x, aligned, 0.0, false, scratch[0], scratch[1], scratch[2], scratch[3], scratch[4], scratch[5]);
      mean := sum / |x| as real;
    }

    method SumSix(base: nat) returns (sum: real)
      requires scratch.Length == 12 && base <= 6
      ensures sum == scratch[base] + scratch[base + 1] + scratch[base + 2]
                     + scratch[base + 3] + scratch[base + 4] + scratch[base + 5]
    {
      sum := 0.0;
      ghost var six := [scratch[base], scratch[base + 1], scratch[base + 2],
                        scratch[base + 3], scratch[base + 4], scratch[base + 5]];
      for i := 0 to 6
        invariant sum == Sum(six, i)
      {
        sum := sum + scratch[base + i];
      }
      assert Sum(six, 1) == six[0] && Sum(six, 2) == Sum(six, 1) + six[1] && Sum(six, 3) == Sum(six, 2) + six[2];
      assert Sum(six, 4) == Sum(six, 3) + six[3] && Sum(six, 5) == Sum(six, 4) + six[4];
    }

    /** All workers of one stage, in any order. */
    method RunStage(stage: nat, workers: seq<nat>, ghost at: real)
      requires stage < 2 && scratch.Length == 12 && |x| > 0
      requires AllSix(workers)
      requires stage == 1 ==> AllRan(false, 0.0, 0) && at == KernelMean(x)
      requires stage == 0 ==> at == 0.0
      modifies scratch
      ensures AllRan(stage == 1, at, 6 * stage)
      ensures stage == 1 ==> AllRan(false, 0.0, 0)
    {
      hide Partial, KernelMean;
      for i := 0 to |workers|
        invariant Ran(stage == 1, at, workers[..i], 6 * stage)
        invariant stage == 1 ==> AllRan(false, 0.0, 0)
      {
        assert workers[..i + 1] == workers[..i] + [workers[i]];
        ComputeSum(stage, workers[i], at);
      }
      assert workers[..|workers|] == workers;
      assert 0 in workers && 1 in workers && 2 in workers && 3 in workers && 4 in workers && 5 in workers;
    }

    /** The last stage: worker zero writes the moments. */
    method Finish()
      requires |x| > 0 && AllRan(false, 0.0, 0) && AllRan(true, KernelMean(x), 6)
      modifies this
      ensures mean == KernelMean(x) && variance == KernelVariance(x)
    {
      hide Partial;
      var m := PartialMean();
      var sum := SumSix(6);
      PartialsSum(x, aligned, KernelMean(x), true, scratch[6], scratch[7], scratch[8], scratch[9], scratch[10], scratch[11]);
      mean, variance := m, sum / |x| as real;
    }

    /** Whatever the order of the workers within each stage, the part's moments result. */
    method Run(first: seq<nat>, second: seq<nat>)
      requires scratch.Length == 12 && |x| > 0
      requires AllSix(first) && AllSix(second)
      modifies this, scratch
      ensures mean == KernelMean(x) && variance == KernelVariance(x)
      ensures (mean == Mean(x) && variance == Variance(x)) <==> Exact(x)
    {
      hide Partial, KernelMean, KernelVariance, Mean, Variance, Exact;
      RunStage(0, first, 0.0);
      RunStage(1, second, KernelMean(x));
      Finish();
      KernelMomentsIff(x);
    }
  }

  lemma PartialIs(x: seq<real>, aligned: bool, mean: real, centered: bool, worker: nat, value: real)
    requires Offset(Groups(|x|, aligned, centered), Group(|x|, aligned, centered)) <= |x|
    requires value == WorkerSum(Terms(x, mean, centered), Group(|x|, aligned, centered), Groups(|x|, aligned, centered), worker)
    ensures Partial(x, aligned, mean, centered, worker, value)
  {
  }

  // ---------------------------------------------------------------------------
  // When the moments are exact
  // ---------------------------------------------------------------------------

  /** The width is even, or the element left over does not matter. */
  ghost predicate Exact(x: seq<real>) {
    |x| % 2 == 0 || (|x| > 0 && x[|x| - 1] == 0.0 && Sum(x, |x|) == 0.0)
  }

  function Over(a: real, n: nat): real
    requires n > 0
  {
    a / n as real
  }

  lemma OverEqual(a: real, b: real, n: nat)
    requires n > 0
    ensures Over(a, n) == Over(b, n) <==> a == b
    ensures Over(a, n) == 0.0 <==> a == 0.0
  {
    var r, s := Over(a, n), Over(b, n);
    assert r * n as real == a && s * n as real == b;
  }

  lemma SquareZero(a: real)
    ensures Square(a) >= 0.0 && (Square(a) == 0.0 <==> a == 0.0)
  {
    hide Square;
    SquareOfNegation(a);
    if a > 0.0 {
      SquarePositive(a);
    } else if a < 0.0 {
      SquarePositive(-a);
    } else {
      SquareOfZero();
    }
  }

  lemma SquarePositive(a: real)
    requires a > 0.0
    ensures Square(a) > 0.0
  {
    hide Times;
    ProductPositive(a, a);
  }

  lemma ProductPositive(a: real, b: real)
    requires a > 0.0 && b > 0.0
    ensures Times(a, b) > 0.0
  {
  }

  lemma SquareOfNegation(a: real)
    ensures Square(-a) == Square(a)
  {
  }

  lemma SquareOfZero()
    ensures Square(0.0) == 0.0
  {
  }

  /** The kernel's moments are those of the part exactly when the width is even or the last
      element and the mean are zero. */
  lemma KernelMomentsIff(x: seq<real>)
    requires |x| > 0
    ensures (KernelMean(x) == Mean(x) && KernelVariance(x) == Variance(x)) <==> Exact(x)
  {
    hide Sum, Spread, KernelVariance;
    var n := |x|;
    if n % 2 == 0 {
      EvenCovers(x);
    } else {
      var last, mean := x[n - 1], Mean(x);
      OddCovers(x);
      OverEqual(Sum(x, n - 1), Sum(x, n), n);
      OverEqual(Sum(x, n), 0.0, n);
      OverEqual(Spread(x, mean, n - 1), Spread(x, mean, n), n);
      SquareZero(last - mean);
    }
  }

  /** The kernel is only built for widths that are multiples of four: there it is always exact. */
  lemma BuiltWidthsAreExact(x: seq<real>)
    requires |x| > 0 && |x| % 4 == 0
    ensures KernelMean(x) == Mean(x) && KernelVariance(x) == Variance(x)
  {
    hide KernelMean, KernelVariance, Mean, Variance;
    KernelMomentsIff(x);
  }

  /** On a width of three the kernel drops the last element. */
  lemma WidthOfThreeIsInexact()
    ensures KernelMean([0.0, 0.0, 3.0]) == 0.0 && Mean([0.0, 0.0, 3.0]) == 1.0
  {
    var x := [0.0, 0.0, 3.0];
    assert Sum(x, 1) == 0.0 && Sum(x, 2) == 0.0 && Sum(x, 3) == 3.0;
    assert Covered(3) == 2;
  }

  lemma EvenCovers(x: seq<real>)
    requires |x| > 0 && |x| % 2 == 0
    ensures KernelMean(x) == Mean(x) && KernelVariance(x) == Variance(x)
  {
    assert Covered(|x|) == |x|;
  }

  lemma OddCovers(x: seq<real>)
    requires |x| > 0 && |x| % 2 == 1
    ensures var n := |x|;
      && Sum(x, n) == Sum(x, n - 1) + x[n - 1]
      && KernelMean(x) == Over(Sum(x, n - 1), n) && Mean(x) == Over(Sum(x, n), n)
      && Spread(x, Mean(x), n) == Spread(x, Mean(x), n - 1) + Square(x[n - 1] - Mean(x))
      && (KernelMean(x) == Mean(x) ==> KernelVariance(x) == Over(Spread(x, Mean(x), n - 1), n))
      && Variance(x) == Over(Spread(x, Mean(x), n), n)
  {
    assert Covered(|x|) == |x| - 1;
  }

  // ---------------------------------------------------------------------------
  // Combining parts
  // ---------------------------------------------------------------------------

  /** A part of a row. */
  ghost function Part(row: seq<real>, width: nat, part: nat): (r: seq<real>)
    requires part * width + width <= |row|
    ensures |r| == width
  {
    row[part * width..part * width + width]
  }

  lemma PartInside(p: nat, parts: nat, width: nat)
    requires p < parts
    ensures p * width + width <= parts * width
  {
    MulNext(p, width);
    MulMonotone(p + 1, parts, width);
  }

  lemma {:induction false} SumOfSlice(row: seq<real>, start: nat, width: nat, n: nat)
    requires start + width <= |row| && n <= width
    ensures Sum(row[start..start + width], n) == Slice(row, start, n)
  {
    if n > 0 {
      SumOfSlice(row, start, width, n - 1);
    }
  }

  /** The sum of squared distances of a slice. */
  ghost function SpreadSlice(row: seq<real>, center: real, start: nat, n: nat): real
    requires start + n <= |row|
  {
    if n == 0 then 0.0 else SpreadSlice(row, center, start, n - 1) + Square(row[start + n - 1] - center)
  }

  lemma {:induction false} SpreadSplits(row: seq<real>, center: real, start: nat, n: nat)
    requires start + n <= |row|
    ensures Spread(row, center, start + n) == Spread(row, center, start) + SpreadSlice(row, center, start, n)
  {
    if n > 0 {
      SpreadSplits(row, center, start, n - 1);
    }
  }

  lemma {:induction false} SpreadOfSlice(row: seq<real>, center: real, start: nat, width: nat, n: nat)
    requires start + width <= |row| && n <= width
    ensures Spread(row[start..start + width], center, n) == SpreadSlice(row, center, start, n)
  {
    if n > 0 {
      SpreadOfSlice(row, center, start, width, n - 1);
    }
  }

  /** Moving the center of a sum of squares by `d`. */
  lemma {:induction false} SpreadMoves(x: seq<real>, center: real, d: real, n: nat)
    requires n <= |x|
    ensures Spread(x, center - d, n) ==
            Spread(x, center, n) + Times(2.0 * d, Sum(x, n) - Times(n as real, center)) + Times(n as real, Square(d))
  {
    if n > 0 {
      SpreadMoves(x, center, d, n - 1);
      MoveStep(x[n - 1], center, d, Sum(x, n - 1), (n - 1) as real);
    } else {
      assert Times(0.0, center) == 0.0 && Times(0.0, Square(d)) == 0.0 && Times(2.0 * d, 0.0) == 0.0;
    }
  }

  lemma MoveStep(a: real, center: real, d: real, sum: real, n: real)
    ensures Times(2.0 * d, sum + a - Times(n + 1.0, center)) + Times(n + 1.0, Square(d)) + Square(a - center)
            == Times(2.0 * d, sum - Times(n, center)) + Times(n, Square(d)) + Square(a - (center - d))
  {
    var y := a - center;
    assert Square(y + d) == Square(y) + 2.0 * d * y + Square(d);
    assert (n + 1.0) * center == n * center + center;
    assert (n + 1.0) * Square(d) == n * Square(d) + Square(d);
    assert 2.0 * d * (sum - n * center + y) == 2.0 * d * (sum - n * center) + 2.0 * d * y;
  }

  lemma OverTimes(a: real, n: nat)
    requires n > 0
    ensures Times(n as real, Over(a, n)) == a
  {
  }

  /** About any center, a part's spread is its own variance plus the distance of its mean, for
      every element. */
  lemma PartSpread(x: seq<real>, center: real)
    requires |x| > 0
    ensures Spread(x, center, |x|) == Times(|x| as real, Variance(x) + Square(Mean(x) - center))
  {
    hide Times, Square, Spread, Sum;
    var n, d := |x|, Mean(x) - center;
    SpreadMoves(x, Mean(x), d, n);
    OverTimes(Sum(x, n), n);
    OverTimes(Spread(x, Mean(x), n), n);
    assert Mean(x) == Over(Sum(x, n), n) && Variance(x) == Over(Spread(x, Mean(x), n), n);
    TimesZero(2.0 * d);
    TimesAdds(n as real, Variance(x), Square(d));
  }

  /** The elements and their squares added up. */
  ghost function Total(x: seq<real>): real {
    if x == [] then 0.0 else x[0] + Total(x[1..])
  }

  ghost function Squares(x: seq<real>): seq<real> {
    seq(|x|, i requires 0 <= i < |x| => x[i] * x[i])
  }

  lemma {:induction false} TotalIsSum(x: seq<real>, n: nat)
    requires n <= |x|
    ensures Sum(x, n) + Total(x[n..]) == Total(x)
  {
    if n > 0 {
      TotalIsSum(x, n - 1);
      assert x[n - 1..][1..] == x[n..];
    }
  }

  lemma {:induction false} SpreadAroundZero(x: seq<real>, n: nat)
    requires n <= |x|
    ensures Spread(x, 0.0, n) == Sum(Squares(x), n)
  {
    if n > 0 {
      SpreadAroundZero(x, n - 1);
    }
  }

  /** The mean is the total over the count, the variance the mean of the squares less the
      square of the mean. */
  lemma MomentsAre(x: seq<real>)
    requires |x| > 0
    ensures Mean(x) * |x| as real == Total(x)
    ensures (Variance(x) + Mean(x) * Mean(x)) * |x| as real == Total(Squares(x))
  {
    hide Spread, Sum, Total, Variance;
    TotalIsSum(x, |x|);
    TotalIsSum(Squares(x), |x|);
    NoTotal();
    assert x[|x|..] == [] && Squares(x)[|x|..] == [];
    OverTimes(Sum(x, |x|), |x|);
    SpreadAroundZero(x, |x|);
    PartSpread(x, 0.0);
    assert Mean(x) - 0.0 == Mean(x);
  }

  lemma NoTotal()
    ensures Total([]) == 0.0
  {
  }

  datatype Stat = Stat(mean: real, variance: real)

  ghost predicate IsStatOf(row: seq<real>, width: nat, p: nat, stat: Stat) {
    width > 0 && p * width + width <= |row| && stat == Stat(Mean(Part(row, width, p)), Variance(Part(row, width, p)))
  }

  /** The statistics of each part. */
  ghost predicate IsPartStats(row: seq<real>, width: nat, parts: nat, stats: seq<Stat>) {
    && width > 0 && parts > 0 && |row| == parts * width && |stats| == parts
    && forall p :: 0 <= p < parts ==> IsStatOf(row, width, p, stats[p])
  }

  ghost function MeanTotal(stats: seq<Stat>, n: nat): real
    requires n <= |stats|
  {
    if n == 0 then 0.0 else MeanTotal(stats, n - 1) + stats[n - 1].mean
  }

  ghost function SpreadTotal(stats: seq<Stat>, mean: real, n: nat): real
    requires n <= |stats|
  {
    if n == 0 then 0.0 else SpreadTotal(stats, mean, n - 1) + (stats[n - 1].variance + Square(stats[n - 1].mean - mean))
  }

  lemma {:induction false} MeansAdd(row: seq<real>, width: nat, parts: nat, stats: seq<Stat>, n: nat)
    requires IsPartStats(row, width, parts, stats) && n <= parts
    ensures n * width <= |row| && Sum(row, n * width) == Times(width as real, MeanTotal(stats, n))
  {
    MulMonotone(n, parts, width);
    if n > 0 {
      var p := n - 1;
      MeansAdd(row, width, parts, stats, p);
      MulNext(p, width);
      assert IsStatOf(row, width, p, stats[p]);
      SumSplits(row, p * width, width);
      SumOfSlice(row, p * width, width, width);
      OverTimes(Sum(Part(row, width, p), width), width);
      TimesAdds(width as real, MeanTotal(stats, p), stats[p].mean);
    } else {
      assert 0 * width == 0;
    }
  }

  lemma TimesAdds(a: real, b: real, c: real)
    ensures Times(a, b + c) == Times(a, b) + Times(a, c)
  {
  }

  lemma {:induction false} SpreadsAdd(row: seq<real>, width: nat, parts: nat, stats: seq<Stat>, mean: real, n: nat)
    requires IsPartStats(row, width, parts, stats) && n <= parts
    ensures n * width <= |row| && Spread(row, mean, n * width) == Times(width as real, SpreadTotal(stats, mean, n))
  {
    hide Variance, Mean, Times, Square;
    MulMonotone(n, parts, width);
    if n > 0 {
      var p := n - 1;
      SpreadsAdd(row, width, parts, stats, mean, p);
      MulNext(p, width);
      assert IsStatOf(row, width, p, stats[p]);
      SpreadSplits(row, mean, p * width, width);
      SpreadOfSlice(row, mean, p * width, width, width);
      PartSpread(Part(row, width, p), mean);
      TimesAdds(width as real, SpreadTotal(stats, mean, p), stats[p].variance + Square(stats[p].mean - mean));
    } else {
      TimesZero(width as real);
    }
  }

  lemma TimesZero(a: real)
    ensures Times(a, 0.0) == 0.0
  {
  }

  lemma OverCancels(total: real, width: nat, parts: nat)
    requires width > 0 && parts > 0
    ensures parts * width > 0 && Over(Times(width as real, total), parts * width) == Over(total, parts)
  {
    MulMonotone(1, parts, width);
    var n := parts * width;
    var r := Over(total, parts);
    assert r * parts as real == total;
    assert n as real == parts as real * width as real;
    assert Times(width as real, total) == r * n as real;
  }

  /** Combining the parts' moments as the kernel does gives the moments of the whole row. */
  lemma PartsCombine(row: seq<real>, width: nat, parts: nat, stats: seq<Stat>)
    requires IsPartStats(row, width, parts, stats)
    ensures |row| > 0
    ensures Over(MeanTotal(stats, parts), parts) == Mean(row)
    ensures Over(SpreadTotal(stats, Mean(row), parts), parts) == Variance(row)
  {
    hide SpreadTotal, MeanTotal, Spread, Sum, Times;
    OverCancels(MeanTotal(stats, parts), width, parts);
    MeansAdd(row, width, parts, stats, parts);
    SpreadsAdd(row, width, parts, stats, Mean(row), parts);
    OverCancels(SpreadTotal(stats, Mean(row), parts), width, parts);
  }

  /** The mean and variance that are applied to a row are those of the row. */
  method CombineRow(stats: seq<Stat>, base: nat, parts: nat, ghost row: seq<real>, ghost width: nat)
    returns (mean: real, variance: real)
    requires base + parts <= |stats| && IsPartStats(row, width, parts, stats[base..base + parts])
    ensures |row| > 0 && mean == Mean(row) && variance == Variance(row)
  {
    hide IsPartStats, Mean, Variance, MeanTotal, SpreadTotal;
    ghost var own := stats[base..base + parts];
    HasParts(row, width, parts, own);
    PartsCombine(row, width, parts, own);
    var means := AddMeans(stats, base, parts);
    mean := means / parts as real;
    var spreads := AddSpreads(stats, base, parts, mean);
    variance := spreads / parts as real;
  }

  method AddMeans(stats: seq<Stat>, base: nat, parts: nat) returns (total: real)
    requires base + parts <= |stats|
    ensures total == MeanTotal(stats[base..base + parts], parts)
  {
    ghost var own := stats[base..base + parts];
    total := 0.0;
    for part := 0 to parts
      invariant total == MeanTotal(own, part)
    {
      total := total + stats[base + part].mean;
    }
  }

  method AddSpreads(stats: seq<Stat>, base: nat, parts: nat, mean: real) returns (total: real)
    requires base + parts <= |stats|
    ensures total == SpreadTotal(stats[base..base + parts], mean, parts)
  {
    ghost var own := stats[base..base + parts];
    total := 0.0;
    for part := 0 to parts
      invariant total == SpreadTotal(own, mean, part)
    {
      var delta := stats[base + part].mean - mean;
      total := total + (stats[base + part].variance + delta * delta);
    }
  }

  lemma HasParts(row: seq<real>, width: nat, parts: nat, stats: seq<Stat>)
    requires IsPartStats(row, width, parts, stats)
    ensures parts > 0 && |stats| == parts
  {
  }

  /** A row of even parts, summed part by part and combined, gets exactly its own moments,
      whatever the alignment of each part and the order of the workers in each of its stages. */
  method RowMoments(row: seq<real>, width: nat, parts: nat, aligned: seq<bool>, first: seq<seq<nat>>, second: seq<seq<nat>>)
    returns (mean: real, variance: real)
    requires width > 0 && width % 2 == 0 && parts > 0 && |row| == parts * width
    requires |aligned| == |first| == |second| == parts
    requires forall p :: 0 <= p < parts ==> AllSix(first[p]) && AllSix(second[p])
    ensures |row| > 0 && mean == Mean(row) && variance == Variance(row)
  {
    hide Mean, Variance, KernelMean, KernelVariance;
    var stats: seq<Stat> := [];
    for part := 0 to parts
      invariant |stats| == part
      invariant forall p :: 0 <= p < part ==> IsStatOf(row, width, p, stats[p])
    {
      PartInside(part, parts, width);
      var moments := new Moments(row[part * width..part * width + width], aligned[part]);
      moments.Run(first[part], second[part]);
      stats := stats + [Stat(moments.mean, moments.variance)];
    }
    assert stats[0..0 + parts] == stats;
    StatsAreParts(row, width, parts, stats);
    mean, variance := CombineRow(stats, 0, parts, row, width);
  }

  lemma StatsAreParts(row: seq<real>, width: nat, parts: nat, stats: seq<Stat>)
    requires width > 0 && parts > 0 && |row| == parts * width && |stats| == parts
    requires forall p :: 0 <= p < parts ==> IsStatOf(row, width, p, stats[p])
    ensures IsPartStats(row, width, parts, stats)
  {
  }
}
