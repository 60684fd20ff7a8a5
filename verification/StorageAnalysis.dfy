/** Memory peaks of a program and the capacity screen built on them
    (crates/ipu-codegen/src/estimate/mid.rs, memory.rs).

    The same analysis runs in two forms: on the memory of every tile, and on one column that
    holds for each storage root the size of its largest shard. The planner accepts a program
    on the second, cheaper form alone when it fits the memory budget. The module proves that
    the shortcut accepts a program exactly when the memory of every tile fits. */
module StorageAnalysis {
  import opened Saturating
  import opened StorageAccounting
  import DivMod

  // ---------------------------------------------------------------------------
  // Peaks by definition
  // ---------------------------------------------------------------------------

  /** `bytes[id][t]` is what root `id` needs on tile `t`; `scratch[i][t]` and `kernel[i]` are
      the scratch of step i on tile t and the standard scratch of its kernel. */
  datatype Storage = Storage(plan: Plan, tiles: nat, bytes: seq<seq<nat>>, scratch: seq<seq<Usage>>, kernel: seq<nat>) {
    ghost predicate Valid() {
      && plan.Valid()
      && |bytes| == |plan.classes| && (forall id :: 0 <= id < |bytes| ==> |bytes[id]| == tiles)
      && |scratch| == |kernel| == |plan.touched|
      && (forall i :: 0 <= i < |scratch| ==> |scratch[i]| == tiles)
    }

    /** The sizes that tile `t` keeps in memory of one class. */
    ghost function Sizes(t: nat, class_: MemoryClass): (r: seq<nat>)
      requires Valid() && t < tiles
      ensures |r| == |plan.classes|
    {
      seq(|plan.classes|, id requires 0 <= id < |plan.classes| =>
        if plan.classes[id] == class_ then bytes[id][t] else 0)
    }

    ghost function Scratch(i: nat, t: nat): Usage
      requires Valid() && i <= |plan.touched| && t < tiles
    {
      if i == 0 then Usage(0, 0) else scratch[i - 1][t]
    }

    ghost function Kernel(i: nat): nat
      requires Valid() && i <= |plan.touched|
    {
      if i == 0 then 0 else kernel[i - 1]
    }
  }

  /** The memory of tile `t` in entry `i`, without scratch. */
  ghost function UsageAt(s: Storage, i: nat, t: nat): Option<Usage>
    requires s.Valid() && i <= |s.plan.touched| && t < s.tiles
  {
    var standard := UsedAt(s.plan, s.Sizes(t, Standard), i);
    var interleaved := UsedAt(s.plan, s.Sizes(t, Interleaved), i);
    if standard.Some? && interleaved.Some? then Some(Usage(standard.value, interleaved.value)) else None
  }

  /** The largest live standard root among the first `k`. */
  ghost function LargestStandard(s: Storage, live: seq<bool>, k: nat): nat
    requires s.Valid() && k <= |live| == |s.plan.classes|
  {
    if k == 0 then 0
    else
      var before := LargestStandard(s, live, k - 1);
      if live[k - 1] && s.plan.classes[k - 1].Standard? then Max2(before, Maximum(s.bytes[k - 1])) else before
  }

  ghost function MaximumAt(s: Storage, i: nat): nat
    requires s.Valid() && i <= |s.plan.touched|
  {
    Max2(LargestStandard(s, LiveAt(s.plan, i), |s.plan.classes|), s.Kernel(i))
  }

  /** The peaks after the first `t` tiles of entry `i`. */
  ghost function ObserveTiles(s: Storage, peaks: Peaks, i: nat, t: nat): Option<Peaks>
    requires s.Valid() && i <= |s.plan.touched| && t <= s.tiles
  {
    if t == 0 then Some(peaks)
    else
      var before := ObserveTiles(s, peaks, i, t - 1);
      var usage := UsageAt(s, i, t - 1);
      if before.Some? && usage.Some? then
        Some(before.value.Observe(usage.value.Plus(s.Scratch(i, t - 1)), MaximumAt(s, i)))
      else None
  }

  ghost function PeaksAfter(s: Storage, n: nat): Option<Peaks>
    requires s.Valid() && n <= |s.plan.touched| + 1
  {
    if n == 0 then Some(Peaks(0, 0, 0, 0))
    else
      var before := PeaksAfter(s, n - 1);
      if before.None? then None else ObserveTiles(s, before.value, n - 1, s.tiles)
  }

  // ---------------------------------------------------------------------------
  // A bound that never overflows dominates every tile
  // ---------------------------------------------------------------------------

  /** `bound` has one column, and no tile of `refined` needs more than it for any root or scratch. */
  ghost predicate Bounds(bound: Storage, refined: Storage) {
    && bound.Valid() && refined.Valid() && bound.tiles == 1
    && bound.plan == refined.plan && bound.kernel == refined.kernel
    && (forall id, t :: 0 <= id < |refined.bytes| && 0 <= t < refined.tiles ==>
          refined.bytes[id][t] <= bound.bytes[id][0])
    && (forall i, t :: 0 <= i < |refined.scratch| && 0 <= t < refined.tiles ==>
          refined.scratch[i][t].Within(bound.scratch[i][0]))
  }

  ghost predicate NeverOverflowing(s: Storage, i: nat)
    requires s.Valid() && i <= |s.plan.touched| && s.tiles == 1
  {
    RunNeverOverflows(s.plan, s.Sizes(0, Standard), i) && RunNeverOverflows(s.plan, s.Sizes(0, Interleaved), i)
  }

  lemma UsageBelow(bound: Storage, refined: Storage, i: nat, t: nat)
    requires Bounds(bound, refined) && i <= |bound.plan.touched| && t < refined.tiles && NeverOverflowing(bound, i)
    ensures UsageAt(bound, i, 0).Some? && UsageAt(refined, i, t).Some?
    ensures UsageAt(refined, i, t).value.Within(UsageAt(bound, i, 0).value)
  {
    UsedBelow(bound.plan, refined.Sizes(t, Standard), bound.Sizes(0, Standard), i);
    UsedBelow(bound.plan, refined.Sizes(t, Interleaved), bound.Sizes(0, Interleaved), i);
  }

  lemma {:induction false} LargestStandardBelow(bound: Storage, refined: Storage, live: seq<bool>, k: nat)
    requires Bounds(bound, refined) && k <= |live| == |bound.plan.classes|
    ensures LargestStandard(refined, live, k) <= LargestStandard(bound, live, k)
  {
    if k > 0 {
      LargestStandardBelow(bound, refined, live, k - 1);
      MaximumBounds(refined.bytes[k - 1]);
      MaximumBounds(bound.bytes[k - 1]);
    }
  }

  lemma {:induction false} ObserveBelow(bound: Storage, refined: Storage, b: Peaks, r: Peaks, i: nat, t: nat)
    requires Bounds(bound, refined) && i <= |bound.plan.touched| && t <= refined.tiles && NeverOverflowing(bound, i)
    requires b.Dominates(r)
    ensures ObserveTiles(bound, b, i, 1).Some? && ObserveTiles(refined, r, i, t).Some?
    ensures ObserveTiles(bound, b, i, 1).value.Dominates(ObserveTiles(refined, r, i, t).value)
  {
    hide UsageAt, NeverOverflowing, LargestStandard;
    LargestStandardBelow(bound, refined, LiveAt(bound.plan, i), |bound.plan.classes|);
    assert ObserveTiles(bound, b, i, 0) == Some(b);
    if t == 0 {
      UsageAtBound(bound, i);
    } else {
      ObserveBelow(bound, refined, b, r, i, t - 1);
      UsageBelow(bound, refined, i, t - 1);
      assert refined.Scratch(i, t - 1).Within(bound.Scratch(i, 0));
    }
  }

  lemma UsageAtBound(bound: Storage, i: nat)
    requires bound.Valid() && bound.tiles == 1 && i <= |bound.plan.touched| && NeverOverflowing(bound, i)
    ensures UsageAt(bound, i, 0).Some?
  {
    UsedIsTotalIff(bound.plan, bound.Sizes(0, Standard), i);
    UsedIsTotalIff(bound.plan, bound.Sizes(0, Interleaved), i);
  }

  lemma {:induction false} OverflowPersists(s: Storage, i: nat, n: nat)
    requires s.Valid() && i <= n <= |s.plan.touched| && s.tiles == 1 && NeverOverflowing(s, n)
    ensures NeverOverflowing(s, i)
    decreases n
  {
    if i < n {
      OverflowPersists(s, i, n - 1);
    }
  }

  /** The peaks of the single column are at least those of every tile in every dimension,
      as long as the column's own sums never overflow. */
  lemma {:induction false} BoundDominates(bound: Storage, refined: Storage, n: nat)
    requires Bounds(bound, refined) && n <= |bound.plan.touched| + 1
    requires n > 0 ==> NeverOverflowing(bound, n - 1)
    ensures PeaksAfter(bound, n).Some? && PeaksAfter(refined, n).Some?
    ensures PeaksAfter(bound, n).value.Dominates(PeaksAfter(refined, n).value)
  {
    hide NeverOverflowing, ObserveTiles, UsageAt, LargestStandard;
    if n > 0 {
      if n > 1 {
        OverflowPersists(bound, n - 2, n - 1);
      }
      BoundDominates(bound, refined, n - 1);
      ObserveBelow(bound, refined, PeaksAfter(bound, n - 1).value, PeaksAfter(refined, n - 1).value, n - 1, refined.tiles);
    }
  }

  // ---------------------------------------------------------------------------
  // The capacity screen
  // ---------------------------------------------------------------------------

  datatype Limits = Limits(interleaved: nat, planned: nat, budget: nat, reserved: nat, largestStandard: nat)

  function Fits(peaks: Peaks, limits: Limits): bool {
    && peaks.interleaved <= limits.interleaved
    && Clamp(peaks.total + limits.reserved) <= (if limits.budget <= limits.planned then limits.budget else limits.planned)
    && peaks.maximumStandard <= limits.largestStandard
  }

  /** Peaks only grow. */
  lemma {:induction false} ObservedIsBelow(s: Storage, peaks: Peaks, i: nat, t: nat, u: nat)
    requires s.Valid() && i <= |s.plan.touched| && u < t <= s.tiles && ObserveTiles(s, peaks, i, t).Some?
    ensures UsageAt(s, i, u).Some?
    ensures UsageAt(s, i, u).value.Plus(s.Scratch(i, u)).Total() <= ObserveTiles(s, peaks, i, t).value.total
    decreases t
  {
    hide UsageAt, MaximumAt, Clamp, Plan.Valid, Storage.Valid;
    if u < t - 1 {
      ObservedIsBelow(s, peaks, i, t - 1, u);
    }
  }

  lemma {:induction false} ObservedGrows(s: Storage, peaks: Peaks, i: nat, t: nat)
    requires s.Valid() && i <= |s.plan.touched| && t <= s.tiles && ObserveTiles(s, peaks, i, t).Some?
    ensures peaks.total <= ObserveTiles(s, peaks, i, t).value.total
  {
    hide UsageAt, MaximumAt;
    if t > 0 {
      ObservedGrows(s, peaks, i, t - 1);
    }
  }

  lemma {:induction false} UsageIsBelowPeak(s: Storage, i: nat, t: nat, n: nat)
    requires s.Valid() && i < n <= |s.plan.touched| + 1 && t < s.tiles && PeaksAfter(s, n).Some?
    ensures UsageAt(s, i, t).Some?
    ensures UsageAt(s, i, t).value.Plus(s.Scratch(i, t)).Total() <= PeaksAfter(s, n).value.total
    decreases n
  {
    hide UsageAt, ObserveTiles, Usage.Plus, Usage.Total;
    var before := PeaksAfter(s, n - 1).value;
    if i == n - 1 {
      ObservedIsBelow(s, before, i, s.tiles, t);
    } else {
      UsageIsBelowPeak(s, i, t, n - 1);
      ObservedGrows(s, before, n - 1, s.tiles);
    }
  }

  /** What all tiles need in all entries stays below `cap`. */
  ghost predicate NeedWithin(s: Storage, i: nat, t: nat, cap: Peaks)
    requires s.Valid() && i <= |s.plan.touched| && t < s.tiles
  {
    && UsageAt(s, i, t).Some?
    && cap.Dominates(Peaks(0, 0, 0, 0).Observe(UsageAt(s, i, t).value.Plus(s.Scratch(i, t)), MaximumAt(s, i)))
  }

  /** Then the peaks do. */
  lemma {:induction false} PeaksWithin(s: Storage, cap: Peaks, n: nat)
    requires s.Valid() && n <= |s.plan.touched| + 1
    requires forall i, t :: 0 <= i < n && 0 <= t < s.tiles ==> NeedWithin(s, i, t, cap)
    ensures PeaksAfter(s, n).Some? && cap.Dominates(PeaksAfter(s, n).value)
  {
    hide NeedWithin, ObserveTiles;
    if n > 0 {
      PeaksWithin(s, cap, n - 1);
      TilesWithin(s, PeaksAfter(s, n - 1).value, cap, n - 1, s.tiles);
    }
  }

  lemma {:induction false} TilesWithin(s: Storage, peaks: Peaks, cap: Peaks, i: nat, t: nat)
    requires s.Valid() && i <= |s.plan.touched| && t <= s.tiles && cap.Dominates(peaks)
    requires forall u :: 0 <= u < t ==> NeedWithin(s, i, u, cap)
    ensures ObserveTiles(s, peaks, i, t).Some? && cap.Dominates(ObserveTiles(s, peaks, i, t).value)
  {
    hide UsageAt, MaximumAt, Usage.Plus, Usage.Total;
    if t > 0 {
      TilesWithin(s, peaks, cap, i, t - 1);
      assert NeedWithin(s, i, t - 1, cap);
    }
  }

  lemma {:induction false} MaximumWithin(s: Storage, cap: nat, live: seq<bool>, k: nat)
    requires s.Valid() && k <= |live| == |s.plan.classes|
    requires forall id, t :: 0 <= id < |s.bytes| && 0 <= t < s.tiles ==> s.bytes[id][t] <= cap
    ensures LargestStandard(s, live, k) <= cap
  {
    if k > 0 {
      MaximumWithin(s, cap, live, k - 1);
      MaximumBounds(s.bytes[k - 1]);
    }
  }

  /** Where the peaks stay below half the word range, the sums of every tile are exact. */
  lemma SmallTileIsExact(s: Storage, t: nat, n: nat)
    requires s.Valid() && t < s.tiles && n <= |s.plan.touched| && PeaksAfter(s, n + 1).Some?
    requires 2 * PeaksAfter(s, n + 1).value.total < U64_MAX
    ensures RunNeverOverflows(s.plan, s.Sizes(t, Standard), n) && RunNeverOverflows(s.plan, s.Sizes(t, Interleaved), n)
  {
    hide PeaksAfter, UsedAt, RunNeverOverflows;
    var cap := PeaksAfter(s, n + 1).value.total;
    forall i | 0 <= i <= n
      ensures UsedAt(s.plan, s.Sizes(t, Standard), i).Some? && UsedAt(s.plan, s.Sizes(t, Standard), i).value <= cap
      ensures UsedAt(s.plan, s.Sizes(t, Interleaved), i).Some? && UsedAt(s.plan, s.Sizes(t, Interleaved), i).value <= cap
    {
      UsageIsBelowPeak(s, i, t, n + 1);
    }
    SmallNeverOverflows(s.plan, s.Sizes(t, Standard), cap, n);
    SmallNeverOverflows(s.plan, s.Sizes(t, Interleaved), cap, n);
  }

  /** Peaks that stay below half the word range are peaks of true sums. */
  lemma SmallPeaksAreExact(s: Storage, n: nat)
    requires s.Valid() && s.tiles == 1 && n <= |s.plan.touched| && PeaksAfter(s, n + 1).Some?
    requires 2 * PeaksAfter(s, n + 1).value.total < U64_MAX
    ensures NeverOverflowing(s, n)
  {
    hide PeaksAfter, RunNeverOverflows;
    SmallTileIsExact(s, 0, n);
  }

  /** A bound that fits means that every tile fits, although saturation may have made the
      bound's sums inexact: the budget leaves no room for that. */
  lemma FittingBoundIsSound(bound: Storage, refined: Storage, limits: Limits)
    requires Bounds(bound, refined) && 2 * limits.planned < U64_MAX
    requires PeaksAfter(bound, |bound.plan.touched| + 1).Some?
    requires Fits(PeaksAfter(bound, |bound.plan.touched| + 1).value, limits)
    ensures PeaksAfter(refined, |bound.plan.touched| + 1).Some?
    ensures PeaksAfter(bound, |bound.plan.touched| + 1).value.Dominates(PeaksAfter(refined, |bound.plan.touched| + 1).value)
    ensures Fits(PeaksAfter(refined, |bound.plan.touched| + 1).value, limits)
  {
    var n := |bound.plan.touched|;
    hide PeaksAfter, NeverOverflowing;
    SmallPeaksAreExact(bound, n);
    BoundDominates(bound, refined, n + 1);
  }

  // ---------------------------------------------------------------------------
  // A program that fits has a bound
  // ---------------------------------------------------------------------------

  /** Each size of the column is needed on some tile. */
  ghost predicate Attained(bound: Storage, refined: Storage)
    requires Bounds(bound, refined)
  {
    forall id :: 0 <= id < |bound.bytes| ==>
      bound.bytes[id][0] == 0 || exists t :: 0 <= t < refined.tiles && refined.bytes[id][t] == bound.bytes[id][0]
  }

  lemma {:induction false} MemberIsBelowSum(live: seq<bool>, sizes: seq<nat>, id: nat, k: nat)
    requires id < k <= |live| == |sizes| && live[id]
    ensures sizes[id] <= Sum(live, sizes, k)
  {
    if id < k - 1 {
      MemberIsBelowSum(live, sizes, id, k - 1);
    }
  }

  /** A root that is ever live on fitting tiles is small in the column too. */
  lemma LiveRootIsSmall(bound: Storage, refined: Storage, i: nat, n: nat, id: nat)
    requires Bounds(bound, refined) && Attained(bound, refined)
    requires i <= n <= |bound.plan.touched| && id < |bound.bytes| && LiveAt(bound.plan, i)[id]
    requires PeaksAfter(refined, n + 1).Some? && 2 * PeaksAfter(refined, n + 1).value.total < U64_MAX
    ensures bound.bytes[id][0] <= PeaksAfter(refined, n + 1).value.total
  {
    hide LiveAt, PeaksAfter, UsedAt, RunNeverOverflows;
    if bound.bytes[id][0] > 0 {
      var t :| 0 <= t < refined.tiles && refined.bytes[id][t] == bound.bytes[id][0];
      var sizes := refined.Sizes(t, bound.plan.classes[id]);
      UsageIsBelowPeak(refined, i, t, n + 1);
      SmallTileIsExact(refined, t, n);
      ExactBefore(refined.plan, sizes, i, n);
      UsedIsTotalIff(refined.plan, sizes, i);
      MemberIsBelowSum(LiveAt(bound.plan, i), sizes, id, |sizes|);
    }
  }

  lemma {:induction false} ExactBefore(p: Plan, sizes: seq<nat>, i: nat, n: nat)
    requires p.Valid() && i <= n <= |p.touched| && |sizes| == |p.classes| && RunNeverOverflows(p, sizes, n)
    ensures RunNeverOverflows(p, sizes, i)
    decreases n
  {
    if i < n {
      ExactBefore(p, sizes, i, n - 1);
    }
  }

  ghost predicate LiveWithin(live: seq<bool>, sizes: seq<nat>, cap: nat) {
    |live| == |sizes| && forall id :: 0 <= id < |live| && live[id] ==> sizes[id] <= cap
  }

  lemma {:induction false} SmallSum(live: seq<bool>, sizes: seq<nat>, cap: nat, k: nat, m: nat)
    requires LiveWithin(live, sizes, cap) && k <= m <= |live|
    ensures Sum(live, sizes, m) - Sum(live, sizes, k) <= (m - k) * cap
    decreases m
  {
    if k < m {
      SmallSum(live, sizes, cap, k, m - 1);
      assert (m - k) * cap == (m - 1 - k) * cap + cap;
    }
  }

  /** Sums of small live sizes never overflow. */
  lemma {:induction false} SmallLiveNeverOverflows(p: Plan, sizes: seq<nat>, cap: nat, n: nat)
    requires p.Valid() && n <= |p.touched| && |sizes| == |p.classes| && |sizes| * cap <= U64_MAX
    requires forall i :: 0 <= i <= n ==> LiveWithin(LiveAt(p, i), sizes, cap)
    ensures RunNeverOverflows(p, sizes, n)
  {
    hide LiveAt, LiveWithin;
    var from, to := LiveBefore(p, n), LiveAt(p, n);
    assert LiveWithin(from, sizes, cap) by {
      NothingIsWithin(sizes, cap);
    }
    assert LiveWithin(to, sizes, cap);
    forall m | 0 <= m <= |sizes|
      ensures Midway(from, to, sizes, m) <= U64_MAX
    {
      SmallSum(from, sizes, cap, m, |sizes|);
      SmallSum(to, sizes, cap, 0, m);
      assert (|sizes| - m) * cap + m * cap == |sizes| * cap;
    }
    if n > 0 {
      SmallLiveNeverOverflows(p, sizes, cap, n - 1);
    }
  }

  lemma NothingIsWithin(sizes: seq<nat>, cap: nat)
    ensures LiveWithin(NoneLive(|sizes|), sizes, cap)
  {
  }

  /** When the tiles fit a limit that the roots cannot jointly take beyond 64 bits, the column's
      sums never overflow. */
  lemma FittingTilesBoundColumn(bound: Storage, refined: Storage, n: nat)
    requires Bounds(bound, refined) && Attained(bound, refined) && n <= |bound.plan.touched|
    requires PeaksAfter(refined, n + 1).Some? && 2 * PeaksAfter(refined, n + 1).value.total < U64_MAX
    requires |bound.plan.classes| * PeaksAfter(refined, n + 1).value.total <= U64_MAX
    ensures NeverOverflowing(bound, n)
  {
    hide LiveAt, PeaksAfter, UsedAt, RunNeverOverflows;
    var cap := PeaksAfter(refined, n + 1).value.total;
    forall i | 0 <= i <= n
      ensures LiveWithin(LiveAt(bound.plan, i), bound.Sizes(0, Standard), cap)
      ensures LiveWithin(LiveAt(bound.plan, i), bound.Sizes(0, Interleaved), cap)
    {
      forall id | 0 <= id < |bound.bytes| && LiveAt(bound.plan, i)[id]
        ensures bound.bytes[id][0] <= cap
      {
        LiveRootIsSmall(bound, refined, i, n, id);
      }
    }
    SmallLiveNeverOverflows(bound.plan, bound.Sizes(0, Standard), cap, n);
    SmallLiveNeverOverflows(bound.plan, bound.Sizes(0, Interleaved), cap, n);
  }

  /** The peaks reported for a program: those of the bound when it fits, else those of every tile. */
  ghost function WithBudget(bound: Storage, refined: Storage, limits: Limits): Option<Peaks>
    requires bound.Valid() && refined.Valid()
  {
    var quick := PeaksAfter(bound, |bound.plan.touched| + 1);
    if quick.None? then None
    else if Fits(quick.value, limits) then quick
    else PeaksAfter(refined, |refined.plan.touched| + 1)
  }

  lemma BoundsAgree(bound: Storage, refined: Storage)
    requires Bounds(bound, refined)
    ensures bound.Valid() && refined.Valid() && bound.tiles == 1 && bound.plan == refined.plan
    ensures refined.tiles == 1 ==> Bounds(refined, refined)
  {
  }

  ghost predicate Accepted(peaks: Option<Peaks>, limits: Limits) {
    peaks.Some? && Fits(peaks.value, limits)
  }

  lemma FittingTotal(peaks: Peaks, limits: Limits, roots: nat)
    requires Fits(peaks, limits) && 2 * limits.planned < U64_MAX && roots * limits.planned <= U64_MAX
    ensures 2 * peaks.total < U64_MAX && roots * peaks.total <= U64_MAX
  {
    DivMod.MulMonotone(peaks.total, limits.planned, roots);
  }

  /** Screening on the bound first accepts exactly the programs whose tiles fit. The limits are
      sizes of tile memory, far below what all roots together would need to leave 64 bits. */
  lemma ScreenIsExact(bound: Storage, refined: Storage, limits: Limits)
    requires Bounds(bound, refined) && Attained(bound, refined)
    requires 2 * limits.planned < U64_MAX && |bound.plan.classes| * limits.planned <= U64_MAX
    ensures Accepted(WithBudget(bound, refined, limits), limits) <==>
            Accepted(PeaksAfter(refined, |refined.plan.touched| + 1), limits)
  {
    hide PeaksAfter, Attained, NeverOverflowing, Bounds, Fits;
    BoundsAgree(bound, refined);
    var n := |bound.plan.touched|;
    var quick, slow := PeaksAfter(bound, n + 1), PeaksAfter(refined, n + 1);
    if Accepted(quick, limits) {
      FittingBoundIsSound(bound, refined, limits);
    }
    if Accepted(slow, limits) {
      FittingTotal(slow.value, limits, |bound.plan.classes|);
      FittingTilesBoundColumn(bound, refined, n);
      BoundDominates(bound, refined, n + 1);
    }
  }

  // ---------------------------------------------------------------------------
  // When an analysis can be computed
  // ---------------------------------------------------------------------------

  /** No sum of a tile falls far in the first `n` entries. */
  ghost predicate Computable(s: Storage, n: nat)
    requires s.Valid() && n <= |s.plan.touched| + 1
  {
    n == 0 || EntryComputable(s, n - 1)
  }

  ghost predicate EntryComputable(s: Storage, i: nat)
    requires s.Valid() && i <= |s.plan.touched|
  {
    forall t :: 0 <= t < s.tiles ==> TileComputable(s, i, t)
  }

  ghost predicate TileComputable(s: Storage, i: nat, t: nat)
    requires s.Valid() && i <= |s.plan.touched| && t < s.tiles
  {
    && !FallsFar(s.plan, s.Sizes(t, Standard), i, |s.plan.classes|)
    && !FallsFar(s.plan, s.Sizes(t, Interleaved), i, |s.plan.classes|)
  }

  lemma UsageIsComputable(s: Storage, i: nat, t: nat)
    requires s.Valid() && i <= |s.plan.touched| && t < s.tiles
    ensures UsageAt(s, i, t).Some? <==> TileComputable(s, i, t)
  {
    hide UsedAt, FallsFar;
    UsedAtIs(s.plan, s.Sizes(t, Standard), i);
    UsedAtIs(s.plan, s.Sizes(t, Interleaved), i);
  }

  lemma {:induction false} ObservedIff(s: Storage, peaks: Peaks, i: nat, t: nat)
    requires s.Valid() && i <= |s.plan.touched| && t <= s.tiles
    ensures ObserveTiles(s, peaks, i, t).Some? <==> forall u :: 0 <= u < t ==> UsageAt(s, i, u).Some?
  {
    hide UsageAt, MaximumAt;
    if t > 0 {
      ObservedIff(s, peaks, i, t - 1);
    }
  }

  lemma {:induction false} FallStays(p: Plan, sizes: seq<nat>, i: nat, k: nat)
    requires p.Valid() && 0 < i <= |p.touched| && k <= |sizes| == |p.classes|
    ensures FallsFar(p, sizes, i - 1, |sizes|) ==> FallsFar(p, sizes, i, k)
  {
    if k > 0 {
      FallStays(p, sizes, i, k - 1);
    }
  }

  lemma EntryBeforeComputable(s: Storage, i: nat)
    requires s.Valid() && i <= |s.plan.touched|
    ensures i > 0 && EntryComputable(s, i) ==> EntryComputable(s, i - 1)
  {
    hide FallsFar;
    if i > 0 && EntryComputable(s, i) {
      var before := i - 1;
      forall t | 0 <= t < s.tiles
        ensures TileComputable(s, before, t)
      {
        assert TileComputable(s, i, t);
        FallStays(s.plan, s.Sizes(t, Standard), i, |s.plan.classes|);
        FallStays(s.plan, s.Sizes(t, Interleaved), i, |s.plan.classes|);
      }
    }
  }

  /** An analysis gives peaks exactly when no sum of any tile falls far. */
  lemma {:induction false} ComputableIff(s: Storage, n: nat)
    requires s.Valid() && n <= |s.plan.touched| + 1
    ensures PeaksAfter(s, n).Some? <==> Computable(s, n)
  {
    hide ObserveTiles, UsageAt, FallsFar;
    if n > 0 {
      var i := n - 1;
      ComputableIff(s, i);
      forall t | 0 <= t < s.tiles
        ensures UsageAt(s, i, t).Some? <==> TileComputable(s, i, t)
      {
        UsageIsComputable(s, i, t);
      }
      EntryBeforeComputable(s, i);
      if PeaksAfter(s, i).Some? {
        ObservedIff(s, PeaksAfter(s, i).value, i, s.tiles);
      }
    }
  }

  /** Whatever the number of roots and the limit below half the word range, the screen accepts
      exactly the programs whose tiles fit and whose column has no sum that falls far. */
  lemma ScreenIffComputable(bound: Storage, refined: Storage, limits: Limits)
    requires Bounds(bound, refined) && 2 * limits.planned < U64_MAX
    ensures Accepted(WithBudget(bound, refined, limits), limits) <==>
            Computable(bound, |bound.plan.touched| + 1)
            && Accepted(PeaksAfter(refined, |refined.plan.touched| + 1), limits)
  {
    hide PeaksAfter, Computable;
    ComputableIff(bound, |bound.plan.touched| + 1);
    if Accepted(PeaksAfter(bound, |bound.plan.touched| + 1), limits) {
      FittingBoundIsSound(bound, refined, limits);
    }
  }

  /** The column WIDE has one root of half the word range that dies in the step in which a
      root of the full range becomes live; on two tiles each root has a tile of its own. */
  ghost const LATE := Plan([Standard, Standard], [false, true], [[1], [0]], [1, 0])
  ghost const WIDE := Storage(LATE, 1, [[U64_MAX], [0x8000_0000_0000_0000]], [[Usage(0, 0)], [Usage(0, 0)]], [0, 0])
  ghost const APART := Storage(LATE, 2, [[U64_MAX, 0], [0, 0x8000_0000_0000_0000]],
    [[Usage(0, 0), Usage(0, 0)], [Usage(0, 0), Usage(0, 0)]], [0, 0])

  /** Without a budget the bound proves nothing: once its sum saturates, the peaks of a tile
      can lie above it. */
  lemma SaturatedBoundFails()
    ensures Bounds(WIDE, APART) && !NeverOverflowing(WIDE, 2)
    ensures PeaksAfter(WIDE, 3).Some? && PeaksAfter(APART, 3).Some?
    ensures PeaksAfter(WIDE, 3).value.total == 0x8000_0000_0000_0000
    ensures PeaksAfter(APART, 3).value.total == U64_MAX
    ensures !PeaksAfter(WIDE, 3).value.Dominates(PeaksAfter(APART, 3).value)
  {
    hide PeaksAfter, NeverOverflowing;
    WideOverflows();
    WidePeak();
    ApartPeak();
  }

  lemma WidePeak()
    ensures WIDE.Valid() && PeaksAfter(WIDE, 3).Some? && PeaksAfter(WIDE, 3).value.total == 0x8000_0000_0000_0000
  {
    hide PeaksAfter, UsageAt, NeedWithin;
    forall i, t | 0 <= i < 3 && 0 <= t < 1
      ensures NeedWithin(WIDE, i, t, Peaks(U64_MAX, 0, 0x8000_0000_0000_0000, U64_MAX))
    {
      WideNeed(i);
    }
    PeaksWithin(WIDE, Peaks(U64_MAX, 0, 0x8000_0000_0000_0000, U64_MAX), 3);
    LateUsage(WIDE, 0);
    UsageIsBelowPeak(WIDE, 0, 0, 3);
  }

  lemma WideNeed(i: nat)
    requires i < 3
    ensures WIDE.Valid() && NeedWithin(WIDE, i, 0, Peaks(U64_MAX, 0, 0x8000_0000_0000_0000, U64_MAX))
  {
    hide UsageAt, NeedWithin, LargestStandard, Storage.Valid;
    LateStorages();
    WideScratch(i);
    LateMaximum(WIDE, i);
    LateNeed(WIDE, i, 0, 0x8000_0000_0000_0000);
  }

  lemma WideScratch(i: nat)
    requires i < 3 && WIDE.Valid()
    ensures WIDE.Scratch(i, 0) == Usage(0, 0) && WIDE.Kernel(i) == 0
  {
  }

  lemma ApartScratch(i: nat, t: nat)
    requires i < 3 && t < 2 && APART.Valid()
    ensures APART.Scratch(i, t) == Usage(0, 0) && APART.Kernel(i) == 0
  {
  }

  lemma LateNeed(s: Storage, i: nat, t: nat, total: nat)
    requires s.plan == LATE && s.Valid() && i < 3 && t < s.tiles && total <= U64_MAX
    requires s.bytes[0][t] <= U64_MAX && s.bytes[1][t] <= total && Clamp(s.bytes[1][t] + s.bytes[0][t]) - s.bytes[1][t] <= total
    requires s.Scratch(i, t) == Usage(0, 0) && s.Kernel(i) == 0 && LargestStandard(s, LiveAt(s.plan, i), 2) <= U64_MAX
    ensures NeedWithin(s, i, t, Peaks(U64_MAX, 0, total, U64_MAX))
  {
    hide UsageAt, LiveAt, LargestStandard, Storage.Valid, Storage.Sizes, Storage.Scratch, Storage.Kernel;
    LateUsage(s, t);
  }

  lemma LateStorages()
    ensures WIDE.Valid() && APART.Valid()
  {
  }

  lemma LateMaximum(s: Storage, i: nat)
    requires s.plan == LATE && s.Valid() && i < 3
    requires forall id, t :: 0 <= id < |s.bytes| && 0 <= t < s.tiles ==> s.bytes[id][t] <= U64_MAX
    ensures LargestStandard(s, LiveAt(s.plan, i), 2) <= U64_MAX
  {
    hide UsageAt, LargestStandard;
    MaximumWithin(s, U64_MAX, LiveAt(s.plan, i), 2);
  }

  lemma ApartBytes(t: nat)
    requires t < 2
    ensures APART.plan == LATE && APART.tiles == 2
    ensures APART.bytes[0][t] <= U64_MAX && APART.bytes[1][t] <= U64_MAX
    ensures APART.bytes[0][t] == 0 || APART.bytes[1][t] == 0
    ensures forall id, u :: 0 <= id < |APART.bytes| && 0 <= u < 2 ==> APART.bytes[id][u] <= U64_MAX
  {
  }

  lemma ApartPeak()
    ensures APART.Valid() && PeaksAfter(APART, 3).Some? && PeaksAfter(APART, 3).value.total == U64_MAX
  {
    hide PeaksAfter, UsageAt, NeedWithin;
    forall i, t | 0 <= i < 3 && 0 <= t < 2
      ensures NeedWithin(APART, i, t, Peaks(U64_MAX, 0, U64_MAX, U64_MAX))
    {
      ApartNeed(i, t);
    }
    PeaksWithin(APART, Peaks(U64_MAX, 0, U64_MAX, U64_MAX), 3);
    LateUsage(APART, 0);
    UsageIsBelowPeak(APART, 2, 0, 3);
  }

  lemma ApartNeed(i: nat, t: nat)
    requires i < 3 && t < 2
    ensures APART.Valid() && NeedWithin(APART, i, t, Peaks(U64_MAX, 0, U64_MAX, U64_MAX))
  {
    hide UsageAt, NeedWithin, LargestStandard, Storage.Valid;
    LateStorages();
    ApartBytes(t);
    ApartScratch(i, t);
    LateMaximum(APART, i);
    LateNeed(APART, i, t, U64_MAX);
  }

  /** The memory of a tile, whose roots are all standard, in each entry. */
  lemma LateUsage(s: Storage, t: nat)
    requires s.plan == LATE && s.Valid() && t < s.tiles && s.bytes[0][t] <= U64_MAX && s.bytes[1][t] <= U64_MAX
    ensures UsageAt(s, 0, t) == UsageAt(s, 1, t) == Some(Usage(s.bytes[1][t], 0))
    ensures UsageAt(s, 2, t) == Some(Usage(Clamp(s.bytes[1][t] + s.bytes[0][t]) - s.bytes[1][t], 0))
    ensures s.Sizes(t, Standard) == [s.bytes[0][t], s.bytes[1][t]]
  {
    LateRun(s.Sizes(t, Standard));
    LateRun(s.Sizes(t, Interleaved));
  }

  lemma WideOverflows()
    ensures WIDE.Valid() && LATE.Valid() && !NeverOverflowing(WIDE, 2)
  {
    hide UsedAt, RunNeverOverflows;
    LateSets();
    LateUsage(WIDE, 0);
    var sizes := WIDE.Sizes(0, Standard);
    UsedIsTotalIff(LATE, sizes, 2);
    LateRun(sizes);
    assert Sum([true, false], sizes, 2) == Sum([true, false], sizes, 1) == U64_MAX;
  }

  lemma LateSets()
    ensures LATE.Valid() && LiveBefore(LATE, 0) == [false, false]
    ensures LiveAt(LATE, 0) == [false, true] && LiveAt(LATE, 1) == [false, true] && LiveAt(LATE, 2) == [true, false]
  {
    assert LATE.touched[0][0] == 1 && LATE.touched[1][0] == 0;
    assert !Touches([1], 0) && Touches([1], 1);
    var first := LiveAt(LATE, 1);
    assert LATE.touched[0] == [1] && first[0] == false && first[1] == true;
    assert !Touches([0], 1) && Touches([0], 0);
    var second := LiveAt(LATE, 2);
    assert LATE.touched[1] == [0] && second[0] == true && second[1] == false;
  }

  /** The memory in use when root 0 replaces root 1. */
  lemma LateRun(sizes: seq<nat>)
    requires |sizes| == 2 && sizes[0] <= U64_MAX && sizes[1] <= U64_MAX
    ensures LATE.Valid() && UsedAt(LATE, sizes, 0) == UsedAt(LATE, sizes, 1) == Some(sizes[1])
    ensures UsedAt(LATE, sizes, 2) == Some(Clamp(sizes[1] + sizes[0]) - sizes[1])
  {
    LateSets();
    var used := sizes[1];
    assert UsedAt(LATE, sizes, 0) == Some(used) by {
      assert Update(0, [false, false], [false, true], sizes, 1) == Some(0);
    }
    assert UsedAt(LATE, sizes, 1) == Some(used) by {
      assert Update(used, [false, true], [false, true], sizes, 1) == Some(used);
    }
    assert Update(used, [false, true], [true, false], sizes, 0) == Some(used);
    assert Update(used, [false, true], [true, false], sizes, 1) == Some(Clamp(used + sizes[0]));
  }
}
