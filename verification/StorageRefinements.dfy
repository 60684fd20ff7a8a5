/** When the one-column memory bound holds (crates/ipu-codegen/src/estimate/mid.rs).

    `StorageAnalysis` shows that saturation can push the bound below a tile. Here the exact
    condition is proved, on the true sums of the plan and the column's sizes alone: the bound is
    above every refinement exactly when no sum falls far and, in each dimension, what saturation
    leaves of some step covers the true need of every step. Each true need is met by some tile
    that holds only what is live at that step. */
module StorageRefinements {
  import opened Saturating
  import opened StorageAccounting
  import opened StorageAnalysis

  // ---------------------------------------------------------------------------
  // One memory class
  // ---------------------------------------------------------------------------

  /** Sizes of the live roots, cut so that their sum stays within 64 bits. */
  ghost function Capped(live: seq<bool>, sizes: seq<nat>): (r: seq<nat>)
    requires |live| == |sizes|
    ensures |r| == |sizes|
  {
    seq(|sizes|, k requires 0 <= k < |sizes| =>
      if live[k] then Clamp(Sum(live, sizes, k + 1)) - Clamp(Sum(live, sizes, k)) else 0)
  }

  lemma CappedBelow(live: seq<bool>, sizes: seq<nat>)
    requires |live| == |sizes|
    ensures Below(Capped(live, sizes), sizes)
  {
  }

  /** The cut sizes add up to the clamped sums, whatever else is taken to be live. */
  lemma {:induction false} CappedSum(live: seq<bool>, sizes: seq<nat>, set_: seq<bool>, k: nat)
    requires k <= |live| == |sizes| == |set_| && forall i :: 0 <= i < |live| && live[i] ==> set_[i]
    ensures Sum(set_, Capped(live, sizes), k) == Clamp(Sum(live, sizes, k))
  {
    if k > 0 {
      CappedSum(live, sizes, set_, k - 1);
    }
  }

  ghost function AllLive(n: nat): (r: seq<bool>)
    ensures |r| == n && forall i :: 0 <= i < n ==> r[i]
  {
    seq(n, _ => true)
  }

  lemma {:induction false} PartOfAll(live: seq<bool>, sizes: seq<nat>, k: nat, m: nat)
    requires k <= m <= |live| == |sizes|
    ensures Sum(live, sizes, m) - Sum(live, sizes, k) <= Sum(AllLive(|live|), sizes, m) - Sum(AllLive(|live|), sizes, k)
    decreases m
  {
    if k < m {
      PartOfAll(live, sizes, k, m - 1);
    }
  }

  /** Sizes that fit all together never overflow. */
  lemma {:induction false} FittingNeverOverflows(p: Plan, sizes: seq<nat>, i: nat)
    requires p.Valid() && i <= |p.touched| && |sizes| == |p.classes|
    requires Sum(AllLive(|sizes|), sizes, |sizes|) <= U64_MAX
    ensures RunNeverOverflows(p, sizes, i)
  {
    hide LiveAt;
    var from, to := LiveBefore(p, i), LiveAt(p, i);
    forall m | 0 <= m <= |sizes|
      ensures Midway(from, to, sizes, m) <= U64_MAX
    {
      PartOfAll(from, sizes, m, |sizes|);
      PartOfAll(to, sizes, 0, m);
    }
    if i > 0 {
      FittingNeverOverflows(p, sizes, i - 1);
    }
  }

  /** The clamped true sum is what some smaller sizes really use. */
  lemma CappedIsUsed(p: Plan, sizes: seq<nat>, i: nat, n: nat)
    requires p.Valid() && i <= n <= |p.touched| && |sizes| == |p.classes|
    ensures var live := LiveAt(p, i);
      && UsedAt(p, Capped(live, sizes), i) == Some(Clamp(Total(live, sizes)))
      && RunNeverOverflows(p, Capped(live, sizes), n)
  {
    hide LiveAt, RunNeverOverflows, UsedAt, Capped;
    var live := LiveAt(p, i);
    CappedSum(live, sizes, AllLive(|sizes|), |sizes|);
    CappedSum(live, sizes, live, |sizes|);
    FittingNeverOverflows(p, Capped(live, sizes), n);
    FittingNeverOverflows(p, Capped(live, sizes), i);
    UsedIsTotalIff(p, Capped(live, sizes), i);
  }

  lemma UsedBelowClamp(p: Plan, a: seq<nat>, b: seq<nat>, i: nat)
    requires p.Valid() && i <= |p.touched| && |a| == |p.classes| && Below(a, b) && UsedAt(p, a, i).Some?
    ensures UsedAt(p, a, i).value <= Clamp(Total(LiveAt(p, i), b))
  {
    hide LiveAt, UsedAt;
    UsedIsTotalIff(p, a, i);
    SumBelow(LiveAt(p, i), a, b, |a|);
  }

  /** In one step, no smaller sizes are reported as more memory exactly when the true sums say so:
      none has fallen far on the way, and if any has overflowed, none was above the present one. */
  lemma UsedDominatesIff(p: Plan, sizes: seq<nat>, i: nat)
    requires p.Valid() && i <= |p.touched| && |sizes| == |p.classes|
    ensures (forall a :: Below(a, sizes) && UsedAt(p, a, i).Some? ==>
               UsedAt(p, sizes, i).Some? && UsedAt(p, a, i).value <= UsedAt(p, sizes, i).value)
            <==> KeepsClamp(p, sizes, i)
  {
    hide LiveAt, UsedAt, Capped, KeepsClamp;
    ReportIsClampIff(p, sizes, i);
    CappedIsUsed(p, sizes, i, i);
    CappedBelow(LiveAt(p, i), sizes);
    UsedIsTotalIff(p, sizes, i);
    forall a | Below(a, sizes) && UsedAt(p, a, i).Some?
      ensures UsedAt(p, a, i).value <= Clamp(Total(LiveAt(p, i), sizes))
    {
      UsedBelowClamp(p, a, sizes, i);
    }
  }

  // ---------------------------------------------------------------------------
  // Peaks of true sums
  // ---------------------------------------------------------------------------

  /** What the column needs in entry `i`, by true sums clamped to 64 bits. */
  ghost function TrueUsage(s: Storage, i: nat): Usage
    requires s.Valid() && i <= |s.plan.touched| && s.tiles == 1
  {
    Usage(Clamp(Total(LiveAt(s.plan, i), s.Sizes(0, Standard))), Clamp(Total(LiveAt(s.plan, i), s.Sizes(0, Interleaved))))
  }

  ghost function TruePeaks(s: Storage, n: nat): Peaks
    requires s.Valid() && n <= |s.plan.touched| + 1 && s.tiles == 1
  {
    if n == 0 then Peaks(0, 0, 0, 0)
    else TruePeaks(s, n - 1).Observe(TrueUsage(s, n - 1).Plus(s.Scratch(n - 1, 0)), MaximumAt(s, n - 1))
  }

  /** No tile of a refinement is reported above the true sums of the column. */
  lemma UsageBelowTrue(bound: Storage, refined: Storage, i: nat, t: nat)
    requires Bounds(bound, refined) && i <= |bound.plan.touched| && t < refined.tiles && UsageAt(refined, i, t).Some?
    ensures UsageAt(refined, i, t).value.Within(TrueUsage(bound, i))
  {
    hide LiveAt, UsedAt;
    UsedBelowClamp(bound.plan, refined.Sizes(t, Standard), bound.Sizes(0, Standard), i);
    UsedBelowClamp(bound.plan, refined.Sizes(t, Interleaved), bound.Sizes(0, Interleaved), i);
  }

  lemma {:induction false} TilesBelowTrue(bound: Storage, refined: Storage, b: Peaks, r: Peaks, i: nat, t: nat)
    requires Bounds(bound, refined) && i <= |bound.plan.touched| && t <= refined.tiles && b.Dominates(r)
    requires ObserveTiles(refined, r, i, t).Some?
    ensures b.Observe(TrueUsage(bound, i).Plus(bound.Scratch(i, 0)), MaximumAt(bound, i))
            .Dominates(ObserveTiles(refined, r, i, t).value)
  {
    hide UsageAt, LargestStandard, TrueUsage, LiveAt;
    if t > 0 {
      TilesBelowTrue(bound, refined, b, r, i, t - 1);
      UsageBelowTrue(bound, refined, i, t - 1);
      LargestStandardBelow(bound, refined, LiveAt(bound.plan, i), |bound.plan.classes|);
      assert refined.Scratch(i, t - 1).Within(bound.Scratch(i, 0));
    }
  }

  lemma {:induction false} PeaksBelowTrue(bound: Storage, refined: Storage, n: nat)
    requires Bounds(bound, refined) && n <= |bound.plan.touched| + 1 && PeaksAfter(refined, n).Some?
    ensures TruePeaks(bound, n).Dominates(PeaksAfter(refined, n).value)
  {
    hide UsageAt, LargestStandard, TrueUsage, ObserveTiles, LiveAt;
    if n > 0 {
      PeaksBelowTrue(bound, refined, n - 1);
      TilesBelowTrue(bound, refined, TruePeaks(bound, n - 1), PeaksAfter(refined, n - 1).value, n - 1, refined.tiles);
    }
  }

  /** One tile with just what is live in entry `i`, cut to 64 bits in either class. */
  ghost function Reaching(bound: Storage, i: nat): (r: Storage)
    requires bound.Valid() && bound.tiles == 1 && i <= |bound.plan.touched|
    ensures r.tiles == 1 && r.plan == bound.plan && r.scratch == bound.scratch && r.kernel == bound.kernel
    ensures |r.bytes| == |bound.bytes|
  {
    var live := LiveAt(bound.plan, i);
    var standard, interleaved := Capped(live, bound.Sizes(0, Standard)), Capped(live, bound.Sizes(0, Interleaved));
    bound.(bytes := seq(|bound.bytes|, id requires 0 <= id < |bound.bytes| =>
      [if bound.plan.classes[id] == Standard then standard[id] else interleaved[id]]))
  }

  lemma ReachingSizes(bound: Storage, i: nat)
    requires bound.Valid() && bound.tiles == 1 && i <= |bound.plan.touched|
    ensures Bounds(bound, Reaching(bound, i))
    ensures Reaching(bound, i).Sizes(0, Standard) == Capped(LiveAt(bound.plan, i), bound.Sizes(0, Standard))
    ensures Reaching(bound, i).Sizes(0, Interleaved) == Capped(LiveAt(bound.plan, i), bound.Sizes(0, Interleaved))
  {
    hide LiveAt, Capped;
    CappedBelow(LiveAt(bound.plan, i), bound.Sizes(0, Standard));
    CappedBelow(LiveAt(bound.plan, i), bound.Sizes(0, Interleaved));
  }

  lemma ReachingUsage(bound: Storage, i: nat, n: nat)
    requires bound.Valid() && bound.tiles == 1 && i <= n <= |bound.plan.touched|
    ensures Bounds(bound, Reaching(bound, i)) && NeverOverflowing(Reaching(bound, i), n)
    ensures UsageAt(Reaching(bound, i), i, 0) == Some(TrueUsage(bound, i))
  {
    hide LiveAt, Capped, UsedAt, Reaching, RunNeverOverflows, Bounds;
    ReachingSizes(bound, i);
    BoundsAgree(bound, Reaching(bound, i));
    CappedIsUsed(bound.plan, bound.Sizes(0, Standard), i, n);
    CappedIsUsed(bound.plan, bound.Sizes(0, Interleaved), i, n);
  }

  /** Every entry of one tile is below its peaks. */
  lemma {:induction false} EntryBelowPeaks(s: Storage, i: nat, n: nat)
    requires s.Valid() && s.tiles == 1 && i < n <= |s.plan.touched| + 1 && PeaksAfter(s, n).Some?
    ensures UsageAt(s, i, 0).Some?
    ensures PeaksAfter(s, n).value.Dominates(Peaks(0, 0, 0, 0).Observe(UsageAt(s, i, 0).value.Plus(s.Scratch(i, 0)), 0))
    decreases n
  {
    hide UsageAt, MaximumAt, Usage.Plus, Usage.Total;
    var before := PeaksAfter(s, n - 1).value;
    assert ObserveTiles(s, before, n - 1, 0) == Some(before);
    if i < n - 1 {
      EntryBelowPeaks(s, i, n - 1);
    }
  }

  /** What every refinement's peaks are below includes the true need of each entry. */
  lemma TrueEntryReached(bound: Storage, peaks: Peaks, i: nat, n: nat)
    requires bound.Valid() && bound.tiles == 1 && i < n <= |bound.plan.touched| + 1
    requires forall refined :: Bounds(bound, refined) && PeaksAfter(refined, n).Some? ==>
               peaks.Dominates(PeaksAfter(refined, n).value)
    ensures peaks.Dominates(Peaks(0, 0, 0, 0).Observe(TrueUsage(bound, i).Plus(bound.Scratch(i, 0)), 0))
  {
    hide Reaching, TrueUsage, Usage.Plus, Usage.Total, PeaksAfter, UsageAt, NeverOverflowing;
    var refined := Reaching(bound, i);
    ReachingUsage(bound, i, n - 1);
    BoundsAgree(bound, refined);
    BoundDominates(refined, refined, n);
    EntryBelowPeaks(refined, i, n);
    assert refined.Scratch(i, 0) == bound.Scratch(i, 0);
  }

  /** The largest standard roots are never changed by saturation. */
  lemma {:induction false} MaximumIsTrue(s: Storage, n: nat)
    requires s.Valid() && s.tiles == 1 && n <= |s.plan.touched| + 1 && PeaksAfter(s, n).Some?
    ensures PeaksAfter(s, n).value.maximumStandard == TruePeaks(s, n).maximumStandard
  {
    hide UsageAt, MaximumAt, Usage.Plus, Usage.Total, TrueUsage;
    if n > 0 {
      MaximumIsTrue(s, n - 1);
      assert ObserveTiles(s, PeaksAfter(s, n - 1).value, n - 1, 0) == PeaksAfter(s, n - 1);
    }
  }

  lemma {:induction false} TruePeaksReached(bound: Storage, peaks: Peaks, m: nat, n: nat)
    requires bound.Valid() && bound.tiles == 1 && m <= n <= |bound.plan.touched| + 1
    requires forall refined :: Bounds(bound, refined) && PeaksAfter(refined, n).Some? ==>
               peaks.Dominates(PeaksAfter(refined, n).value)
    ensures peaks.(maximumStandard := TruePeaks(bound, m).maximumStandard).Dominates(TruePeaks(bound, m))
  {
    hide TrueUsage, Usage.Plus, Usage.Total, PeaksAfter, MaximumAt, Bounds;
    if m > 0 {
      TruePeaksReached(bound, peaks, m - 1, n);
      TrueEntryReached(bound, peaks, m - 1, n);
    }
  }

  // ---------------------------------------------------------------------------
  // Peaks of reported sums
  // ---------------------------------------------------------------------------

  datatype Dimension = OfStandard | OfInterleaved | OfTotal

  function Along(peaks: Peaks, d: Dimension): nat {
    match d
    case OfStandard => peaks.standard
    case OfInterleaved => peaks.interleaved
    case OfTotal => peaks.total
  }

  /** The true sum of one class less what its highest sum so far exceeds 64 bits. */
  ghost function Left(s: Storage, i: nat, class_: MemoryClass): nat
    requires s.Valid() && i <= |s.plan.touched| && s.tiles == 1
  {
    var lost := Excess(Highest(s.plan, s.Sizes(0, class_), i, |s.plan.classes|));
    var total := Total(LiveAt(s.plan, i), s.Sizes(0, class_));
    if lost <= total then total - lost else 0
  }

  /** What an entry needs, with its scratch, by true sums clamped to 64 bits. */
  ghost function TrueNeed(s: Storage, i: nat, d: Dimension): nat
    requires s.Valid() && i <= |s.plan.touched| && s.tiles == 1
  {
    Along(Peaks(0, 0, 0, 0).Observe(TrueUsage(s, i).Plus(s.Scratch(i, 0)), 0), d)
  }

  /** What is left of it when sums saturate. */
  ghost function LeftNeed(s: Storage, i: nat, d: Dimension): nat
    requires s.Valid() && i <= |s.plan.touched| && s.tiles == 1
  {
    Along(Peaks(0, 0, 0, 0).Observe(Usage(Left(s, i, Standard), Left(s, i, Interleaved)).Plus(s.Scratch(i, 0)), 0), d)
  }

  /** Some entry is left with at least the true need of entry `i`. */
  ghost predicate Matched(s: Storage, n: nat, i: nat, d: Dimension)
    requires s.Valid() && n <= |s.plan.touched| + 1 && i < n && s.tiles == 1
  {
    exists j :: 0 <= j < n && TrueNeed(s, i, d) <= LeftNeed(s, j, d)
  }

  ghost predicate AllMatched(s: Storage, n: nat)
    requires s.Valid() && n <= |s.plan.touched| + 1 && s.tiles == 1
  {
    forall i, d :: 0 <= i < n ==> Matched(s, n, i, d)
  }

  lemma UsageIsLeft(s: Storage, i: nat)
    requires s.Valid() && i <= |s.plan.touched| && s.tiles == 1 && UsageAt(s, i, 0).Some?
    ensures UsageAt(s, i, 0) == Some(Usage(Left(s, i, Standard), Left(s, i, Interleaved)))
  {
    hide LiveAt, UsedAt, Highest, FallsFar, Excess;
    UsedAtIs(s.plan, s.Sizes(0, Standard), i);
    UsedAtIs(s.plan, s.Sizes(0, Interleaved), i);
  }

  /** Every entry's reported need is below the peaks. */
  lemma LeftIsBelowPeaks(s: Storage, i: nat, n: nat, d: Dimension)
    requires s.Valid() && s.tiles == 1 && i < n <= |s.plan.touched| + 1 && PeaksAfter(s, n).Some?
    ensures LeftNeed(s, i, d) <= Along(PeaksAfter(s, n).value, d)
  {
    hide PeaksAfter, UsageAt, Left, Usage.Plus, Usage.Total;
    EntryBelowPeaks(s, i, n);
    UsageIsLeft(s, i);
  }

  /** Some entry's reported need is the peak. */
  lemma {:induction false} PeakIsLeft(s: Storage, n: nat, d: Dimension) returns (j: nat)
    requires s.Valid() && s.tiles == 1 && 0 < n <= |s.plan.touched| + 1 && PeaksAfter(s, n).Some?
    ensures j < n && LeftNeed(s, j, d) == Along(PeaksAfter(s, n).value, d)
  {
    hide UsageAt, MaximumAt, Left, Usage.Plus, Usage.Total;
    var before := PeaksAfter(s, n - 1);
    assert ObserveTiles(s, before.value, n - 1, 0) == before;
    UsageIsLeft(s, n - 1);
    j := n - 1;
    if n > 1 && LeftNeed(s, n - 1, d) < Along(before.value, d) {
      j := PeakIsLeft(s, n - 1, d);
    }
  }

  /** Peaks above the true need of every entry are above the true peaks. */
  lemma {:induction false} NeedsMakePeaks(s: Storage, peaks: Peaks, n: nat, d: Dimension)
    requires s.Valid() && s.tiles == 1 && n <= |s.plan.touched| + 1
    requires forall i :: 0 <= i < n ==> TrueNeed(s, i, d) <= Along(peaks, d)
    ensures Along(TruePeaks(s, n), d) <= Along(peaks, d)
  {
    hide TrueUsage, MaximumAt, Usage.Plus, Usage.Total;
    if n > 0 {
      NeedsMakePeaks(s, peaks, n - 1, d);
      assert TrueNeed(s, n - 1, d) <= Along(peaks, d);
    }
  }

  ghost predicate DominatesRefinements(bound: Storage, peaks: Peaks, n: nat)
    requires bound.Valid() && n <= |bound.plan.touched| + 1
  {
    forall refined :: Bounds(bound, refined) && PeaksAfter(refined, n).Some? ==> peaks.Dominates(PeaksAfter(refined, n).value)
  }

  lemma MatchedDominates(bound: Storage, n: nat)
    requires bound.Valid() && bound.tiles == 1 && n <= |bound.plan.touched| + 1 && PeaksAfter(bound, n).Some?
    requires AllMatched(bound, n)
    ensures DominatesRefinements(bound, PeaksAfter(bound, n).value, n)
  {
    hide PeaksAfter, TruePeaks, LeftNeed, TrueNeed, Bounds;
    var peaks := PeaksAfter(bound, n).value;
    forall d: Dimension
      ensures Along(TruePeaks(bound, n), d) <= Along(peaks, d)
    {
      forall i | 0 <= i < n
        ensures TrueNeed(bound, i, d) <= Along(peaks, d)
      {
        assert Matched(bound, n, i, d);
        var j :| 0 <= j < n && TrueNeed(bound, i, d) <= LeftNeed(bound, j, d);
        LeftIsBelowPeaks(bound, j, n, d);
      }
      NeedsMakePeaks(bound, peaks, n, d);
    }
    assert peaks.Dominates(TruePeaks(bound, n)) by {
      MaximumIsTrue(bound, n);
      assert Along(TruePeaks(bound, n), OfStandard) <= Along(peaks, OfStandard);
      assert Along(TruePeaks(bound, n), OfInterleaved) <= Along(peaks, OfInterleaved);
      assert Along(TruePeaks(bound, n), OfTotal) <= Along(peaks, OfTotal);
    }
    AboveTruePeaks(bound, peaks, n);
  }

  lemma AboveTruePeaks(bound: Storage, peaks: Peaks, n: nat)
    requires bound.Valid() && bound.tiles == 1 && n <= |bound.plan.touched| + 1 && peaks.Dominates(TruePeaks(bound, n))
    ensures DominatesRefinements(bound, peaks, n)
  {
    hide PeaksAfter, TruePeaks;
    forall refined | Bounds(bound, refined) && PeaksAfter(refined, n).Some?
      ensures peaks.Dominates(PeaksAfter(refined, n).value)
    {
      PeaksBelowTrue(bound, refined, n);
    }
  }

  lemma DominatingMatches(bound: Storage, n: nat)
    requires bound.Valid() && bound.tiles == 1 && n <= |bound.plan.touched| + 1 && PeaksAfter(bound, n).Some?
    requires DominatesRefinements(bound, PeaksAfter(bound, n).value, n)
    ensures AllMatched(bound, n)
  {
    hide PeaksAfter, TrueUsage, Left, Usage.Plus, Usage.Total, Bounds;
    forall i, d | 0 <= i < n
      ensures Matched(bound, n, i, d)
    {
      TrueEntryReached(bound, PeaksAfter(bound, n).value, i, n);
      var j := PeakIsLeft(bound, n, d);
    }
  }

  /** The column has peaks above those of every refinement exactly when no sum falls far and, in
      each dimension, the true need of every entry is at most what saturation leaves of some. */
  lemma PeaksDominateIff(bound: Storage, n: nat)
    requires bound.Valid() && bound.tiles == 1 && n <= |bound.plan.touched| + 1
    ensures PeaksAfter(bound, n).Some? && DominatesRefinements(bound, PeaksAfter(bound, n).value, n)
            <==> Computable(bound, n) && AllMatched(bound, n)
  {
    hide PeaksAfter, Computable, AllMatched, DominatesRefinements;
    ComputableIff(bound, n);
    if PeaksAfter(bound, n).Some? {
      if AllMatched(bound, n) {
        MatchedDominates(bound, n);
      }
      if DominatesRefinements(bound, PeaksAfter(bound, n).value, n) {
        DominatingMatches(bound, n);
      }
    }
  }

  // ---------------------------------------------------------------------------
  // Limits that no target has
  // ---------------------------------------------------------------------------

  const PART: nat := 0x6000_0000_0000_0000

  /** A column can be beyond computing although every tile fits, if the limits let a few roots
      together leave 64 bits. Three roots are live in one step only. On tiles of their own each
      takes PART bytes; in the column their sum saturates, and taking them away again underflows. */
  ghost const BRIEF := Plan([Standard, Standard, Standard], [false, false, false], [[0, 1, 2], []], [0, 0, 0])
  ghost const COLUMN := Storage(BRIEF, 1, [[PART], [PART], [PART]], [[Usage(0, 0)], [Usage(0, 0)]], [0, 0])
  ghost const SPREAD := Storage(BRIEF, 3, [[PART, 0, 0], [0, PART, 0], [0, 0, PART]],
    [[Usage(0, 0), Usage(0, 0), Usage(0, 0)], [Usage(0, 0), Usage(0, 0), Usage(0, 0)]], [0, 0])
  ghost const ROOM := Limits(0, PART, PART, 0, PART)

  lemma BriefSets()
    ensures BRIEF.Valid() && LiveBefore(BRIEF, 0) == LiveAt(BRIEF, 0) == [false, false, false]
    ensures LiveAt(BRIEF, 1) == [true, true, true] && LiveAt(BRIEF, 2) == [false, false, false]
  {
    var all := BRIEF.touched[0];
    assert all[0] == 0 && all[1] == 1 && all[2] == 2;
    assert Touches(all, 0) && Touches(all, 1) && Touches(all, 2);
    var one := LiveAt(BRIEF, 1);
    assert one[0] && one[1] && one[2];
    assert BRIEF.touched[1] == [] && !Touches([], 0) && !Touches([], 1) && !Touches([], 2);
    var two := LiveAt(BRIEF, 2);
    assert !two[0] && !two[1] && !two[2];
  }

  ghost const NONE := [false, false, false]
  ghost const ALL := [true, true, true]

  lemma AllStay(used: nat, sizes: seq<nat>)
    requires |sizes| == 3
    ensures Update(used, NONE, NONE, sizes, 3) == Some(used)
  {
    assert Update(used, NONE, NONE, sizes, 1) == Some(used);
    assert Update(used, NONE, NONE, sizes, 2) == Some(used);
  }

  lemma AllBorn(sizes: seq<nat>)
    requires |sizes| == 3
    ensures Update(0, NONE, ALL, sizes, 3) == Some(Clamp(Clamp(Clamp(sizes[0]) + sizes[1]) + sizes[2]))
  {
    assert Update(0, NONE, ALL, sizes, 1) == Some(Clamp(0 + sizes[0]));
    assert Update(0, NONE, ALL, sizes, 2) == Some(Clamp(Clamp(sizes[0]) + sizes[1]));
  }

  lemma AllDie(used: nat, sizes: seq<nat>)
    requires |sizes| == 3
    ensures Update(used, ALL, NONE, sizes, 3) ==
            if sizes[0] + sizes[1] + sizes[2] <= used then Some(used - sizes[0] - sizes[1] - sizes[2]) else None
  {
    assert Update(used, ALL, NONE, sizes, 1) == if sizes[0] <= used then Some(used - sizes[0]) else None;
    assert Update(used, ALL, NONE, sizes, 2) ==
           if sizes[0] + sizes[1] <= used then Some(used - sizes[0] - sizes[1]) else None;
  }

  /** The memory for sizes in the three entries. */
  lemma BriefRun(sizes: seq<nat>)
    requires |sizes| == 3
    ensures BRIEF.Valid() && UsedAt(BRIEF, sizes, 0) == Some(0)
    ensures UsedAt(BRIEF, sizes, 1) == Some(Clamp(Clamp(Clamp(sizes[0]) + sizes[1]) + sizes[2]))
    ensures UsedAt(BRIEF, sizes, 2) == if sizes[0] + sizes[1] + sizes[2] <= U64_MAX then Some(0) else None
  {
    hide Update, LiveAt, LiveBefore, Plan.Valid;
    BriefSets();
    AllStay(0, sizes);
    AllBorn(sizes);
    AllDie(Clamp(Clamp(Clamp(sizes[0]) + sizes[1]) + sizes[2]), sizes);
    BriefEntries(sizes);
  }

  lemma BriefEntries(sizes: seq<nat>)
    requires |sizes| == 3
    ensures BRIEF.Valid() && UsedAt(BRIEF, sizes, 0) == Update(0, NONE, NONE, sizes, 3)
    ensures UsedAt(BRIEF, sizes, 0) == Some(0) ==> UsedAt(BRIEF, sizes, 1) == Update(0, NONE, ALL, sizes, 3)
    ensures UsedAt(BRIEF, sizes, 1).Some? ==>
              UsedAt(BRIEF, sizes, 2) == Update(UsedAt(BRIEF, sizes, 1).value, ALL, NONE, sizes, 3)
  {
    hide Update, LiveAt;
    BriefSets();
  }

  lemma SpreadUsage(i: nat, t: nat)
    requires i <= 2 && t < 3
    ensures SPREAD.Valid() && UsageAt(SPREAD, i, t) == Some(Usage(if i == 1 then PART else 0, 0))
  {
    hide UsedAt;
    BriefSets();
    BriefRun(SPREAD.Sizes(t, Standard));
    BriefRun(SPREAD.Sizes(t, Interleaved));
  }

  lemma ColumnUnderflows()
    ensures COLUMN.Valid() && UsageAt(COLUMN, 2, 0) == None
  {
    hide UsedAt;
    BriefSets();
    BriefRun(COLUMN.Sizes(0, Standard));
  }

  lemma NoUsageNoPeaks(s: Storage)
    requires s.Valid() && s.tiles == 1 && UsageAt(s, |s.plan.touched|, 0) == None
    ensures PeaksAfter(s, |s.plan.touched| + 1) == None
  {
    if PeaksAfter(s, |s.plan.touched|).Some? {
      assert ObserveTiles(s, PeaksAfter(s, |s.plan.touched|).value, |s.plan.touched|, 0).Some?;
    }
  }

  /** `StorageAnalysis.ScreenIsExact` needs its bound on the limits: with a limit of PART bytes every
      tile fits, yet the program is turned down, because its bound cannot be computed. */
  lemma UncomputableBoundRejects()
    ensures Bounds(COLUMN, SPREAD) && Attained(COLUMN, SPREAD)
    ensures 2 * ROOM.planned < U64_MAX < |BRIEF.classes| * ROOM.planned
    ensures PeaksAfter(SPREAD, 3).Some? && Fits(PeaksAfter(SPREAD, 3).value, ROOM)
    ensures PeaksAfter(COLUMN, 3) == None && WithBudget(COLUMN, SPREAD, ROOM) == None
  {
    hide PeaksAfter, UsageAt, LiveAt, LargestStandard;
    ColumnUnderflows();
    NoUsageNoPeaks(COLUMN);
    SpreadFits();
    SpreadAttains();
  }

  lemma SpreadAttains()
    ensures Bounds(COLUMN, SPREAD) && Attained(COLUMN, SPREAD)
  {
    BriefSets();
    assert SPREAD.bytes[0][0] == SPREAD.bytes[1][1] == SPREAD.bytes[2][2] == PART;
  }

  lemma SpreadFits()
    ensures SPREAD.Valid() && PeaksAfter(SPREAD, 3).Some? && Fits(PeaksAfter(SPREAD, 3).value, ROOM)
  {
    hide PeaksAfter, UsageAt, LiveAt, NeedWithin;
    SpreadUsage(0, 0);
    assert SPREAD.tiles == 3 && |SPREAD.plan.touched| == 2;
    forall i, t | 0 <= i < 3 && 0 <= t < SPREAD.tiles
      ensures NeedWithin(SPREAD, i, t, Peaks(PART, 0, PART, PART))
    {
      SpreadNeed(i, t);
    }
    PeaksWithin(SPREAD, Peaks(PART, 0, PART, PART), 3);
  }

  lemma SpreadNeed(i: nat, t: nat)
    requires i <= 2 && t < 3
    ensures SPREAD.Valid() && NeedWithin(SPREAD, i, t, Peaks(PART, 0, PART, PART))
  {
    hide UsageAt, LiveAt, LargestStandard;
    SpreadUsage(i, t);
    SpreadIsSmall();
    SpreadMaximum(i);
  }

  lemma SpreadIsSmall()
    ensures SPREAD.tiles == 3 && forall id, t :: 0 <= id < |SPREAD.bytes| && 0 <= t < 3 ==> SPREAD.bytes[id][t] <= PART
  {
  }

  lemma SpreadMaximum(i: nat)
    requires i <= 2 && SPREAD.Valid()
    ensures LargestStandard(SPREAD, LiveAt(BRIEF, i), 3) <= PART
  {
    hide UsageAt, LargestStandard;
    SpreadIsSmall();
    MaximumWithin(SPREAD, PART, LiveAt(BRIEF, i), 3);
  }
}
