/** Memory accounting of the planner (crates/ipu-codegen/src/estimate/mid.rs, memory.rs).

    The analysis walks the steps of a program, keeps the set of live storage roots, and
    updates the memory in use on each tile only for roots whose liveness changed, in
    saturating arithmetic. The module proves exactly when the updates keep the true sums, and
    what is reported otherwise: by the true sums of plan and sizes alone, there is nothing to
    report once a sum has fallen more than 64 bits hold, and else the report is short of the
    true sum by what the highest sum so far exceeds 64 bits. */
module StorageAccounting {
  import opened Saturating

  datatype Option<T> = None | Some(value: T)

  datatype MemoryClass = Standard | Interleaved

  datatype Usage = Usage(standard: nat, interleaved: nat) {
    function Total(): nat {
      Clamp(standard + interleaved)
    }

    function Plus(other: Usage): Usage {
      Usage(Clamp(standard + other.standard), Clamp(interleaved + other.interleaved))
    }

    ghost predicate Within(other: Usage) {
      standard <= other.standard && interleaved <= other.interleaved
    }
  }

  datatype Peaks = Peaks(standard: nat, interleaved: nat, total: nat, maximumStandard: nat) {
    function Observe(usage: Usage, maximum: nat): Peaks {
      Peaks(Max2(standard, usage.standard), Max2(interleaved, usage.interleaved),
            Max2(total, usage.Total()), Max2(maximumStandard, maximum))
    }

    ghost predicate Dominates(other: Peaks) {
      && other.standard <= standard && other.interleaved <= interleaved
      && other.total <= total && other.maximumStandard <= maximumStandard
    }
  }

  /** What the analysis of a program knows about its storage roots. */
  datatype Plan = Plan(classes: seq<MemoryClass>, initial: seq<bool>, touched: seq<seq<nat>>, last: seq<nat>) {
    ghost predicate Valid() {
      && |classes| == |initial| == |last|
      && forall i, k :: 0 <= i < |touched| && 0 <= k < |touched[i]| ==> touched[i][k] < |classes|
    }
  }

  // ---------------------------------------------------------------------------
  // Liveness
  // ---------------------------------------------------------------------------

  ghost predicate Touches(touched: seq<nat>, id: nat) {
    exists k :: 0 <= k < |touched| && touched[k] == id
  }

  /** Entry 0 holds the roots live at the program's entry; entry i + 1 holds those that step
      i accounts for: the ones not yet past their last use, and the ones it touches. */
  ghost function LiveAt(p: Plan, i: nat): (r: seq<bool>)
    requires p.Valid() && i <= |p.touched|
    ensures |r| == |p.classes|
  {
    if i == 0 then p.initial
    else
      var before := LiveAt(p, i - 1);
      seq(|p.classes|, id requires 0 <= id < |p.classes| =>
        (before[id] && (i == 1 || p.last[id] > i - 2)) || Touches(p.touched[i - 1], id))
  }

  /** A root is live in a step exactly when its last use is not over and it is an input or
      has been touched before. */
  lemma {:induction false} LiveIff(p: Plan, i: nat, id: nat)
    requires p.Valid() && i < |p.touched| && id < |p.classes|
    requires forall j :: 0 <= j < |p.touched| && Touches(p.touched[j], id) ==> j <= p.last[id]
    ensures LiveAt(p, i + 1)[id] <==>
            p.last[id] >= i && (p.initial[id] || exists j :: 0 <= j <= i && Touches(p.touched[j], id))
  {
    if i > 0 {
      LiveIff(p, i - 1, id);
    }
  }

  // ---------------------------------------------------------------------------
  // One tile and one memory class: incremental and true sums
  // ---------------------------------------------------------------------------

  /** The sizes of the first `k` roots that are live. */
  ghost function Sum(live: seq<bool>, sizes: seq<nat>, k: nat): nat
    requires k <= |live| == |sizes|
  {
    if k == 0 then 0 else Sum(live, sizes, k - 1) + if live[k - 1] then sizes[k - 1] else 0
  }

  ghost function Total(live: seq<bool>, sizes: seq<nat>): nat
    requires |live| == |sizes|
  {
    Sum(live, sizes, |live|)
  }

  /** A root of the given size becomes live, or stops being live. */
  function Move(used: nat, size: nat, live: bool): Option<nat> {
    if live then Some(Clamp(used + size)) else if size <= used then Some(used - size) else None
  }

  /** The saturating update of the first `k` roots; none if a subtraction underflows. */
  ghost function Update(used: nat, from: seq<bool>, to: seq<bool>, sizes: seq<nat>, k: nat): Option<nat>
    requires k <= |from| == |to| == |sizes|
  {
    if k == 0 then Some(used)
    else
      match Update(used, from, to, sizes, k - 1)
      case None => None
      case Some(u) =>
        if to[k - 1] == from[k - 1] then Some(u)
        else Move(u, sizes[k - 1], to[k - 1])
  }

  /** What is live when the first `k` roots have been updated and the others have not. */
  ghost function Midway(from: seq<bool>, to: seq<bool>, sizes: seq<nat>, k: nat): int
    requires k <= |from| == |to| == |sizes|
  {
    Total(from, sizes) - Sum(from, sizes, k) + Sum(to, sizes, k)
  }

  lemma {:induction false} SumGrows(live: seq<bool>, sizes: seq<nat>, k: nat, m: nat)
    requires k <= m <= |live| == |sizes|
    ensures Sum(live, sizes, k) <= Sum(live, sizes, m)
    decreases m
  {
    if k < m {
      SumGrows(live, sizes, k, m - 1);
    }
  }

  /** No sum on the way from one live set to the other needs more than 64 bits. */
  ghost predicate NeverOverflows(from: seq<bool>, to: seq<bool>, sizes: seq<nat>, k: nat)
    requires k <= |from| == |to| == |sizes|
  {
    forall m :: 0 <= m <= k ==> Midway(from, to, sizes, m) <= U64_MAX
  }

  /** An update keeps the true sum exactly when it starts from it and nothing on the way
      overflows; otherwise it ends below the true sum. */
  lemma {:induction false} UpdateExactIff(used: nat, from: seq<bool>, to: seq<bool>, sizes: seq<nat>, k: nat)
    requires k <= |from| == |to| == |sizes|
    requires used <= U64_MAX && used <= Total(from, sizes)
    ensures match Update(used, from, to, sizes, k)
      case Some(u) =>
        && u <= U64_MAX && u <= Midway(from, to, sizes, k)
        && (u == Midway(from, to, sizes, k) <==> used == Total(from, sizes) && NeverOverflows(from, to, sizes, k))
      case None => !(used == Total(from, sizes) && NeverOverflows(from, to, sizes, k))
  {
    if k == 0 {
      assert Midway(from, to, sizes, 0) == Total(from, sizes);
    } else {
      UpdateExactIff(used, from, to, sizes, k - 1);
      SumGrows(from, sizes, k, |from|);
      assert NeverOverflows(from, to, sizes, k) <==>
             NeverOverflows(from, to, sizes, k - 1) && Midway(from, to, sizes, k) <= U64_MAX;
    }
  }

  /** The sizes of the updated roots that stop being live. */
  ghost function Removed(from: seq<bool>, to: seq<bool>, sizes: seq<nat>, k: nat): nat
    requires k <= |from| == |to| == |sizes|
  {
    if k == 0 then 0
    else Removed(from, to, sizes, k - 1) + if from[k - 1] && !to[k - 1] then sizes[k - 1] else 0
  }

  lemma {:induction false} RemovedWasLive(from: seq<bool>, to: seq<bool>, sizes: seq<nat>, k: nat)
    requires k <= |from| == |to| == |sizes|
    ensures Removed(from, to, sizes, k) <= Sum(from, sizes, k)
  {
    if k > 0 {
      RemovedWasLive(from, to, sizes, k - 1);
    }
  }

  /** An overflow cannot hide: what is left is at most the removed sizes below the limit. */
  lemma {:induction false} OverflowShows(used: nat, from: seq<bool>, to: seq<bool>, sizes: seq<nat>, k: nat)
    requires k <= |from| == |to| == |sizes|
    requires used <= U64_MAX && used == Total(from, sizes)
    ensures match Update(used, from, to, sizes, k)
      case Some(u) => NeverOverflows(from, to, sizes, k) || u + Removed(from, to, sizes, k) >= U64_MAX
      case None => true
  {
    if k > 0 {
      OverflowShows(used, from, to, sizes, k - 1);
      UpdateExactIff(used, from, to, sizes, k - 1);
      assert NeverOverflows(from, to, sizes, k - 1) && Midway(from, to, sizes, k) <= U64_MAX ==>
             NeverOverflows(from, to, sizes, k);
    } else {
      assert Midway(from, to, sizes, 0) == Total(from, sizes);
    }
  }

  // ---------------------------------------------------------------------------
  // Whole runs
  // ---------------------------------------------------------------------------

  ghost function NoneLive(n: nat): (r: seq<bool>)
    ensures |r| == n && forall i :: 0 <= i < n ==> !r[i]
  {
    seq(n, _ => false)
  }

  /** The live set before entry `i` of `LiveAt`. */
  ghost function LiveBefore(p: Plan, i: nat): (r: seq<bool>)
    requires p.Valid() && i <= |p.touched|
    ensures |r| == |p.classes|
  {
    if i == 0 then NoneLive(|p.classes|) else LiveAt(p, i - 1)
  }

  /** The memory that the incremental update reports for one tile and class. */
  ghost function UsedAt(p: Plan, sizes: seq<nat>, i: nat): Option<nat>
    requires p.Valid() && i <= |p.touched| && |sizes| == |p.classes|
  {
    var before := if i == 0 then Some(0) else UsedAt(p, sizes, i - 1);
    match before
    case None => None
    case Some(used) => Update(used, LiveBefore(p, i), LiveAt(p, i), sizes, |sizes|)
  }

  ghost predicate RunNeverOverflows(p: Plan, sizes: seq<nat>, i: nat)
    requires p.Valid() && i <= |p.touched| && |sizes| == |p.classes|
  {
    && NeverOverflows(LiveBefore(p, i), LiveAt(p, i), sizes, |sizes|)
    && (i > 0 ==> RunNeverOverflows(p, sizes, i - 1))
  }

  lemma {:induction false} NoneSum(n: nat, sizes: seq<nat>, k: nat)
    requires k <= n == |sizes|
    ensures Sum(NoneLive(n), sizes, k) == 0
  {
    if k > 0 {
      NoneSum(n, sizes, k - 1);
    }
  }

  lemma AllUpdated(from: seq<bool>, to: seq<bool>, sizes: seq<nat>)
    requires |from| == |to| == |sizes|
    ensures Midway(from, to, sizes, |sizes|) == Total(to, sizes)
  {
  }

  /** The incremental memory equals the sum of the live sizes exactly when nothing has
      overflowed so far, and is never above it. */
  lemma {:induction false} UsedIsTotalIff(p: Plan, sizes: seq<nat>, i: nat)
    requires p.Valid() && i <= |p.touched| && |sizes| == |p.classes|
    ensures UsedAt(p, sizes, i) == Some(Total(LiveAt(p, i), sizes)) <==> RunNeverOverflows(p, sizes, i)
    ensures UsedAt(p, sizes, i).Some? ==>
              UsedAt(p, sizes, i).value <= Total(LiveAt(p, i), sizes) && UsedAt(p, sizes, i).value <= U64_MAX
  {
    hide LiveAt, NeverOverflows, Update;
    var from, to := LiveBefore(p, i), LiveAt(p, i);
    AllUpdated(from, to, sizes);
    if i == 0 {
      NoneSum(|sizes|, sizes, |sizes|);
      UpdateExactIff(0, from, to, sizes, |sizes|);
    } else {
      UsedIsTotalIff(p, sizes, i - 1);
      if UsedAt(p, sizes, i - 1).Some? {
        UpdateExactIff(UsedAt(p, sizes, i - 1).value, from, to, sizes, |sizes|);
      }
    }
  }

  // ---------------------------------------------------------------------------
  // What saturation leaves
  // ---------------------------------------------------------------------------

  /** The true sum when entry `i` has updated its first `k` roots. */
  ghost function SumAt(p: Plan, sizes: seq<nat>, i: nat, k: nat): int
    requires p.Valid() && i <= |p.touched| && k <= |sizes| == |p.classes|
  {
    Midway(LiveBefore(p, i), LiveAt(p, i), sizes, k)
  }

  /** The highest true sum met until then. */
  ghost function Highest(p: Plan, sizes: seq<nat>, i: nat, k: nat): nat
    requires p.Valid() && i <= |p.touched| && k <= |sizes| == |p.classes|
    decreases i, k
  {
    if k > 0 then
      var before := Highest(p, sizes, i, k - 1);
      if before < SumAt(p, sizes, i, k) then SumAt(p, sizes, i, k) else before
    else if i > 0 then Highest(p, sizes, i - 1, |sizes|)
    else 0
  }

  /** Some true sum met until then lies further below an earlier one than 64 bits can tell. */
  ghost predicate FallsFar(p: Plan, sizes: seq<nat>, i: nat, k: nat)
    requires p.Valid() && i <= |p.touched| && k <= |sizes| == |p.classes|
    decreases i, k
  {
    if k > 0 then FallsFar(p, sizes, i, k - 1) || SumAt(p, sizes, i, k) + U64_MAX < Highest(p, sizes, i, k)
    else i > 0 && FallsFar(p, sizes, i - 1, |sizes|)
  }

  /** What a sum that high has lost to saturation. */
  function Excess(highest: nat): nat {
    if highest <= U64_MAX then 0 else highest - U64_MAX
  }

  /** Position `(j, m)` of the run is not after `(i, k)`. */
  predicate NotAfter(j: nat, m: nat, i: nat, k: nat) {
    j < i || (j == i && m <= k)
  }

  /** The highest sum is the largest of those met. */
  lemma {:induction false} HighestBounds(p: Plan, sizes: seq<nat>, i: nat, k: nat)
    requires p.Valid() && i <= |p.touched| && k <= |sizes| == |p.classes|
    ensures forall j: nat, m: nat :: j <= i && m <= |sizes| && NotAfter(j, m, i, k) ==>
              SumAt(p, sizes, j, m) <= Highest(p, sizes, i, k)
    ensures exists j: nat, m: nat :: j <= i && m <= |sizes| && NotAfter(j, m, i, k) &&
              SumAt(p, sizes, j, m) == Highest(p, sizes, i, k)
    decreases i, k
  {
    hide LiveAt, LiveBefore, Midway;
    if k > 0 {
      HighestBounds(p, sizes, i, k - 1);
    } else {
      EntryStarts(p, sizes, i);
      if i > 0 {
        HighestBounds(p, sizes, i - 1, |sizes|);
      }
    }
  }

  /** An entry starts from the sum with which the one before it ends. */
  lemma EntryStarts(p: Plan, sizes: seq<nat>, i: nat)
    requires p.Valid() && i <= |p.touched| && |sizes| == |p.classes|
    ensures SumAt(p, sizes, i, 0) == if i == 0 then 0 else SumAt(p, sizes, i - 1, |sizes|)
    ensures SumAt(p, sizes, i, |sizes|) == Total(LiveAt(p, i), sizes)
  {
    hide LiveAt;
    NoneSum(|sizes|, sizes, |sizes|);
    AllUpdated(LiveBefore(p, i), LiveAt(p, i), sizes);
    if i > 0 {
      AllUpdated(LiveBefore(p, i - 1), LiveAt(p, i - 1), sizes);
    }
  }

  /** There is a far fall exactly when two positions of the run show it. */
  lemma {:induction false} FallsFarIff(p: Plan, sizes: seq<nat>, i: nat, k: nat)
    requires p.Valid() && i <= |p.touched| && k <= |sizes| == |p.classes|
    ensures FallsFar(p, sizes, i, k) <==>
            exists j: nat, m: nat, l: nat, n: nat ::
              && j <= i && m <= |sizes| && NotAfter(j, m, l, n)
              && l <= i && n <= |sizes| && NotAfter(l, n, i, k)
              && SumAt(p, sizes, l, n) + U64_MAX < SumAt(p, sizes, j, m)
    decreases i, k
  {
    hide LiveAt, LiveBefore, Midway;
    HighestBounds(p, sizes, i, k);
    if k > 0 {
      FallsFarIff(p, sizes, i, k - 1);
    } else {
      EntryStarts(p, sizes, i);
      if i > 0 {
        HighestBounds(p, sizes, i - 1, |sizes|);
        FallsFarIff(p, sizes, i - 1, |sizes|);
      }
    }
  }

  /** The memory part-way through entry `i`. */
  ghost function UsedMidway(p: Plan, sizes: seq<nat>, i: nat, k: nat): Option<nat>
    requires p.Valid() && i <= |p.touched| && k <= |sizes| == |p.classes|
  {
    var before := if i == 0 then Some(0) else UsedAt(p, sizes, i - 1);
    match before
    case None => None
    case Some(used) => Update(used, LiveBefore(p, i), LiveAt(p, i), sizes, k)
  }

  lemma SumMoves(p: Plan, sizes: seq<nat>, i: nat, k: nat)
    requires p.Valid() && i <= |p.touched| && k < |sizes| == |p.classes|
    ensures var before, live := LiveBefore(p, i)[k], LiveAt(p, i)[k];
      SumAt(p, sizes, i, k + 1) == SumAt(p, sizes, i, k) + (if live then sizes[k] else 0) - (if before then sizes[k] else 0)
    ensures 0 <= SumAt(p, sizes, i, k + 1)
    ensures LiveBefore(p, i)[k] ==> sizes[k] <= SumAt(p, sizes, i, k)
  {
    hide LiveAt, LiveBefore;
    SumGrows(LiveBefore(p, i), sizes, k + 1, |sizes|);
  }

  /** Memory that saturation has lost stays lost until a removal finds too little. */
  lemma MoveIs(sum: nat, highest: nat, size: nat)
    requires Excess(highest) <= sum <= highest
    ensures Move(sum - Excess(highest), size, true) ==
            Some(sum + size - Excess(if highest < sum + size then sum + size else highest))
    ensures size <= sum ==>
              Move(sum - Excess(highest), size, false) ==
              if sum - size + U64_MAX < highest then None else Some(sum - size - Excess(highest))
  {
  }

  /** The incremental memory by true sums alone: there is none once a sum has fallen far, and
      else it is the true sum less what the highest sum so far exceeds 64 bits. */
  lemma {:induction false} UsedMidwayIs(p: Plan, sizes: seq<nat>, i: nat, k: nat)
    requires p.Valid() && i <= |p.touched| && k <= |sizes| == |p.classes|
    ensures !FallsFar(p, sizes, i, k) ==>
              Excess(Highest(p, sizes, i, k)) <= SumAt(p, sizes, i, k) <= Highest(p, sizes, i, k)
    ensures UsedMidway(p, sizes, i, k) ==
            if FallsFar(p, sizes, i, k) then None else Some(SumAt(p, sizes, i, k) - Excess(Highest(p, sizes, i, k)))
    decreases i, k
  {
    hide LiveAt, LiveBefore, SumAt, Move, UsedAt;
    if k > 0 {
      UsedMidwayIs(p, sizes, i, k - 1);
      SumMoves(p, sizes, i, k - 1);
      if !FallsFar(p, sizes, i, k - 1) {
        MoveIs(SumAt(p, sizes, i, k - 1), Highest(p, sizes, i, k - 1), sizes[k - 1]);
      }
    } else {
      EntryStarts(p, sizes, i);
      if i > 0 {
        UsedMidwayIs(p, sizes, i - 1, |sizes|);
        AllMidway(p, sizes, i - 1);
      }
    }
  }

  lemma AllMidway(p: Plan, sizes: seq<nat>, i: nat)
    requires p.Valid() && i <= |p.touched| && |sizes| == |p.classes|
    ensures UsedMidway(p, sizes, i, |sizes|) == UsedAt(p, sizes, i)
  {
    hide LiveAt, LiveBefore, Update;
  }

  /** The memory reported for an entry, from plan and sizes alone. */
  lemma UsedAtIs(p: Plan, sizes: seq<nat>, i: nat)
    requires p.Valid() && i <= |p.touched| && |sizes| == |p.classes|
    ensures FallsFar(p, sizes, i, |sizes|) <==> UsedAt(p, sizes, i) == None
    ensures UsedAt(p, sizes, i).Some? ==>
              UsedAt(p, sizes, i).value == Total(LiveAt(p, i), sizes) - Excess(Highest(p, sizes, i, |sizes|))
  {
    hide LiveAt, LiveBefore, UsedMidway, SumAt, Highest, FallsFar, Excess, UsedAt;
    UsedMidwayIs(p, sizes, i, |sizes|);
    AllMidway(p, sizes, i);
    EntryStarts(p, sizes, i);
  }

  /** The report is the clamped true sum exactly when no sum has fallen far, and the present one
      is as high as any if one has overflowed. */
  lemma ReportIsClampIff(p: Plan, sizes: seq<nat>, i: nat)
    requires p.Valid() && i <= |p.touched| && |sizes| == |p.classes|
    ensures UsedAt(p, sizes, i) == Some(Clamp(Total(LiveAt(p, i), sizes))) <==> KeepsClamp(p, sizes, i)
  {
    hide LiveAt, LiveBefore, UsedMidway, UsedAt, Highest, FallsFar;
    UsedAtIs(p, sizes, i);
    HighestBounds(p, sizes, i, |sizes|);
    EntryStarts(p, sizes, i);
    assert NotAfter(i, |sizes|, i, |sizes|);
  }

  ghost predicate KeepsClamp(p: Plan, sizes: seq<nat>, i: nat)
    requires p.Valid() && i <= |p.touched| && |sizes| == |p.classes|
  {
    && !FallsFar(p, sizes, i, |sizes|)
    && Highest(p, sizes, i, |sizes|) <= Max2(U64_MAX, Total(LiveAt(p, i), sizes))
  }

  /** As long as what is reported stays below half the word range, nothing has overflowed. */
  lemma {:induction false} SmallNeverOverflows(p: Plan, sizes: seq<nat>, cap: nat, i: nat)
    requires p.Valid() && i <= |p.touched| && |sizes| == |p.classes| && 2 * cap < U64_MAX
    requires forall j :: 0 <= j <= i ==> UsedAt(p, sizes, j).Some? && UsedAt(p, sizes, j).value <= cap
    ensures RunNeverOverflows(p, sizes, i)
  {
    hide LiveAt, NeverOverflows, Update, Removed, Clamp;
    var from, to := LiveBefore(p, i), LiveAt(p, i);
    RemovedWasLive(from, to, sizes, |sizes|);
    if i == 0 {
      NoneSum(|sizes|, sizes, |sizes|);
      OverflowShows(0, from, to, sizes, |sizes|);
    } else {
      SmallNeverOverflows(p, sizes, cap, i - 1);
      UsedIsTotalIff(p, sizes, i - 1);
      OverflowShows(UsedAt(p, sizes, i - 1).value, from, to, sizes, |sizes|);
    }
    assert UsedAt(p, sizes, i).Some? && UsedAt(p, sizes, i).value <= cap;
  }

  ghost predicate Below(a: seq<nat>, b: seq<nat>) {
    |a| == |b| && forall i :: 0 <= i < |a| ==> a[i] <= b[i]
  }

  lemma {:induction false} SumBelow(live: seq<bool>, a: seq<nat>, b: seq<nat>, k: nat)
    requires Below(a, b) && k <= |live| == |a|
    ensures Sum(live, a, k) <= Sum(live, b, k)
  {
    if k > 0 {
      SumBelow(live, a, b, k - 1);
    }
  }

  /** The sum of the live sizes from root `k` on, which `Midway` keeps from the old set. */
  lemma {:induction false} RestBelow(live: seq<bool>, a: seq<nat>, b: seq<nat>, k: nat, m: nat)
    requires Below(a, b) && k <= m <= |live| == |a|
    ensures Sum(live, a, m) - Sum(live, a, k) <= Sum(live, b, m) - Sum(live, b, k)
    decreases m
  {
    if k < m {
      RestBelow(live, a, b, k, m - 1);
    }
  }

  lemma {:induction false} OverflowBelow(p: Plan, a: seq<nat>, b: seq<nat>, i: nat)
    requires p.Valid() && i <= |p.touched| && |a| == |p.classes| && Below(a, b)
    requires RunNeverOverflows(p, b, i)
    ensures RunNeverOverflows(p, a, i)
  {
    var from, to := LiveBefore(p, i), LiveAt(p, i);
    forall m | 0 <= m <= |a|
      ensures Midway(from, to, a, m) <= U64_MAX
    {
      RestBelow(from, a, b, m, |a|);
      SumBelow(to, a, b, m);
      assert Midway(from, to, b, m) <= U64_MAX;
    }
    if i > 0 {
      OverflowBelow(p, a, b, i - 1);
    }
  }

  /** Smaller sizes use less memory in every step, as long as the larger ones never overflow. */
  lemma UsedBelow(p: Plan, a: seq<nat>, b: seq<nat>, i: nat)
    requires p.Valid() && i <= |p.touched| && |a| == |p.classes| && Below(a, b)
    requires RunNeverOverflows(p, b, i)
    ensures UsedAt(p, a, i).Some? && UsedAt(p, b, i).Some? && UsedAt(p, a, i).value <= UsedAt(p, b, i).value
  {
    OverflowBelow(p, a, b, i);
    UsedIsTotalIff(p, a, i);
    UsedIsTotalIff(p, b, i);
    SumBelow(LiveAt(p, i), a, b, |a|);
  }
}
