/** The in-place sweep over a program's steps that computes its memory peaks
    (crates/ipu-codegen/src/estimate/mid.rs). Live flags, the memory of every tile and the
    peaks are updated step by step; the result is the one `StorageAnalysis` defines. */
module StorageSweep {
  import opened Saturating
  import opened StorageAccounting
  import opened StorageAnalysis

  // ---------------------------------------------------------------------------
  // One root
  // ---------------------------------------------------------------------------

  /** Root `id` becomes live, or stops being live, on tile `t`. */
  function Step(s: Storage, used: Usage, id: nat, t: nat, live: bool): Option<Usage>
    requires s.Valid() && id < |s.plan.classes| && t < s.tiles
  {
    var size := s.bytes[id][t];
    match s.plan.classes[id]
    case Standard =>
      var moved := Move(used.standard, size, live);
      if moved.Some? then Some(used.(standard := moved.value)) else None
    case Interleaved =>
      var moved := Move(used.interleaved, size, live);
      if moved.Some? then Some(used.(interleaved := moved.value)) else None
  }

  method AccountRoot(s: Storage, used: array<Usage>, id: nat, live: bool) returns (ok: bool)
    requires s.Valid() && id < |s.plan.classes| && used.Length == s.tiles
    modifies used
    ensures ok ==> forall t :: 0 <= t < s.tiles ==> Step(s, old(used[t]), id, t, live) == Some(used[t])
    ensures !ok ==> exists t :: 0 <= t < s.tiles && Step(s, old(used[t]), id, t, live) == None
  {
    for t := 0 to s.tiles
      invariant forall u :: 0 <= u < t ==> Step(s, old(used[u]), id, u, live) == Some(used[u])
      invariant forall u :: t <= u < s.tiles ==> used[u] == old(used[u])
    {
      var next := Step(s, used[t], id, t, live);
      if next.None? {
        return false;
      }
      used[t] := next.value;
    }
    return true;
  }

  // ---------------------------------------------------------------------------
  // All roots whose liveness changed
  // ---------------------------------------------------------------------------

  /** The memory of tile `t` after the first `k` roots have been accounted for. */
  ghost function Walk(s: Storage, used: Usage, from: seq<bool>, to: seq<bool>, t: nat, k: nat): Option<Usage>
    requires s.Valid() && k <= |from| == |to| == |s.plan.classes| && t < s.tiles
  {
    if k == 0 then Some(used)
    else
      var before := Walk(s, used, from, to, t, k - 1);
      if before.None? || from[k - 1] == to[k - 1] then before else Step(s, before.value, k - 1, t, to[k - 1])
  }

  ghost function Pair(standard: Option<nat>, interleaved: Option<nat>): Option<Usage> {
    if standard.Some? && interleaved.Some? then Some(Usage(standard.value, interleaved.value)) else None
  }

  lemma {:induction false} UpdateIsWord(used: nat, from: seq<bool>, to: seq<bool>, sizes: seq<nat>, k: nat)
    requires k <= |from| == |to| == |sizes| && used <= U64_MAX
    ensures Update(used, from, to, sizes, k).Some? ==> Update(used, from, to, sizes, k).value <= U64_MAX
  {
    if k > 0 {
      UpdateIsWord(used, from, to, sizes, k - 1);
    }
  }

  lemma StepByClass(s: Storage, used: Usage, id: nat, t: nat, live: bool)
    requires s.Valid() && id < |s.plan.classes| && t < s.tiles
    requires used.standard <= U64_MAX && used.interleaved <= U64_MAX
    ensures Step(s, used, id, t, live) ==
            Pair(Move(used.standard, s.Sizes(t, Standard)[id], live), Move(used.interleaved, s.Sizes(t, Interleaved)[id], live))
  {
  }

  /** Accounting for both classes at once is accounting for each on its own. */
  lemma {:induction false} WalkByClass(s: Storage, used: Usage, from: seq<bool>, to: seq<bool>, t: nat, k: nat)
    requires s.Valid() && k <= |from| == |to| == |s.plan.classes| && t < s.tiles
    requires used.standard <= U64_MAX && used.interleaved <= U64_MAX
    ensures Walk(s, used, from, to, t, k) ==
            Pair(Update(used.standard, from, to, s.Sizes(t, Standard), k),
                 Update(used.interleaved, from, to, s.Sizes(t, Interleaved), k))
  {
    hide Step, Move, Clamp, Storage.Valid, Storage.Sizes;
    if k > 0 {
      WalkByClass(s, used, from, to, t, k - 1);
      UpdateIsWord(used.standard, from, to, s.Sizes(t, Standard), k - 1);
      UpdateIsWord(used.interleaved, from, to, s.Sizes(t, Interleaved), k - 1);
      var before := Walk(s, used, from, to, t, k - 1);
      if before.Some? {
        StepByClass(s, before.value, k - 1, t, to[k - 1]);
      }
    }
  }

  lemma {:induction false} WalkFails(s: Storage, used: Usage, from: seq<bool>, to: seq<bool>, t: nat, k: nat, m: nat)
    requires s.Valid() && k <= m <= |from| == |to| == |s.plan.classes| && t < s.tiles
    requires Walk(s, used, from, to, t, k) == None
    ensures Walk(s, used, from, to, t, m) == None
    decreases m
  {
    if k < m {
      WalkFails(s, used, from, to, t, k, m - 1);
    }
  }

  method AccountChanges(s: Storage, used: array<Usage>, accounted: array<bool>, live: array<bool>) returns (ok: bool)
    requires s.Valid() && used.Length == s.tiles && accounted.Length == live.Length == |s.plan.classes|
    requires accounted != live
    modifies used, accounted
    ensures ok ==> accounted[..] == live[..]
    ensures ok ==> forall t :: 0 <= t < s.tiles ==>
              Walk(s, old(used[t]), old(accounted[..]), live[..], t, |s.plan.classes|) == Some(used[t])
    ensures !ok ==>
              exists t :: 0 <= t < s.tiles && Walk(s, old(used[t]), old(accounted[..]), live[..], t, |s.plan.classes|) == None
  {
    ghost var from, to := accounted[..], live[..];
    for id := 0 to live.Length
      invariant live[..] == to
      invariant forall k :: 0 <= k < id ==> accounted[k] == live[k]
      invariant forall k :: id <= k < live.Length ==> accounted[k] == from[k]
      invariant forall t :: 0 <= t < s.tiles ==> Walk(s, old(used[t]), from, to, t, id) == Some(used[t])
    {
      if live[id] != accounted[id] {
        ghost var before := used[..];
        ok := AccountRoot(s, used, id, live[id]);
        if !ok {
          ghost var t :| 0 <= t < s.tiles && Step(s, before[t], id, t, live[id]) == None;
          WalkFails(s, old(used[t]), from, to, t, id + 1, |s.plan.classes|);
          return;
        }
        accounted[id] := live[id];
      }
    }
    ok := true;
  }

  // ---------------------------------------------------------------------------
  // Live flags
  // ---------------------------------------------------------------------------

  method TouchRoots(live: array<bool>, touched: seq<nat>)
    requires forall k :: 0 <= k < |touched| ==> touched[k] < live.Length
    modifies live
    ensures forall id :: 0 <= id < live.Length ==> live[id] == (old(live[id]) || Touches(touched, id))
  {
    for k := 0 to |touched|
      invariant forall id :: 0 <= id < live.Length ==> live[id] == (old(live[id]) || Touches(touched[..k], id))
    {
      live[touched[k]] := true;
      assert touched[..k + 1][k] == touched[k];
      assert forall id :: 0 <= id < live.Length ==>
          (Touches(touched[..k + 1], id) <==> Touches(touched[..k], id) || id == touched[k]) by {
        forall id | 0 <= id < live.Length
          ensures Touches(touched[..k + 1], id) <==> Touches(touched[..k], id) || id == touched[k]
        {
          TouchesNext(touched, k, id);
        }
      }
    }
    assert touched[..|touched|] == touched;
  }

  lemma TouchesNext(touched: seq<nat>, k: nat, id: nat)
    requires k < |touched|
    ensures Touches(touched[..k + 1], id) <==> Touches(touched[..k], id) || id == touched[k]
  {
    var longer, shorter := touched[..k + 1], touched[..k];
    if Touches(shorter, id) {
      var j :| 0 <= j < |shorter| && shorter[j] == id;
      assert longer[j] == id;
    }
    if id == touched[k] {
      assert longer[k] == id;
    }
    if Touches(longer, id) && id != touched[k] {
      var j :| 0 <= j < |longer| && longer[j] == id;
      assert shorter[j] == id;
    }
  }

  method RetireRoots(live: array<bool>, last: seq<nat>, index: nat)
    requires |last| == live.Length
    modifies live
    ensures forall id :: 0 <= id < live.Length ==> live[id] == (old(live[id]) && last[id] > index)
  {
    for id := 0 to live.Length
      invariant forall k :: 0 <= k < id ==> live[k] == (old(live[k]) && last[k] > index)
      invariant forall k :: id <= k < live.Length ==> live[k] == old(live[k])
    {
      if last[id] <= index {
        live[id] := false;
      }
    }
  }

  method LargestLive(s: Storage, live: array<bool>) returns (r: nat)
    requires s.Valid() && live.Length == |s.plan.classes|
    ensures r == LargestStandard(s, live[..], |s.plan.classes|)
  {
    r := 0;
    for id := 0 to live.Length
      invariant r == LargestStandard(s, live[..], id)
    {
      if live[id] && s.plan.classes[id].Standard? {
        r := Max2(r, Maximum(s.bytes[id]));
      }
    }
  }

  // ---------------------------------------------------------------------------
  // The sweep
  // ---------------------------------------------------------------------------

  method ObserveEach(s: Storage, used: array<Usage>, ghost i: nat, scratch: seq<Usage>, maximum: nat, peaks: Peaks)
    returns (r: Peaks)
    requires s.Valid() && i <= |s.plan.touched| && used.Length == s.tiles == |scratch|
    requires forall t :: 0 <= t < s.tiles ==> UsageAt(s, i, t) == Some(used[t]) && scratch[t] == s.Scratch(i, t)
    requires maximum == MaximumAt(s, i)
    ensures ObserveTiles(s, peaks, i, s.tiles) == Some(r)
  {
    hide UsageAt, MaximumAt, Usage.Plus, Usage.Total, Peaks.Observe, Storage.Valid;
    r := peaks;
    for t := 0 to s.tiles
      invariant ObserveTiles(s, peaks, i, t) == Some(r)
    {
      r := r.Observe(used[t].Plus(scratch[t]), maximum);
    }
  }

  /** One accounting pass takes the memory of an entry to that of the next. */
  lemma WalkIsUsage(s: Storage, i: nat, t: nat, used: Usage)
    requires s.Valid() && i <= |s.plan.touched| && t < s.tiles
    requires if i == 0 then used == Usage(0, 0) else UsageAt(s, i - 1, t) == Some(used)
    ensures Walk(s, used, LiveBefore(s.plan, i), LiveAt(s.plan, i), t, |s.plan.classes|) == UsageAt(s, i, t)
  {
    hide LiveAt, Walk, Update;
    if i > 0 {
      UsedIsTotalIff(s.plan, s.Sizes(t, Standard), i - 1);
      UsedIsTotalIff(s.plan, s.Sizes(t, Interleaved), i - 1);
    }
    WalkByClass(s, used, LiveBefore(s.plan, i), LiveAt(s.plan, i), t, |s.plan.classes|);
  }

  lemma {:induction false} MissingShows(s: Storage, peaks: Peaks, i: nat, t: nat, m: nat)
    requires s.Valid() && i <= |s.plan.touched| && t < m <= s.tiles && UsageAt(s, i, t) == None
    ensures ObserveTiles(s, peaks, i, m) == None
    decreases m
  {
    hide UsageAt, MaximumAt;
    if t < m - 1 {
      MissingShows(s, peaks, i, t, m - 1);
    }
  }

  lemma {:induction false} FailurePersists(s: Storage, n: nat, m: nat)
    requires s.Valid() && n <= m <= |s.plan.touched| + 1 && PeaksAfter(s, n) == None
    ensures PeaksAfter(s, m) == None
    decreases m
  {
    hide ObserveTiles;
    if n < m {
      FailurePersists(s, n, m - 1);
    }
  }

  /** A tile without a value in one entry leaves the program without peaks. */
  lemma MissingFails(s: Storage, i: nat, t: nat)
    requires s.Valid() && i <= |s.plan.touched| && t < s.tiles && UsageAt(s, i, t) == None
    ensures PeaksAfter(s, |s.plan.touched| + 1) == None
  {
    hide UsageAt, ObserveTiles;
    if PeaksAfter(s, i).Some? {
      MissingShows(s, PeaksAfter(s, i).value, i, t, s.tiles);
    }
    FailurePersists(s, i + 1, |s.plan.touched| + 1);
  }

  /** What is left of entry `i` when the step has retired the roots it uses last. */
  ghost predicate Retired(s: Storage, live: seq<bool>, i: nat)
    requires s.Valid() && i <= |s.plan.touched|
  {
    && |live| == |s.plan.classes|
    && forall id :: 0 <= id < |live| ==> live[id] == (LiveAt(s.plan, i)[id] && (i == 0 || s.plan.last[id] > i - 1))
  }

  /** Touching the roots of the next step gives its live set. */
  lemma TouchedIsLive(s: Storage, before: seq<bool>, live: seq<bool>, i: nat)
    requires s.Valid() && i < |s.plan.touched| && Retired(s, before, i) && |live| == |before|
    requires forall id :: 0 <= id < |live| ==> live[id] == (before[id] || Touches(s.plan.touched[i], id))
    ensures live == LiveAt(s.plan, i + 1)
  {
    var next := LiveAt(s.plan, i + 1);
    forall id | 0 <= id < |live|
      ensures live[id] == next[id]
    {
    }
  }

  lemma RetiredNext(s: Storage, live: seq<bool>, i: nat)
    requires s.Valid() && i < |s.plan.touched| && |live| == |s.plan.classes|
    requires forall id :: 0 <= id < |live| ==> live[id] == (LiveAt(s.plan, i + 1)[id] && s.plan.last[id] > i)
    ensures Retired(s, live, i + 1)
  {
  }

  lemma Starts(s: Storage, live: seq<bool>, accounted: seq<bool>)
    requires s.Valid() && live == s.plan.initial && |accounted| == |live|
    requires forall id :: 0 <= id < |accounted| ==> !accounted[id]
    ensures live == LiveAt(s.plan, 0) && accounted == LiveBefore(s.plan, 0)
    ensures Retired(s, live, 0) && PeaksAfter(s, 0) == Some(Peaks(0, 0, 0, 0))
  {
  }

  method SweepEntry(s: Storage, live: array<bool>, accounted: array<bool>, used: array<Usage>, ghost i: nat,
                    scratch: seq<Usage>, kernel: nat, before: Peaks)
    returns (peaks: Option<Peaks>)
    requires s.Valid() && i <= |s.plan.touched|
    requires live.Length == accounted.Length == |s.plan.classes| && used.Length == s.tiles == |scratch| && live != accounted
    requires live[..] == LiveAt(s.plan, i) && accounted[..] == LiveBefore(s.plan, i)
    requires kernel == s.Kernel(i) && forall t :: 0 <= t < s.tiles ==> scratch[t] == s.Scratch(i, t)
    requires forall t :: 0 <= t < s.tiles ==> (if i == 0 then used[t] == Usage(0, 0) else UsageAt(s, i - 1, t) == Some(used[t]))
    requires PeaksAfter(s, i) == Some(before)
    modifies accounted, used
    ensures peaks.None? ==> PeaksAfter(s, |s.plan.touched| + 1) == None
    ensures peaks.Some? ==> accounted[..] == LiveAt(s.plan, i) && PeaksAfter(s, i + 1) == peaks
    ensures peaks.Some? ==> forall t :: 0 <= t < s.tiles ==> UsageAt(s, i, t) == Some(used[t])
  {
    hide LiveAt, LiveBefore, UsageAt, Walk, LargestStandard, ObserveTiles;
    var maximum := LargestLive(s, live);
    assert forall t :: 0 <= t < s.tiles ==>
        Walk(s, used[t], LiveBefore(s.plan, i), LiveAt(s.plan, i), t, |s.plan.classes|) == UsageAt(s, i, t) by {
      forall t | 0 <= t < s.tiles
        ensures Walk(s, used[t], LiveBefore(s.plan, i), LiveAt(s.plan, i), t, |s.plan.classes|) == UsageAt(s, i, t)
      {
        WalkIsUsage(s, i, t, used[t]);
      }
    }
    var ok := AccountChanges(s, used, accounted, live);
    if !ok {
      ghost var t :| 0 <= t < s.tiles && UsageAt(s, i, t) == None;
      MissingFails(s, i, t);
      return None;
    }
    var after := ObserveEach(s, used, i, scratch, Max2(maximum, kernel), before);
    peaks := Some(after);
  }

  /** The sweep computes the peaks of the program, or nothing if a removal underflows. */
  method Sweep(s: Storage) returns (r: Option<Peaks>)
    requires s.Valid()
    ensures r == PeaksAfter(s, |s.plan.touched| + 1)
  {
    hide LiveAt, UsageAt, PeaksAfter, Retired, Touches;
    var n := |s.plan.classes|;
    var live := new bool[n](id requires 0 <= id < n && |s.plan.initial| == n => s.plan.initial[id]);
    var accounted := new bool[n](_ => false);
    var used := new Usage[s.tiles](_ => Usage(0, 0));
    var none := seq(s.tiles, _ => Usage(0, 0));
    Starts(s, live[..], accounted[..]);
    r := SweepEntry(s, live, accounted, used, 0, none, 0, Peaks(0, 0, 0, 0));
    if r.None? {
      return;
    }
    for i := 0 to |s.plan.touched|
      invariant fresh(live) && fresh(accounted) && fresh(used)
      invariant Retired(s, live[..], i) && accounted[..] == LiveAt(s.plan, i)
      invariant forall t :: 0 <= t < s.tiles ==> UsageAt(s, i, t) == Some(used[t])
      invariant r.Some? && PeaksAfter(s, i + 1) == r
    {
      ghost var before := live[..];
      TouchRoots(live, s.plan.touched[i]);
      TouchedIsLive(s, before, live[..], i);
      assert LiveBefore(s.plan, i + 1) == LiveAt(s.plan, i);
      r := SweepEntry(s, live, accounted, used, i + 1, s.scratch[i], s.kernel[i], r.value);
      if r.None? {
        return;
      }
      RetireRoots(live, s.plan.last, i);
      RetiredNext(s, live[..], i);
    }
  }
}
