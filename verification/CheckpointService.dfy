/** Servicing diagnostic checkpoints (crates/ipu-tests/src/diagnostic.rs).

    Every tile of the device stops at the same sequence of traps; trap k raises breakpoint
    exception k mod 2. A polling host compares results and resumes the tiles. Tiles make
    progress at any time, and what the debug registers show may lag behind: a resumed tile
    may go on showing its previous stop.

    `Device.oracle` lists the environment steps that happen before each host access, so a
    statement about every oracle is a statement about every interleaving. The host may
    clear an exception only on a tile that is really stopped at the trap it has serviced:
    that is the precondition of `Device.Resume`. */
module CheckpointService {

  /** What a tile is doing. */
  datatype Activity = Running | Trapped | Faulted

  /** What the debug registers of a tile show. */
  datatype Shown = Nothing | Break(bit: nat) | OtherException

  /** `cleared` counts the traps that the tile has been resumed from. */
  datatype Tile = Tile(cleared: nat, activity: Activity, shown: Shown)

  /** A tile reaches its next trap, fails, or has its registers catch up. */
  datatype Step = Trap(tile: nat) | Fault(tile: nat) | Show(tile: nat)

  function Truth(t: Tile): Shown {
    match t.activity
    case Running => Nothing
    case Trapped => Break(t.cleared % 2)
    case Faulted => OtherException
  }

  function After(tiles: seq<Tile>, step: Step, traps: nat): (r: seq<Tile>)
    ensures |r| == |tiles|
  {
    if step.tile >= |tiles| then tiles
    else
      var t := tiles[step.tile];
      match step
      case Trap(i) =>
        if t.activity.Running? && t.cleared < traps then tiles[i := t.(activity := Trapped)] else tiles
      case Fault(i) =>
        if t.activity.Running? then tiles[i := t.(activity := Faulted)] else tiles
      case Show(i) => tiles[i := t.(shown := Truth(t))]
  }

  function AfterAll(tiles: seq<Tile>, steps: seq<Step>, traps: nat): (r: seq<Tile>)
    ensures |r| == |tiles|
  {
    if steps == [] then tiles
    else After(AfterAll(tiles, steps[..|steps| - 1], traps), steps[|steps| - 1], traps)
  }

  /** A tile that has been resumed `cleared` times shows its own stop, the stop before it,
      a fault of its own, or nothing, and is not stopped when no trap is left. */
  ghost predicate Honest(t: Tile, traps: nat) {
    && (t.activity.Trapped? ==> t.cleared < traps)
    && match t.shown
       case Nothing => true
       case Break(bit) => (t.activity.Trapped? && bit == t.cleared % 2) || (t.cleared > 0 && bit == (t.cleared - 1) % 2)
       case OtherException => t.activity.Faulted?
  }

  /** Really stopped at trap `k`, and the registers show it. */
  ghost predicate StoppedAt(t: Tile, k: nat) {
    t.activity.Trapped? && t.cleared == k && t.shown == Truth(t)
  }

  /** The registers no longer show the stop from which the tile was last resumed. */
  ghost predicate Fresh(t: Tile) {
    t.cleared > 0 ==> t.shown != Break((t.cleared - 1) % 2)
  }

  function Resumed(t: Tile): Tile {
    t.(cleared := t.cleared + 1, activity := Running)
  }

  /** What the environment can never do: undo a stop, pass one, or show an old one again. */
  ghost predicate Evolves(before: seq<Tile>, after: seq<Tile>, traps: nat) {
    && |before| == |after|
    && forall i :: 0 <= i < |before| ==>
         && after[i].cleared == before[i].cleared
         && (Honest(before[i], traps) ==> Honest(after[i], traps))
         && (Fresh(before[i]) ==> Fresh(after[i]))
         && (before[i].activity.Trapped? ==> after[i].activity.Trapped?)
         && (before[i].activity.Trapped? && before[i].shown == Truth(before[i]) ==> after[i].shown == before[i].shown)
  }

  lemma {:induction false} AfterAllEvolves(tiles: seq<Tile>, steps: seq<Step>, traps: nat)
    ensures Evolves(tiles, AfterAll(tiles, steps, traps), traps)
  {
    if steps != [] {
      AfterAllEvolves(tiles, steps[..|steps| - 1], traps);
    }
  }

  /** The breakpoint bits alternate, so a stop that shows the bit of trap `k` on a tile
      resumed `k` times is a real stop at trap `k`, never the stop before it. */
  lemma ShownBitIsFresh(t: Tile, k: nat, traps: nat)
    requires Honest(t, traps) && t.cleared == k && t.shown == Break(k % 2)
    ensures StoppedAt(t, k)
  {
  }

  ghost predicate InStep(tiles: seq<Tile>, k: nat, traps: nat) {
    forall i :: 0 <= i < |tiles| ==> tiles[i].cleared == k && Honest(tiles[i], traps)
  }

  ghost predicate AllStoppedAt(tiles: seq<Tile>, k: nat, count: nat) {
    |tiles| == count && forall i :: 0 <= i < count ==> StoppedAt(tiles[i], k)
  }

  // ---------------------------------------------------------------------------
  // The device
  // ---------------------------------------------------------------------------

  /** The tiles, and the number of host accesses so far. */
  datatype World = World(tiles: seq<Tile>, accesses: nat)

  datatype Environment = Environment(traps: nat, oracle: nat -> seq<Step>) {
    /** The world after the steps that precede the next access. */
    function Elapsed(w: World): (r: World)
      ensures |r.tiles| == |w.tiles|
    {
      World(AfterAll(w.tiles, oracle(w.accesses), traps), w.accesses + 1)
    }

    function ResumedTile(w: World, i: nat): (r: World)
      requires i < |w.tiles|
      ensures |r.tiles| == |w.tiles|
    {
      var now := Elapsed(w);
      now.(tiles := now.tiles[i := Resumed(now.tiles[i])])
    }
  }

  class Device {
    var tiles: seq<Tile>
    const traps: nat
    const oracle: nat -> seq<Step>
    var accesses: nat

    ghost function Now(): World
      reads this
    {
      World(tiles, accesses)
    }

    ghost function Env(): Environment {
      Environment(traps, oracle)
    }

    constructor (count: nat, traps: nat, oracle: nat -> seq<Step>)
      ensures this.traps == traps && this.oracle == oracle && accesses == 0
      ensures |tiles| == count && forall i :: 0 <= i < count ==> tiles[i] == Tile(0, Running, Nothing)
    {
      this.traps, this.oracle := traps, oracle;
      tiles := seq(count, _ => Tile(0, Running, Nothing));
      accesses := 0;
    }

    /** The environment takes the steps that precede this access. */
    method Elapse()
      modifies this
      ensures Now() == Env().Elapsed(old(Now())) && Evolves(old(tiles), tiles, traps)
    {
      AfterAllEvolves(tiles, oracle(accesses), traps);
      tiles := AfterAll(tiles, oracle(accesses), traps);
      accesses := accesses + 1;
    }

    /** Whether the context state register reads "stopped". */
    method ContextStopped(i: nat) returns (stopped: bool)
      requires i < |tiles|
      modifies this
      ensures Now() == Env().Elapsed(old(Now())) && Evolves(old(tiles), tiles, traps)
      ensures stopped == (tiles[i].shown != Nothing)
    {
      Elapse();
      stopped := tiles[i].shown != Nothing;
    }

    /** The exception that the status register reads. */
    method Status(i: nat) returns (shown: Shown)
      requires i < |tiles|
      modifies this
      ensures Now() == Env().Elapsed(old(Now())) && Evolves(old(tiles), tiles, traps)
      ensures shown == tiles[i].shown
    {
      Elapse();
      shown := tiles[i].shown;
    }

    /** Step over the trap and clear its exception. Only a really stopped tile may be
        written; afterwards it runs, while its registers may still show the old stop. */
    method Resume(i: nat)
      requires i < |tiles| && tiles[i].activity.Trapped?
      modifies this
      ensures Now() == Env().ResumedTile(old(Now()), i)
      ensures Evolves(old(tiles), Env().Elapsed(old(Now())).tiles, traps)
    {
      Elapse();
      tiles := tiles[i := Resumed(tiles[i])];
    }
  }

  datatype Outcome = Serviced | Waiting | NoTiles | ExtraStop | Mismatch(tile: nat) | NumericalError

  // ---------------------------------------------------------------------------
  // A poll in a given environment
  // ---------------------------------------------------------------------------

  /** Reading the stop flags from tile `i` on, up to the first that is not set. */
  ghost function ReadStops(e: Environment, w: World, i: nat): (r: (bool, World))
    requires i <= |w.tiles|
    ensures |r.1.tiles| == |w.tiles|
    decreases |w.tiles| - i
  {
    if i == |w.tiles| then (true, w)
    else
      var now := e.Elapsed(w);
      if now.tiles[i].shown == Nothing then (false, now) else ReadStops(e, now, i + 1)
  }

  /** Reading the exceptions from tile `i` on, up to the first that is not breakpoint `bit`. */
  ghost function ReadBreaks(e: Environment, w: World, i: nat, bit: nat): (r: (nat, World))
    requires i <= |w.tiles|
    ensures i <= r.0 <= |w.tiles| == |r.1.tiles|
    ensures r.0 < |w.tiles| ==> r.1.tiles[r.0].shown != Break(bit)
    decreases |w.tiles| - i
  {
    if i == |w.tiles| then (i, w)
    else
      var now := e.Elapsed(w);
      if now.tiles[i].shown != Break(bit) then (i, now) else ReadBreaks(e, now, i + 1, bit)
  }

  ghost function ResumedFrom(e: Environment, w: World, i: nat): (r: World)
    requires i <= |w.tiles|
    ensures |r.tiles| == |w.tiles|
    decreases |w.tiles| - i
  {
    if i == |w.tiles| then w else ResumedFrom(e, e.ResumedTile(w, i), i + 1)
  }

  /** What a poll comes to, and whether the host still waits for the first tile to move on. */
  datatype Polled = Polled(outcome: Outcome, world: World, waiting: bool)

  /** The rest of a poll, once the first tile has shown a new stop. */
  ghost function PollStopped(e: Environment, w: World, next: nat, count: nat, agrees: nat -> bool): Polled {
    var stops := ReadStops(e, w, 0);
    if !stops.0 then Polled(Waiting, stops.1, false)
    else if next >= count then Polled(ExtraStop, stops.1, false)
    else
      var breaks := ReadBreaks(e, stops.1, 0, next % 2);
      if breaks.0 < |w.tiles| then Polled(Mismatch(breaks.0), breaks.1, false)
      else if !agrees(next) then Polled(NumericalError, breaks.1, false)
      else Polled(Serviced, ResumedFrom(e, breaks.1, 0), true)
  }

  ghost function Poll(e: Environment, w: World, next: nat, waiting: bool, count: nat, agrees: nat -> bool): Polled
    requires waiting ==> next > 0
  {
    if w.tiles == [] then Polled(NoTiles, w, waiting)
    else
      var first := e.Elapsed(w);
      if first.tiles[0].shown == Nothing then Polled(Waiting, first, false)
      else if !waiting then PollStopped(e, first, next, count, agrees)
      else
        var second := e.Elapsed(first);
        if second.tiles[0].shown == Break((next - 1) % 2) then Polled(Waiting, second, true)
        else PollStopped(e, second, next, count, agrees)
  }

  // ---------------------------------------------------------------------------
  // Polls of a device without faults
  // ---------------------------------------------------------------------------

  ghost predicate FaultFree(oracle: nat -> seq<Step>) {
    forall n: nat, k :: 0 <= k < |oracle(n)| ==> !oracle(n)[k].Fault?
  }

  /** All tiles have been resumed from the traps before `next`, and none has failed. */
  ghost predicate Healthy(tiles: seq<Tile>, next: nat, traps: nat) {
    InStep(tiles, next, traps) && forall i :: 0 <= i < |tiles| ==> !tiles[i].activity.Faulted?
  }

  ghost predicate FreshFrom(tiles: seq<Tile>, from: nat) {
    forall i :: from <= i < |tiles| ==> Fresh(tiles[i])
  }

  lemma {:induction false} AfterAllHealthy(tiles: seq<Tile>, steps: seq<Step>, next: nat, traps: nat)
    requires Healthy(tiles, next, traps) && forall k :: 0 <= k < |steps| ==> !steps[k].Fault?
    ensures Healthy(AfterAll(tiles, steps, traps), next, traps)
    ensures Evolves(tiles, AfterAll(tiles, steps, traps), traps)
  {
    AfterAllEvolves(tiles, steps, traps);
    if steps != [] {
      AfterAllHealthy(tiles, steps[..|steps| - 1], next, traps);
    }
  }

  lemma ElapsedHealthy(e: Environment, w: World, next: nat)
    requires FaultFree(e.oracle) && Healthy(w.tiles, next, e.traps)
    ensures Healthy(e.Elapsed(w).tiles, next, e.traps) && Evolves(w.tiles, e.Elapsed(w).tiles, e.traps)
  {
    AfterAllHealthy(w.tiles, e.oracle(w.accesses), next, e.traps);
  }

  /** Once fresh tiles have all shown a stop, all are really stopped at the next trap. */
  lemma {:induction false} FreshStops(e: Environment, w: World, next: nat, i: nat)
    requires FaultFree(e.oracle) && Healthy(w.tiles, next, e.traps) && FreshFrom(w.tiles, 0)
    requires i <= |w.tiles| && forall j :: 0 <= j < i ==> StoppedAt(w.tiles[j], next)
    ensures var stops := ReadStops(e, w, i); stops.0 ==> AllStoppedAt(stops.1.tiles, next, |w.tiles|)
    decreases |w.tiles| - i
  {
    if i < |w.tiles| {
      var now := e.Elapsed(w);
      ElapsedHealthy(e, w, next);
      if now.tiles[i].shown != Nothing {
        assert StoppedAt(now.tiles[i], next);
        FreshStops(e, now, next, i + 1);
      }
    }
  }

  lemma {:induction false} StoppedBreaks(e: Environment, w: World, next: nat, i: nat)
    requires AllStoppedAt(w.tiles, next, |w.tiles|) && i <= |w.tiles|
    ensures ReadBreaks(e, w, i, next % 2).0 == |w.tiles|
    decreases |w.tiles| - i
  {
    if i < |w.tiles| {
      AfterAllEvolves(w.tiles, e.oracle(w.accesses), e.traps);
      StoppedBreaks(e, e.Elapsed(w), next, i + 1);
    }
  }

  /** Fresh registers rule out a mismatch in every fault-free interleaving. */
  lemma FreshNeverMismatches(e: Environment, w: World, next: nat, waiting: bool, count: nat, agrees: nat -> bool)
    requires FaultFree(e.oracle) && Healthy(w.tiles, next, e.traps)
    requires (waiting ==> next > 0) && (!waiting && w.tiles != [] ==> Fresh(w.tiles[0]))
    requires FreshFrom(w.tiles, 1)
    ensures !Poll(e, w, next, waiting, count, agrees).outcome.Mismatch?
  {
    hide ReadStops, ReadBreaks, ResumedFrom, Environment.Elapsed, Environment.ResumedTile;
    if w.tiles != [] {
      var first := e.Elapsed(w);
      ElapsedHealthy(e, w, next);
      var second := e.Elapsed(first);
      ElapsedHealthy(e, first, next);
      var now := if waiting then second else first;
      if Fresh(now.tiles[0]) {
        FreshStops(e, now, next, 0);
        var stops := ReadStops(e, now, 0);
        if stops.0 {
          StoppedBreaks(e, stops.1, next, 0);
        }
      }
    }
  }

  /** Every tile but `stale` runs into its next trap, and its registers show it. */
  function OthersTrap(n: nat, stale: nat): seq<Step> {
    if n == 0 then []
    else OthersTrap(n - 1, stale) + if n - 1 == stale then [] else [Trap(n - 1), Show(n - 1)]
  }

  lemma {:induction false} OthersTrapWithoutFault(n: nat, stale: nat)
    ensures forall k :: 0 <= k < |OthersTrap(n, stale)| ==> !OthersTrap(n, stale)[k].Fault?
  {
    if n > 0 {
      OthersTrapWithoutFault(n - 1, stale);
    }
  }

  lemma AfterTwo(tiles: seq<Tile>, steps: seq<Step>, a: Step, b: Step, traps: nat)
    ensures AfterAll(tiles, steps + [a, b], traps) == After(After(AfterAll(tiles, steps, traps), a, traps), b, traps)
  {
    assert (steps + [a, b])[..|steps| + 1] == steps + [a];
    assert (steps + [a])[..|steps|] == steps;
  }

  lemma {:induction false} OthersShowStops(tiles: seq<Tile>, next: nat, traps: nat, n: nat, stale: nat)
    requires Healthy(tiles, next, traps) && next < traps && n <= |tiles|
    ensures var after := AfterAll(tiles, OthersTrap(n, stale), traps);
      && (forall j :: 0 <= j < n && j != stale ==> after[j].shown == Break(next % 2))
      && forall j :: 0 <= j < |tiles| && (j == stale || n <= j) ==> after[j] == tiles[j]
  {
    if n > 0 {
      OthersShowStops(tiles, next, traps, n - 1, stale);
      if n - 1 == stale {
        assert OthersTrap(n, stale) == OthersTrap(n - 1, stale);
      } else {
        AfterTwo(tiles, OthersTrap(n - 1, stale), Trap(n - 1), Show(n - 1), traps);
      }
    }
  }

  /** No tile takes a step before the accesses from `n` up to, not including, `end`. */
  ghost predicate Quiet(e: Environment, n: nat, end: nat) {
    forall m: nat :: n <= m < end ==> e.oracle(m) == []
  }

  lemma {:induction false} QuietStops(e: Environment, w: World, i: nat)
    requires i <= |w.tiles| && Quiet(e, w.accesses, w.accesses + |w.tiles| - i)
    requires forall j :: 0 <= j < |w.tiles| ==> w.tiles[j].shown != Nothing
    ensures ReadStops(e, w, i) == (true, World(w.tiles, w.accesses + |w.tiles| - i))
    decreases |w.tiles| - i
  {
    if i < |w.tiles| {
      QuietStops(e, e.Elapsed(w), i + 1);
    }
  }

  lemma {:induction false} QuietBreaks(e: Environment, w: World, i: nat, bit: nat, stale: nat)
    requires i <= stale < |w.tiles| && Quiet(e, w.accesses, w.accesses + stale + 1 - i)
    requires w.tiles[stale].shown != Break(bit)
    ensures ReadBreaks(e, w, i, bit).0 <= stale
    decreases |w.tiles| - i
  {
    if w.tiles[i].shown == Break(bit) {
      QuietBreaks(e, e.Elapsed(w), i + 1, bit, stale);
    }
  }

  lemma {:induction false} QuietBreaksAll(e: Environment, w: World, i: nat, bit: nat)
    requires i <= |w.tiles| && Quiet(e, w.accesses, w.accesses + |w.tiles| - i)
    requires forall j :: 0 <= j < |w.tiles| ==> w.tiles[j].shown == Break(bit)
    ensures ReadBreaks(e, w, i, bit) == (|w.tiles|, World(w.tiles, w.accesses + |w.tiles| - i))
    decreases |w.tiles| - i
  {
    if i < |w.tiles| {
      QuietBreaksAll(e, e.Elapsed(w), i + 1, bit);
    }
  }

  /** A stale tile other than the first, and a trap left: some fault-free interleaving of the
      poll reports a mismatch. */
  lemma StaleMismatches(traps: nat, w: World, next: nat, waiting: bool, count: nat, agrees: nat -> bool, stale: nat)
    returns (e: Environment)
    requires Healthy(w.tiles, next, traps) && next < traps && next < count && (waiting ==> next > 0)
    requires 0 < stale < |w.tiles| && !Fresh(w.tiles[stale])
    ensures e.traps == traps && FaultFree(e.oracle)
    ensures Poll(e, w, next, waiting, count, agrees).outcome.Mismatch?
  {
    hide ReadStops, ReadBreaks, ResumedFrom, OthersTrap;
    var steps := OthersTrap(|w.tiles|, stale);
    OthersTrapWithoutFault(|w.tiles|, stale);
    e := Environment(traps, (n: nat) => if n == w.accesses then steps else []);
    OthersShowStops(w.tiles, next, traps, |w.tiles|, stale);
    var first := e.Elapsed(w);
    var second := e.Elapsed(first);
    assert second.tiles == first.tiles;
    var now := if waiting then second else first;
    QuietStops(e, now, 0);
    QuietBreaks(e, World(now.tiles, now.accesses + |now.tiles|), 0, next % 2, stale);
  }

  /** Without any fault a poll can still fail: while a trap is left, some interleaving of the
      poll reports a mismatch exactly when some tile other than the first still shows the
      stop from which it was last resumed. The host waits only for the first tile. */
  lemma MismatchIff(traps: nat, w: World, next: nat, waiting: bool, count: nat, agrees: nat -> bool)
    requires Healthy(w.tiles, next, traps) && next < traps && next < count
    requires (waiting ==> next > 0) && (!waiting && w.tiles != [] ==> Fresh(w.tiles[0]))
    ensures (exists oracle :: FaultFree(oracle)
               && Poll(Environment(traps, oracle), w, next, waiting, count, agrees).outcome.Mismatch?)
            <==> exists i :: 0 < i < |w.tiles| && !Fresh(w.tiles[i])
  {
    hide Poll, Fresh, FaultFree;
    if i :| 0 < i < |w.tiles| && !Fresh(w.tiles[i]) {
      var e := StaleMismatches(traps, w, next, waiting, count, agrees, i);
      assert e == Environment(traps, e.oracle);
    } else {
      forall oracle: nat -> seq<Step> | FaultFree(oracle)
        ensures !Poll(Environment(traps, oracle), w, next, waiting, count, agrees).outcome.Mismatch?
      {
        FreshNeverMismatches(Environment(traps, oracle), w, next, waiting, count, agrees);
      }
    }
  }

  /** When no trap is left, no fault-free interleaving reports a mismatch. */
  lemma NoTrapNoMismatch(e: Environment, w: World, next: nat, waiting: bool, count: nat, agrees: nat -> bool)
    requires FaultFree(e.oracle) && Healthy(w.tiles, next, e.traps) && next >= e.traps
    requires (waiting ==> next > 0) && (!waiting && w.tiles != [] ==> Fresh(w.tiles[0]))
    ensures Poll(e, w, next, waiting, count, agrees).outcome in {NoTiles, Waiting}
  {
    hide ReadBreaks, ResumedFrom, Environment.Elapsed, Environment.ResumedTile;
    if w.tiles != [] {
      var first := e.Elapsed(w);
      ElapsedHealthy(e, w, next);
      var second := e.Elapsed(first);
      ElapsedHealthy(e, first, next);
      ElapsedHealthy(e, second, next);
    }
  }

  // ---------------------------------------------------------------------------
  // Polls of a device at rest
  // ---------------------------------------------------------------------------

  lemma {:induction false} RestingStops(e: Environment, w: World, i: nat)
    requires i <= |w.tiles| && Quiet(e, w.accesses, w.accesses + |w.tiles| - i)
    ensures var stops := ReadStops(e, w, i);
      && (stops.0 <==> forall j :: i <= j < |w.tiles| ==> w.tiles[j].shown != Nothing)
      && stops.1.tiles == w.tiles && w.accesses <= stops.1.accesses <= w.accesses + |w.tiles| - i
    decreases |w.tiles| - i
  {
    if i < |w.tiles| && w.tiles[i].shown != Nothing {
      RestingStops(e, e.Elapsed(w), i + 1);
    }
  }

  lemma {:induction false} RestingBreaks(e: Environment, w: World, i: nat, bit: nat)
    requires i <= |w.tiles| && Quiet(e, w.accesses, w.accesses + |w.tiles| - i)
    ensures var breaks := ReadBreaks(e, w, i, bit);
      && (forall j :: i <= j < breaks.0 ==> w.tiles[j].shown == Break(bit))
      && breaks.1.tiles == w.tiles && w.accesses <= breaks.1.accesses <= w.accesses + |w.tiles| - i
    decreases |w.tiles| - i
  {
    if i < |w.tiles| && w.tiles[i].shown == Break(bit) {
      RestingBreaks(e, e.Elapsed(w), i + 1, bit);
    }
  }

  lemma {:induction false} RestingResumes(e: Environment, w: World, i: nat)
    requires i <= |w.tiles| && Quiet(e, w.accesses, w.accesses + |w.tiles| - i)
    ensures forall j :: 0 <= j < |w.tiles| ==>
              ResumedFrom(e, w, i).tiles[j] == if j < i then w.tiles[j] else Tile(w.tiles[j].cleared + 1, Running, w.tiles[j].shown)
    decreases |w.tiles| - i
  {
    if i < |w.tiles| {
      RestingResumes(e, e.ResumedTile(w, i), i + 1);
    }
  }

  /** What a poll must come to when the registers do not change meanwhile. */
  ghost predicate Reports(tiles: seq<Tile>, next: nat, waiting: bool, count: nat, agrees: nat -> bool, r: Outcome)
    requires waiting ==> next > 0
  {
    if tiles == [] then r == NoTiles
    else if exists i :: 0 <= i < |tiles| && tiles[i].shown == Nothing then r == Waiting
    else if waiting && tiles[0].shown == Break((next - 1) % 2) then r == Waiting
    else if count <= next then r == ExtraStop
    else if exists i :: 0 <= i < |tiles| && tiles[i].shown != Break(next % 2) then
      r.Mismatch? && FirstOther(tiles, Break(next % 2), r.tile)
    else r == if agrees(next) then Serviced else NumericalError
  }

  ghost predicate FirstOther(tiles: seq<Tile>, shown: Shown, i: nat) {
    i < |tiles| && tiles[i].shown != shown && forall j :: 0 <= j < i ==> tiles[j].shown == shown
  }

  lemma RestingStopped(e: Environment, w: World, next: nat, count: nat, agrees: nat -> bool)
    requires w.tiles != [] && Quiet(e, w.accesses, w.accesses + 3 * |w.tiles|)
    ensures var polled := PollStopped(e, w, next, count, agrees);
      && Reports(w.tiles, next, false, count, agrees, polled.outcome)
      && if polled.outcome.Serviced?
         then |polled.world.tiles| == |w.tiles| && forall j :: 0 <= j < |w.tiles| ==>
                polled.world.tiles[j] == Tile(w.tiles[j].cleared + 1, Running, w.tiles[j].shown)
         else polled.world.tiles == w.tiles
  {
    hide ReadStops, ReadBreaks, ResumedFrom;
    RestingStops(e, w, 0);
    var stops := ReadStops(e, w, 0).1;
    RestingBreaks(e, stops, 0, next % 2);
    var breaks := ReadBreaks(e, stops, 0, next % 2).1;
    RestingResumes(e, breaks, 0);
  }

  /** A poll that the tiles do not interfere with: it reports what the registers show, and
      resumes every tile when they all show the next checkpoint and the results agree. */
  lemma RestingPoll(e: Environment, w: World, next: nat, waiting: bool, count: nat, agrees: nat -> bool)
    requires (waiting ==> next > 0) && Quiet(e, w.accesses, w.accesses + 3 * |w.tiles| + 2)
    ensures var polled := Poll(e, w, next, waiting, count, agrees);
      && Reports(w.tiles, next, waiting, count, agrees, polled.outcome)
      && if polled.outcome.Serviced?
         then |polled.world.tiles| == |w.tiles| && forall j :: 0 <= j < |w.tiles| ==>
                polled.world.tiles[j] == Tile(w.tiles[j].cleared + 1, Running, w.tiles[j].shown)
         else polled.world.tiles == w.tiles
  {
    hide PollStopped;
    if w.tiles != [] {
      var first := e.Elapsed(w);
      var second := e.Elapsed(first);
      assert first.tiles == second.tiles == w.tiles;
      RestingStopped(e, if waiting then second else first, next, count, agrees);
    }
  }

  // ---------------------------------------------------------------------------
  // The host
  // ---------------------------------------------------------------------------

  class Host {
    const device: Device

    /** The recorded breakpoint of every checkpoint. */
    const breakpoints: seq<nat>

    /** Whether the results at a checkpoint agree with the reference. */
    const agrees: nat -> bool

    var next: nat
    var waitingForResume: bool

    /** The tiles at the moment the results of each serviced checkpoint were compared. */
    ghost var witnessed: seq<seq<Tile>>

    /** The invariant of every run: each serviced checkpoint was serviced once, in order, with
        every tile really stopped at its trap, and no tile is ahead of or behind the host. */
    ghost predicate Valid()
      reads this, device
    {
      && (forall k :: 0 <= k < |breakpoints| ==> breakpoints[k] == k % 2)
      && next <= |breakpoints|
      && (waitingForResume ==> next > 0)
      && InStep(device.tiles, next, device.traps)
      && (!waitingForResume && |device.tiles| > 0 ==> Fresh(device.tiles[0]))
      && |witnessed| == next
      && forall k :: 0 <= k < next ==> AllStoppedAt(witnessed[k], k, |device.tiles|)
    }

    constructor (device: Device, breakpoints: seq<nat>, agrees: nat -> bool)
      requires forall k :: 0 <= k < |breakpoints| ==> breakpoints[k] == k % 2
      requires forall i :: 0 <= i < |device.tiles| ==> device.tiles[i] == Tile(0, Running, Nothing)
      ensures Valid() && this.device == device && this.breakpoints == breakpoints && this.agrees == agrees
      ensures next == 0 && !waitingForResume
    {
      this.device, this.breakpoints, this.agrees := device, breakpoints, agrees;
      next, waitingForResume, witnessed := 0, false, [];
    }

    /** Every tile shows a stop, each read at its own time. */
    method AllShowStop() returns (all: bool)
      modifies device
      ensures Evolves(old(device.tiles), device.tiles, device.traps)
      ensures (all, device.Now()) == ReadStops(device.Env(), old(device.Now()), 0)
    {
      ghost var e, start := device.Env(), device.Now();
      for i := 0 to |device.tiles|
        invariant Evolves(start.tiles, device.tiles, device.traps)
        invariant ReadStops(e, device.Now(), i) == ReadStops(e, start, 0)
      {
        var stopped := device.ContextStopped(i);
        if !stopped {
          return false;
        }
      }
      all := true;
    }

    /** Every tile shows the exception of checkpoint `next`, each read at its own time; then
        every tile is really stopped there. */
    method AllShowExpected() returns (ok: bool, bad: nat)
      requires Valid() && next < |breakpoints|
      modifies device
      ensures Evolves(old(device.tiles), device.tiles, device.traps)
      ensures ok ==> AllStoppedAt(device.tiles, next, |device.tiles|)
      ensures (if ok then |device.tiles| else bad, device.Now()) == ReadBreaks(device.Env(), old(device.Now()), 0, next % 2)
      ensures !ok ==> bad < |device.tiles| && device.tiles[bad].shown != Break(next % 2)
    {
      hide AfterAll, Evolves, Stopping, InStep;
      ghost var e, start := device.Env(), device.Now();
      bad := 0;
      BeforeStopping(device.tiles, next, device.traps);
      for i := 0 to |device.tiles|
        invariant |device.tiles| == |start.tiles| && Evolves(start.tiles, device.tiles, device.traps)
        invariant Stopping(device.tiles, i, next, device.traps)
        invariant ReadBreaks(e, device.Now(), i, next % 2) == ReadBreaks(e, start, 0, next % 2)
      {
        ghost var before := device.tiles;
        var shown := device.Status(i);
        EvolvesTwice(start.tiles, before, device.tiles, device.traps);
        if shown != Break(breakpoints[next]) {
          return false, i;
        }
        OneStopped(before, device.tiles, i, next, device.traps);
      }
      AllStopped(device.tiles, next, device.traps);
      ok := true;
    }

    /** Resume every tile. The precondition of `Resume` holds for each: nothing that tiles do
        in the meantime can unstop one that is still to be resumed. */
    method ResumeAll()
      requires AllStoppedAt(device.tiles, next, |device.tiles|) && InStep(device.tiles, next, device.traps)
      modifies device
      ensures |device.tiles| == old(|device.tiles|) && InStep(device.tiles, next + 1, device.traps)
      ensures device.Now() == ResumedFrom(device.Env(), old(device.Now()), 0)
    {
      hide AfterAll, Resuming, Evolves;
      ghost var e, start := device.Env(), device.Now();
      BeforeResuming(device.tiles, next, device.traps);
      for i := 0 to |device.tiles|
        invariant |device.tiles| == |start.tiles|
        invariant Resuming(device.tiles, i, next, device.traps)
        invariant ResumedFrom(e, device.Now(), i) == ResumedFrom(e, start, 0)
      {
        ghost var before := device.Now();
        NextIsStopped(device.tiles, i, next, device.traps);
        device.Resume(i);
        OneResumed(before.tiles, e.Elapsed(before).tiles, i, next, device.traps);
      }
      AfterResuming(device.tiles, next, device.traps);
    }

    /** One poll. Whatever the tiles do in the meantime, it services at most the next
        checkpoint, and only when every tile is really stopped at it. */
    method ServiceCheckpoint() returns (r: Outcome)
      requires Valid()
      modifies this, device
      ensures Valid() && |device.tiles| == old(|device.tiles|)
      ensures r.Serviced? ==> next == old(next) + 1 && waitingForResume && agrees(old(next))
      ensures r.Serviced? ==> witnessed == old(witnessed) + [witnessed[old(next)]]
      ensures !r.Serviced? ==> next == old(next) && witnessed == old(witnessed)
      ensures !r.Serviced? && !r.Waiting? ==> Evolves(old(device.tiles), device.tiles, device.traps)
      ensures r.Mismatch? ==> r.tile < |device.tiles| && device.tiles[r.tile].shown != Break(next % 2)
      // The outcome is that of the poll in the device's own interleaving.
      ensures Polled(r, device.Now(), waitingForResume) ==
              Poll(device.Env(), old(device.Now()), old(next), old(waitingForResume), |breakpoints|, agrees)
      // A device that is ready is serviced at once, whatever steps its tiles still take.
      ensures old(ReadyFor(next)) && agrees(old(next)) ==> r.Serviced?
      // No tile fails and none but the first shows an old stop: no mismatch, whatever steps they take.
      ensures FaultFree(device.oracle) && Healthy(old(device.tiles), old(next), device.traps) && FreshFrom(old(device.tiles), 1) ==>
                !r.Mismatch?
    {
      hide PollStopped, FaultFree, Healthy, FreshFrom, AfterAll;
      PollEnds(device.Env(), device.Now(), next, waitingForResume, |breakpoints|, agrees);
      if |device.tiles| == 0 {
        return NoTiles;
      }
      var firstStopped := device.ContextStopped(0);
      var stale := StillAtPreviousStop(firstStopped);
      if stale || !firstStopped {
        return Waiting;
      }
      r := ServiceStopped();
    }

    /** A stop that the first tile still shows from before its resume is not a new one. */
    method StillAtPreviousStop(firstStopped: bool) returns (stale: bool)
      requires Valid() && |device.tiles| > 0
      requires !firstStopped ==> Fresh(device.tiles[0])
      modifies this`waitingForResume, device
      ensures Valid() && Evolves(old(device.tiles), device.tiles, device.traps)
      ensures waitingForResume == stale
      ensures device.Now() == if old(waitingForResume) && firstStopped then device.Env().Elapsed(old(device.Now())) else old(device.Now())
      ensures stale <==> old(waitingForResume) && firstStopped && device.tiles[0].shown == Break((next - 1) % 2)
    {
      stale := false;
      if waitingForResume {
        if firstStopped {
          var shown := device.Status(0);
          if shown == Break(breakpoints[next - 1]) {
            return true;
          }
        }
        waitingForResume := false;
      }
    }

    /** The rest of a poll, once the first tile has shown a new stop. */
    method ServiceStopped() returns (r: Outcome)
      requires Valid() && |device.tiles| > 0 && !waitingForResume
      modifies this, device
      ensures Valid() && |device.tiles| == old(|device.tiles|)
      ensures r.Serviced? ==> next == old(next) + 1 && waitingForResume && agrees(old(next))
      ensures r.Serviced? ==> witnessed == old(witnessed) + [witnessed[old(next)]]
      ensures !r.Serviced? ==> next == old(next) && witnessed == old(witnessed)
      ensures !r.Serviced? ==> Evolves(old(device.tiles), device.tiles, device.traps)
      ensures r.Mismatch? ==> r.tile < |device.tiles| && device.tiles[r.tile].shown != Break(next % 2)
      ensures Polled(r, device.Now(), waitingForResume) ==
              PollStopped(device.Env(), old(device.Now()), old(next), |breakpoints|, agrees)
    {
      hide ReadStops, ReadBreaks, ResumedFrom;
      var all := AllShowStop();
      if !all {
        return Waiting;
      }
      if next >= |breakpoints| {
        return ExtraStop;
      }
      var ok, bad := AllShowExpected();
      if !ok {
        return Mismatch(bad);
      }
      if !agrees(next) {
        return NumericalError;
      }
      ghost var snapshot := device.tiles;
      ResumeAll();
      witnessed := witnessed + [snapshot];
      waitingForResume := true;
      next := next + 1;
      r := Serviced;
    }

    /** Every tile is stopped at trap `k` and its registers show it. */
    ghost predicate ReadyFor(k: nat)
      reads this, device
    {
      k < |breakpoints| && |device.tiles| > 0 && AllStoppedAt(device.tiles, k, |device.tiles|)
    }
  }

  lemma EvolvesTwice(a: seq<Tile>, b: seq<Tile>, c: seq<Tile>, traps: nat)
    requires Evolves(a, b, traps) && Evolves(b, c, traps)
    ensures Evolves(a, c, traps)
  {
  }

  /** The tiles before `i` have been found stopped at trap `k`. */
  ghost predicate Stopping(tiles: seq<Tile>, i: nat, k: nat, traps: nat) {
    i <= |tiles| && InStep(tiles, k, traps) && forall j :: 0 <= j < i ==> StoppedAt(tiles[j], k)
  }

  lemma BeforeStopping(tiles: seq<Tile>, k: nat, traps: nat)
    requires InStep(tiles, k, traps)
    ensures Stopping(tiles, 0, k, traps) && Evolves(tiles, tiles, traps)
  {
  }

  lemma OneStopped(before: seq<Tile>, now: seq<Tile>, i: nat, k: nat, traps: nat)
    requires Evolves(before, now, traps) && i < |before| && Stopping(before, i, k, traps)
    requires now[i].shown == Break(k % 2)
    ensures Stopping(now, i + 1, k, traps)
  {
    ShownBitIsFresh(now[i], k, traps);
  }

  lemma AllStopped(tiles: seq<Tile>, k: nat, traps: nat)
    requires Stopping(tiles, |tiles|, k, traps)
    ensures AllStoppedAt(tiles, k, |tiles|)
  {
  }

  /** The tiles before `i` have been resumed from trap `k`, the others are stopped at it. */
  ghost predicate Resuming(tiles: seq<Tile>, i: nat, k: nat, traps: nat) {
    && i <= |tiles|
    && (forall j :: 0 <= j < i ==> tiles[j].cleared == k + 1 && Honest(tiles[j], traps))
    && (forall j :: i <= j < |tiles| ==> StoppedAt(tiles[j], k) && Honest(tiles[j], traps))
  }

  lemma BeforeResuming(tiles: seq<Tile>, k: nat, traps: nat)
    requires AllStoppedAt(tiles, k, |tiles|) && InStep(tiles, k, traps)
    ensures Resuming(tiles, 0, k, traps)
  {
  }

  lemma AfterResuming(tiles: seq<Tile>, k: nat, traps: nat)
    requires Resuming(tiles, |tiles|, k, traps)
    ensures InStep(tiles, k + 1, traps)
  {
  }

  lemma NextIsStopped(tiles: seq<Tile>, i: nat, k: nat, traps: nat)
    requires Resuming(tiles, i, k, traps) && i < |tiles|
    ensures tiles[i].activity.Trapped?
  {
  }

  lemma OneResumed(before: seq<Tile>, now: seq<Tile>, i: nat, k: nat, traps: nat)
    requires Evolves(before, now, traps) && i < |before| && Resuming(before, i, k, traps)
    ensures Resuming(now[i := Resumed(now[i])], i + 1, k, traps)
  {
  }

  lemma {:induction false} StoppedStops(e: Environment, w: World, next: nat, i: nat)
    requires AllStoppedAt(w.tiles, next, |w.tiles|) && i <= |w.tiles|
    ensures ReadStops(e, w, i).0 && AllStoppedAt(ReadStops(e, w, i).1.tiles, next, |w.tiles|)
    decreases |w.tiles| - i
  {
    if i < |w.tiles| {
      AfterAllEvolves(w.tiles, e.oracle(w.accesses), e.traps);
      StoppedStops(e, e.Elapsed(w), next, i + 1);
    }
  }

  /** Tiles that are all stopped at the next trap, and show it, are serviced by the next poll. */
  lemma ReadyIsServiced(e: Environment, w: World, next: nat, waiting: bool, count: nat, agrees: nat -> bool)
    requires w.tiles != [] && AllStoppedAt(w.tiles, next, |w.tiles|) && (waiting ==> next > 0)
    requires next < count && agrees(next)
    ensures Poll(e, w, next, waiting, count, agrees).outcome == Serviced
  {
    hide ReadStops, ReadBreaks, ResumedFrom;
    var first := e.Elapsed(w);
    AfterAllEvolves(w.tiles, e.oracle(w.accesses), e.traps);
    var second := e.Elapsed(first);
    AfterAllEvolves(first.tiles, e.oracle(first.accesses), e.traps);
    var now := if waiting then second else first;
    StoppedStops(e, now, next, 0);
    StoppedBreaks(e, ReadStops(e, now, 0).1, next, 0);
  }

  /** What is known of every poll of a device in step. */
  lemma PollEnds(e: Environment, w: World, next: nat, waiting: bool, count: nat, agrees: nat -> bool)
    requires (waiting ==> next > 0) && (!waiting && w.tiles != [] ==> Fresh(w.tiles[0]))
    ensures w.tiles != [] && AllStoppedAt(w.tiles, next, |w.tiles|) && next < count && agrees(next) ==>
              Poll(e, w, next, waiting, count, agrees).outcome == Serviced
    ensures FaultFree(e.oracle) && Healthy(w.tiles, next, e.traps) && FreshFrom(w.tiles, 1) ==>
              !Poll(e, w, next, waiting, count, agrees).outcome.Mismatch?
  {
    hide Poll, AllStoppedAt, FaultFree, Healthy, FreshFrom;
    if FaultFree(e.oracle) && Healthy(w.tiles, next, e.traps) && FreshFrom(w.tiles, 1) {
      FreshNeverMismatches(e, w, next, waiting, count, agrees);
    }
    if w.tiles != [] && AllStoppedAt(w.tiles, next, |w.tiles|) && next < count && agrees(next) {
      ReadyIsServiced(e, w, next, waiting, count, agrees);
    }
  }

  // ---------------------------------------------------------------------------
  // A run that fails without a fault
  // ---------------------------------------------------------------------------

  /** Both tiles reach trap 0 before the first access. After the seven accesses of the first
      poll only the first of them goes on to trap 1. */
  function StaleRun(access: nat): seq<Step> {
    if access == 0 then [Trap(0), Show(0), Trap(1), Show(1)]
    else if access == 7 then [Trap(0), Show(0)]
    else []
  }

  const RUN := Environment(2, StaleRun)

  /** Two tiles in the same state. */
  function Both(t: Tile): seq<Tile> {
    [t, t]
  }

  lemma AfterOne(tiles: seq<Tile>, a: Step, b: Step, traps: nat)
    ensures AfterAll(tiles, [], traps) == tiles
    ensures AfterAll(tiles, [a, b], traps) == After(After(tiles, a, traps), b, traps)
  {
    AfterTwo(tiles, [], a, b, traps);
    assert [] + [a, b] == [a, b];
  }

  lemma FirstSteps()
    ensures RUN.Elapsed(World(Both(Tile(0, Running, Nothing)), 0)) == World(Both(Tile(0, Trapped, Break(0))), 1)
  {
    hide AfterAll;
    var start := Both(Tile(0, Running, Nothing));
    AfterTwo(start, [Trap(0), Show(0)], Trap(1), Show(1), 2);
    AfterOne(start, Trap(0), Show(0), 2);
    assert [Trap(0), Show(0)] + [Trap(1), Show(1)] == StaleRun(0);
  }

  lemma SecondSteps()
    ensures RUN.Elapsed(World(Both(Tile(1, Running, Break(0))), 7)) ==
            World([Tile(1, Trapped, Break(1)), Tile(1, Running, Break(0))], 8)
  {
    AfterOne(Both(Tile(1, Running, Break(0))), Trap(0), Show(0), 2);
  }

  lemma FirstPoll(agrees: nat -> bool)
    requires agrees(0)
    ensures Poll(RUN, World(Both(Tile(0, Running, Nothing)), 0), 0, false, 2, agrees) ==
            Polled(Serviced, World(Both(Tile(1, Running, Break(0))), 7), true)
  {
    hide AfterAll, ReadStops, ReadBreaks;
    var stopped := Both(Tile(0, Trapped, Break(0)));
    FirstSteps();
    QuietStops(RUN, World(stopped, 1), 0);
    QuietBreaksAll(RUN, World(stopped, 3), 0, 0);
    AfterOne(stopped, Trap(0), Trap(0), 2);
    var one := World([Tile(1, Running, Break(0)), Tile(0, Trapped, Break(0))], 6);
    AfterOne(one.tiles, Trap(0), Trap(0), 2);
    assert RUN.ResumedTile(World(stopped, 5), 0) == one;
    assert RUN.ResumedTile(one, 1) == World(Both(Tile(1, Running, Break(0))), 7);
  }

  lemma SecondPoll(agrees: nat -> bool)
    ensures Poll(RUN, World(Both(Tile(1, Running, Break(0))), 7), 1, true, 2, agrees) ==
            Polled(Mismatch(1), World([Tile(1, Trapped, Break(1)), Tile(1, Running, Break(0))], 13), false)
  {
    hide AfterAll, ReadStops;
    var tiles := [Tile(1, Trapped, Break(1)), Tile(1, Running, Break(0))];
    SecondSteps();
    AfterOne(tiles, Trap(0), Trap(0), 2);
    QuietStops(RUN, World(tiles, 9), 0);
    assert RUN.Elapsed(World(tiles, 12)) == World(tiles, 13);
    assert ReadBreaks(RUN, World(tiles, 12), 1, 1) == (1, World(tiles, 13));
  }

  /** From the start of a run: the first poll services checkpoint 0 on both tiles; the second
      finds the first tile at checkpoint 1 and the second tile still showing checkpoint 0, and
      fails, though no tile has. */
  method StaleSecondTileFails() returns (host: Host, first: Outcome, second: Outcome)
    ensures fresh(host) && fresh(host.device) && FaultFree(host.device.oracle)
    ensures host.breakpoints == [0, 1] && host.device.traps == 2 && |host.device.tiles| == 2
    ensures first == Serviced && second == Mismatch(1)
    ensures forall i :: 0 <= i < 2 ==> !host.device.tiles[i].activity.Faulted?
  {
    hide Poll;
    var device := new Device(2, 2, StaleRun);
    host := new Host(device, [0, 1], _ => true);
    assert device.tiles == Both(Tile(0, Running, Nothing));
    FirstPoll(host.agrees);
    first := host.ServiceCheckpoint();
    SecondPoll(host.agrees);
    second := host.ServiceCheckpoint();
  }
}
