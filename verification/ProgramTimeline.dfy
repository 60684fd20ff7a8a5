/** The cycle estimate of a whole program (crates/ipu-codegen/src/estimate/program.rs).

    A program is a nested sequence of tile-local work, global exchange barriers and
    counted repeats. `Exec` runs it, unrolled, on one clock per tile. `Timeline`
    folds it into three per-tile or global totals without unrolling, in saturating
    arithmetic. The module proves that the fold reports exactly the finishing time
    and exchange time of the unrolled run, clamped to 64 bits. */
module ProgramTimeline {
  import opened Saturating

  datatype Option<T> = None | Some(value: T)

  /** Compute and copy steps differ only in where their price comes from. */
  datatype Operation =
    | Local(tile: nat, cycles: nat)
    | Exchange(phase: nat)
    | Repeat(body: seq<Operation>, count: nat)
    | Checkpoint

  datatype ProgramCycles = ProgramCycles(total: nat, exchange: nat)

  /** Tiles and phases that the operations name exist; prices are 64-bit and counts 32-bit. */
  ghost predicate WellFormed(ops: seq<Operation>, tiles: nat, phases: seq<nat>)
    decreases ops, 0
  {
    forall op | op in ops :: WellFormedOperation(op, tiles, phases)
  }

  ghost predicate WellFormedOperation(op: Operation, tiles: nat, phases: seq<nat>)
    decreases op, 1
  {
    match op
    case Local(tile, cycles) => tile < tiles && cycles <= U64_MAX
    case Exchange(phase) => phase < |phases| && phases[phase] <= U64_MAX
    case Repeat(body, count) => count < 0x1_0000_0000 && WellFormed(body, tiles, phases)
    case Checkpoint => true
  }

  // ---------------------------------------------------------------------------
  // The unrolled program on per-tile clocks
  // ---------------------------------------------------------------------------

  /** One clock per tile, the time of the last barrier, and the exchange time spent. */
  datatype Run = Run(clocks: seq<nat>, fence: nat, exchange: nat) {
    /** The time at which everything started so far has finished. */
    ghost function Latest(): nat {
      Max2(Maximum(clocks), fence)
    }

    /** The run after work of its own on one tile. */
    ghost function Work(tile: nat, cycles: nat): Run
      requires tile < |clocks|
    {
      this.(clocks := clocks[tile := clocks[tile] + cycles])
    }

    /** The run after work of its own on every tile. */
    ghost function WorkAll(cycles: seq<nat>): (r: Run)
      requires |cycles| == |clocks|
      ensures |r.clocks| == |clocks|
    {
      this.(clocks := Plus(clocks, cycles))
    }

    /** The run after every tile has waited for the latest and moved data together. */
    ghost function Barrier(cycles: nat, moved: nat): Run {
      var time := Latest() + cycles;
      Run(Constant(|clocks|, time), time, exchange + moved)
    }
  }

  ghost function Constant(n: nat, value: nat): (r: seq<nat>)
    ensures |r| == n && forall i :: 0 <= i < n ==> r[i] == value
  {
    seq(n, _ => value)
  }

  ghost function Plus(a: seq<nat>, b: seq<nat>): (r: seq<nat>)
    requires |a| == |b|
    ensures |r| == |a| && forall i :: 0 <= i < |a| ==> r[i] == a[i] + b[i]
  {
    seq(|a|, i requires 0 <= i < |a| => a[i] + b[i])
  }

  ghost function Times(a: seq<nat>, n: nat): (r: seq<nat>)
    ensures |r| == |a| && forall i :: 0 <= i < |a| ==> r[i] == a[i] * n
  {
    seq(|a|, i requires 0 <= i < |a| => a[i] * n)
  }

  ghost function Start(tiles: nat): Run {
    Run(Constant(tiles, 0), 0, 0)
  }

  ghost function Exec(ops: seq<Operation>, phases: seq<nat>, s: Run): (r: Run)
    requires WellFormed(ops, |s.clocks|, phases)
    ensures |r.clocks| == |s.clocks|
    decreases ops, 0
  {
    if ops == [] then s
    else Step(ops[|ops| - 1], phases, Exec(ops[..|ops| - 1], phases, s))
  }

  ghost function Step(op: Operation, phases: seq<nat>, s: Run): (r: Run)
    requires WellFormedOperation(op, |s.clocks|, phases)
    ensures |r.clocks| == |s.clocks|
    decreases op, 1
  {
    match op
    case Local(tile, cycles) => s.Work(tile, cycles)
    case Exchange(phase) => s.Barrier(phases[phase], phases[phase])
    case Repeat(body, count) => ExecTimes(body, count, phases, s)
    case Checkpoint => s
  }

  ghost function ExecTimes(body: seq<Operation>, count: nat, phases: seq<nat>, s: Run): (r: Run)
    requires WellFormed(body, |s.clocks|, phases)
    ensures |r.clocks| == |s.clocks|
    decreases body, 1, count
  {
    if count == 0 then s
    else Exec(body, phases, ExecTimes(body, count - 1, phases, s))
  }

  // ---------------------------------------------------------------------------
  // What a program asks for, counted on its operations
  // ---------------------------------------------------------------------------

  /** The cycles of tile `t`'s own operations, each as often as the repeats around it say. */
  ghost function OwnCycles(ops: seq<Operation>, t: nat): nat
    decreases ops, 0
  {
    if ops == [] then 0 else OwnCycles(ops[..|ops| - 1], t) + OwnOf(ops[|ops| - 1], t)
  }

  ghost function OwnOf(op: Operation, t: nat): nat
    decreases op, 1
  {
    match op
    case Local(tile, cycles) => if tile == t then cycles else 0
    case Exchange(_) => 0
    case Repeat(body, count) => count * OwnCycles(body, t)
    case Checkpoint => 0
  }

  /** How often the program exchanges phase `p`. */
  ghost function Occurrences(ops: seq<Operation>, p: nat): nat
    decreases ops, 0
  {
    if ops == [] then 0 else Occurrences(ops[..|ops| - 1], p) + OccurrencesOf(ops[|ops| - 1], p)
  }

  ghost function OccurrencesOf(op: Operation, p: nat): nat
    decreases op, 1
  {
    match op
    case Local(_, _) => 0
    case Exchange(phase) => if phase == p then 1 else 0
    case Repeat(body, count) => count * Occurrences(body, p)
    case Checkpoint => 0
  }

  /** The time of the first `n` phases, as often as they occur. */
  ghost function ExchangeTime(ops: seq<Operation>, phases: seq<nat>, n: nat): nat
    requires n <= |phases|
  {
    if n == 0 then 0 else ExchangeTime(ops, phases, n - 1) + phases[n - 1] * Occurrences(ops, n - 1)
  }

  /** The exchange time of a run is what the occurrences of its phases add up to. */
  lemma {:induction false} ExchangeAdds(ops: seq<Operation>, phases: seq<nat>, s: Run)
    requires WellFormed(ops, |s.clocks|, phases)
    ensures Exec(ops, phases, s).exchange == s.exchange + ExchangeTime(ops, phases, |phases|)
    decreases ops, 0
  {
    if ops == [] {
      NothingExchanged(phases, |phases|);
    } else {
      var before, op := ops[..|ops| - 1], ops[|ops| - 1];
      assert WellFormedOperation(op, |s.clocks|, phases);
      ExchangeAdds(before, phases, s);
      StepExchanges(op, phases, Exec(before, phases, s));
      TimeAdds(ops, phases, |phases|);
    }
  }

  ghost function TimeOf(op: Operation, phases: seq<nat>, n: nat): nat
    requires n <= |phases|
  {
    if n == 0 then 0 else TimeOf(op, phases, n - 1) + phases[n - 1] * OccurrencesOf(op, n - 1)
  }

  lemma {:induction false} NothingExchanged(phases: seq<nat>, n: nat)
    requires n <= |phases|
    ensures ExchangeTime([], phases, n) == 0
  {
    if n > 0 {
      NothingExchanged(phases, n - 1);
    }
  }

  lemma {:induction false} TimeAdds(ops: seq<Operation>, phases: seq<nat>, n: nat)
    requires ops != [] && n <= |phases|
    ensures ExchangeTime(ops, phases, n) == ExchangeTime(ops[..|ops| - 1], phases, n) + TimeOf(ops[|ops| - 1], phases, n)
  {
    hide Occurrences, OccurrencesOf;
    if n > 0 {
      TimeAdds(ops, phases, n - 1);
      LastOccurrences(ops, n - 1);
      Distributes(phases[n - 1], Occurrences(ops[..|ops| - 1], n - 1), OccurrencesOf(ops[|ops| - 1], n - 1));
    }
  }

  lemma LastOccurrences(ops: seq<Operation>, p: nat)
    requires ops != []
    ensures Occurrences(ops, p) == Occurrences(ops[..|ops| - 1], p) + OccurrencesOf(ops[|ops| - 1], p)
  {
  }

  lemma Distributes(a: nat, b: nat, c: nat)
    ensures a * (b + c) == a * b + a * c
  {
  }

  lemma {:induction false} StepExchanges(op: Operation, phases: seq<nat>, s: Run)
    requires WellFormedOperation(op, |s.clocks|, phases)
    ensures Step(op, phases, s).exchange == s.exchange + TimeOf(op, phases, |phases|)
    decreases op, 1
  {
    match op
    case Exchange(phase) => OnePhase(op, phases, |phases|);
    case Repeat(body, count) =>
      TimesExchange(body, count, phases, s);
      RepeatTime(op, phases, |phases|);
    case _ => NoPhase(op, phases, |phases|);
  }

  lemma {:induction false} OnePhase(op: Operation, phases: seq<nat>, n: nat)
    requires op.Exchange? && n <= |phases|
    ensures TimeOf(op, phases, n) == if op.phase < n then phases[op.phase] else 0
  {
    if n > 0 {
      OnePhase(op, phases, n - 1);
    }
  }

  lemma {:induction false} NoPhase(op: Operation, phases: seq<nat>, n: nat)
    requires (op.Local? || op.Checkpoint?) && n <= |phases|
    ensures TimeOf(op, phases, n) == 0
  {
    if n > 0 {
      NoPhase(op, phases, n - 1);
    }
  }

  lemma {:induction false} RepeatTime(op: Operation, phases: seq<nat>, n: nat)
    requires op.Repeat? && n <= |phases|
    ensures TimeOf(op, phases, n) == op.count * ExchangeTime(op.body, phases, n)
  {
    hide Occurrences;
    if n > 0 {
      RepeatTime(op, phases, n - 1);
      var phase, each := phases[n - 1], Occurrences(op.body, n - 1);
      assert phase * (op.count * each) == op.count * (phase * each);
      Distributes(op.count, ExchangeTime(op.body, phases, n - 1), phase * each);
    }
  }

  lemma {:induction false} TimesExchange(body: seq<Operation>, count: nat, phases: seq<nat>, s: Run)
    requires WellFormed(body, |s.clocks|, phases)
    ensures ExecTimes(body, count, phases, s).exchange == s.exchange + count * ExchangeTime(body, phases, |phases|)
    decreases body, 1, count
  {
    hide ExchangeTime;
    if count > 0 {
      TimesExchange(body, count - 1, phases, s);
      ExchangeAdds(body, phases, ExecTimes(body, count - 1, phases, s));
      var each := ExchangeTime(body, phases, |phases|);
      assert count * each == (count - 1) * each + each;
    }
  }

  /** Nothing that the program reaches is an exchange. */
  ghost predicate NoExchange(ops: seq<Operation>) {
    forall p: nat :: Occurrences(ops, p) == 0
  }

  /** Without exchanges every tile's clock advances by the cycles of its own operations. */
  lemma {:induction false} OwnAdds(ops: seq<Operation>, phases: seq<nat>, s: Run, t: nat)
    requires WellFormed(ops, |s.clocks|, phases) && NoExchange(ops) && t < |s.clocks|
    ensures Exec(ops, phases, s).clocks[t] == s.clocks[t] + OwnCycles(ops, t)
    ensures Exec(ops, phases, s).fence == s.fence
    decreases ops, 0
  {
    if ops != [] {
      var before, op := ops[..|ops| - 1], ops[|ops| - 1];
      assert WellFormedOperation(op, |s.clocks|, phases);
      forall p: nat
        ensures Occurrences(before, p) == 0 && OccurrencesOf(op, p) == 0
      {
        LastOccurrences(ops, p);
      }
      OwnAdds(before, phases, s, t);
      StepOwn(op, phases, Exec(before, phases, s), t);
    }
  }

  lemma {:induction false} StepOwn(op: Operation, phases: seq<nat>, s: Run, t: nat)
    requires WellFormedOperation(op, |s.clocks|, phases) && t < |s.clocks|
    requires forall p: nat :: OccurrencesOf(op, p) == 0
    ensures Step(op, phases, s).clocks[t] == s.clocks[t] + OwnOf(op, t) && Step(op, phases, s).fence == s.fence
    decreases op, 1
  {
    match op
    case Exchange(phase) => assert OccurrencesOf(op, phase) == 1;
    case Repeat(body, count) =>
      if count > 0 {
        forall p: nat
          ensures Occurrences(body, p) == 0
        {
          assert OccurrencesOf(op, p) == 0;
          NoneOfMany(count, Occurrences(body, p));
        }
        TimesOwn(body, count, phases, s, t);
      }
    case _ =>
  }

  lemma NoneOfMany(count: nat, each: nat)
    requires count > 0 && count * each == 0
    ensures each == 0
  {
  }

  lemma {:induction false} TimesOwn(body: seq<Operation>, count: nat, phases: seq<nat>, s: Run, t: nat)
    requires WellFormed(body, |s.clocks|, phases) && NoExchange(body) && t < |s.clocks|
    ensures ExecTimes(body, count, phases, s).clocks[t] == s.clocks[t] + count * OwnCycles(body, t)
    ensures ExecTimes(body, count, phases, s).fence == s.fence
    decreases body, 1, count
  {
    hide OwnCycles, NoExchange;
    if count > 0 {
      TimesOwn(body, count - 1, phases, s, t);
      OwnAdds(body, phases, ExecTimes(body, count - 1, phases, s), t);
      var each := OwnCycles(body, t);
      assert count * each == (count - 1) * each + each;
    }
  }

  // ---------------------------------------------------------------------------
  // When a program finishes
  // ---------------------------------------------------------------------------

  /** The tile-local work and the exchanges that a program reaches, in order. */
  ghost function Unrolled(ops: seq<Operation>): seq<Operation>
    decreases ops, 0
  {
    if ops == [] then [] else Unrolled(ops[..|ops| - 1]) + UnrolledOne(ops[|ops| - 1])
  }

  ghost function UnrolledOne(op: Operation): seq<Operation>
    decreases op, 1
  {
    match op
    case Local(_, _) => [op]
    case Exchange(_) => [op]
    case Repeat(body, count) => Copies(Unrolled(body), count)
    case Checkpoint => []
  }

  ghost function Copies(ops: seq<Operation>, n: nat): seq<Operation> {
    if n == 0 then [] else Copies(ops, n - 1) + ops
  }

  ghost predicate IsFlat(ops: seq<Operation>) {
    forall op | op in ops :: op.Local? || op.Exchange?
  }

  /** Behind this position there is no exchange, and it holds the last one; -1 if there is none. */
  ghost function LastExchange(ops: seq<Operation>): (k: int)
    ensures -1 <= k < |ops| && (k >= 0 ==> ops[k].Exchange?) && forall j :: k < j < |ops| ==> !ops[j].Exchange?
  {
    if ops == [] then -1 else if ops[|ops| - 1].Exchange? then |ops| - 1 else LastExchange(ops[..|ops| - 1])
  }

  /** The longest that any tile takes for its own operations. */
  ghost function Slowest(ops: seq<Operation>, tiles: nat): nat {
    Maximum(seq(tiles, t requires 0 <= t < tiles => OwnCycles(ops, t)))
  }

  /** Every exchange waits for the slowest tile since the one before it. */
  ghost function FinishTime(ops: seq<Operation>, tiles: nat, phases: seq<nat>): nat
    requires WellFormed(ops, tiles, phases)
    decreases |ops|
  {
    var k := LastExchange(ops);
    if k < 0 then Slowest(ops, tiles)
    else
      assert WellFormedOperation(ops[k], tiles, phases);
      FinishTime(ops[..k], tiles, phases) + phases[ops[k].phase] + Slowest(ops[k + 1..], tiles)
  }

  lemma {:induction false} ExecJoin(a: seq<Operation>, b: seq<Operation>, phases: seq<nat>, s: Run)
    requires WellFormed(a, |s.clocks|, phases) && WellFormed(b, |s.clocks|, phases)
    ensures WellFormed(a + b, |s.clocks|, phases) && Exec(a + b, phases, s) == Exec(b, phases, Exec(a, phases, s))
  {
    hide Step, WellFormedOperation;
    if b == [] {
      assert a + b == a;
    } else {
      var last := |b| - 1;
      ExecJoin(a, b[..last], phases, s);
      assert (a + b)[..|a + b| - 1] == a + b[..last] && (a + b)[|a + b| - 1] == b[last];
    }
  }

  /** Unrolling changes nothing of a run. */
  lemma {:induction false} UnrolledRuns(ops: seq<Operation>, phases: seq<nat>, s: Run)
    requires WellFormed(ops, |s.clocks|, phases)
    ensures IsFlat(Unrolled(ops)) && WellFormed(Unrolled(ops), |s.clocks|, phases)
    ensures Exec(Unrolled(ops), phases, s) == Exec(ops, phases, s)
    decreases ops, 0
  {
    if ops != [] {
      var before, op := ops[..|ops| - 1], ops[|ops| - 1];
      assert WellFormedOperation(op, |s.clocks|, phases);
      UnrolledRuns(before, phases, s);
      OneUnrolledRuns(op, phases, Exec(before, phases, s));
      ExecJoin(Unrolled(before), UnrolledOne(op), phases, s);
    }
  }

  lemma {:induction false} OneUnrolledRuns(op: Operation, phases: seq<nat>, s: Run)
    requires WellFormedOperation(op, |s.clocks|, phases)
    ensures IsFlat(UnrolledOne(op)) && WellFormed(UnrolledOne(op), |s.clocks|, phases)
    ensures Exec(UnrolledOne(op), phases, s) == Step(op, phases, s)
    decreases op, 1
  {
    match op
    case Repeat(body, count) => CopiesRun(body, count, phases, s);
    case Checkpoint =>
    case _ => assert [op][..0] == [];
  }

  lemma {:induction false} CopiesRun(body: seq<Operation>, count: nat, phases: seq<nat>, s: Run)
    requires WellFormed(body, |s.clocks|, phases)
    ensures var copies := Copies(Unrolled(body), count);
      IsFlat(copies) && WellFormed(copies, |s.clocks|, phases) && Exec(copies, phases, s) == ExecTimes(body, count, phases, s)
    decreases body, 1, count
  {
    hide Unrolled;
    if count > 0 {
      CopiesRun(body, count - 1, phases, s);
      UnrolledRuns(body, phases, ExecTimes(body, count - 1, phases, s));
      ExecJoin(Copies(Unrolled(body), count - 1), Unrolled(body), phases, s);
    }
  }

  lemma {:induction false} LocalsOnly(ops: seq<Operation>, p: nat)
    requires forall j :: 0 <= j < |ops| ==> ops[j].Local?
    ensures Occurrences(ops, p) == 0
  {
    if ops != [] {
      LocalsOnly(ops[..|ops| - 1], p);
    }
  }

  /** Where tile clocks agree, local work finishes with the slowest tile. */
  lemma SlowestIsLatest(ops: seq<Operation>, phases: seq<nat>, s: Run, time: nat)
    requires WellFormed(ops, |s.clocks|, phases) && forall j :: 0 <= j < |ops| ==> ops[j].Local?
    requires s.clocks == Constant(|s.clocks|, time) && s.fence == time
    ensures Exec(ops, phases, s).Latest() == time + Slowest(ops, |s.clocks|)
  {
    hide OwnCycles, Occurrences;
    var tiles, end := |s.clocks|, Exec(ops, phases, s);
    var own := seq(tiles, t requires 0 <= t < tiles => OwnCycles(ops, t));
    forall p: nat
      ensures Occurrences(ops, p) == 0
    {
      LocalsOnly(ops, p);
    }
    forall t | 0 <= t < tiles
      ensures end.clocks[t] == own[t] + time && end.fence == time
    {
      OwnAdds(ops, phases, s, t);
    }
    if tiles == 0 {
      FenceStays(ops, phases, s);
    }
    ShiftedLatest(own, end.clocks, time);
  }

  lemma {:induction false} FenceStays(ops: seq<Operation>, phases: seq<nat>, s: Run)
    requires WellFormed(ops, |s.clocks|, phases) && forall j :: 0 <= j < |ops| ==> ops[j].Local?
    ensures Exec(ops, phases, s).fence == s.fence
  {
    if ops != [] {
      FenceStays(ops[..|ops| - 1], phases, s);
    }
  }

  lemma ExecLast(ops: seq<Operation>, op: Operation, phases: seq<nat>, s: Run)
    requires WellFormed(ops, |s.clocks|, phases) && WellFormedOperation(op, |s.clocks|, phases)
    ensures WellFormed(ops + [op], |s.clocks|, phases) && Exec(ops + [op], phases, s) == Step(op, phases, Exec(ops, phases, s))
  {
    assert (ops + [op])[..|ops|] == ops;
  }

  lemma {:induction false} FinishIs(ops: seq<Operation>, tiles: nat, phases: seq<nat>)
    requires WellFormed(ops, tiles, phases) && IsFlat(ops)
    ensures Exec(ops, phases, Start(tiles)).Latest() == FinishTime(ops, tiles, phases)
    decreases |ops|
  {
    hide Slowest, Exec, Run.Latest;
    var k := LastExchange(ops);
    if k < 0 {
      assert Exec(ops, phases, Start(tiles)) == Exec(ops, phases, Start(tiles));
      SlowestIsLatest(ops, phases, Start(tiles), 0);
    } else {
      var before, op, rest := ops[..k], ops[k], ops[k + 1..];
      FinishIs(before, tiles, phases);
      assert WellFormedOperation(op, tiles, phases);
      assert ops == (before + [op]) + rest;
      ExecLast(before, op, phases, Start(tiles));
      ExecJoin(before + [op], rest, phases, Start(tiles));
      var s := Exec(before, phases, Start(tiles));
      SlowestIsLatest(rest, phases, s.Barrier(phases[op.phase], phases[op.phase]), s.Latest() + phases[op.phase]);
    }
  }

  // ---------------------------------------------------------------------------
  // Tiles are alike
  // ---------------------------------------------------------------------------

  /** `names` gives every tile another's place, and `back` undoes it. */
  ghost predicate IsRenaming(names: seq<nat>, back: seq<nat>) {
    && |names| == |back|
    && (forall t :: 0 <= t < |names| ==> names[t] < |names| && back[names[t]] == t)
    && forall t :: 0 <= t < |back| ==> back[t] < |back| && names[back[t]] == t
  }

  ghost function Renamed(ops: seq<Operation>, names: seq<nat>): seq<Operation>
    decreases ops, 0
  {
    if ops == [] then [] else Renamed(ops[..|ops| - 1], names) + [RenamedOne(ops[|ops| - 1], names)]
  }

  ghost function RenamedOne(op: Operation, names: seq<nat>): Operation
    decreases op, 1
  {
    match op
    case Local(tile, cycles) => if tile < |names| then Local(names[tile], cycles) else op
    case Repeat(body, count) => Repeat(Renamed(body, names), count)
    case _ => op
  }

  /** Run `b` is run `a` with its tiles renamed. */
  ghost predicate Mirrors(a: Run, b: Run, names: seq<nat>) {
    && |a.clocks| == |b.clocks| == |names| && a.fence == b.fence && a.exchange == b.exchange
    && forall t :: 0 <= t < |names| ==> names[t] < |names| && b.clocks[names[t]] == a.clocks[t]
  }

  lemma MirrorsLatest(a: Run, b: Run, names: seq<nat>, back: seq<nat>)
    requires Mirrors(a, b, names) && IsRenaming(names, back)
    ensures a.Latest() == b.Latest()
  {
    MaximumBounds(a.clocks);
    MaximumBounds(b.clocks);
    forall u | 0 <= u < |names|
      ensures b.clocks[u] == a.clocks[back[u]]
    {
    }
    assert forall t :: 0 <= t < |names| ==> a.clocks[t] == b.clocks[names[t]];
  }

  /** Renaming the tiles of a program renames the clocks of its run, and nothing else. */
  lemma {:induction false} RenamingMirrors(ops: seq<Operation>, phases: seq<nat>, a: Run, b: Run, names: seq<nat>, back: seq<nat>)
    requires WellFormed(ops, |names|, phases) && IsRenaming(names, back) && Mirrors(a, b, names)
    ensures WellFormed(Renamed(ops, names), |names|, phases)
    ensures Mirrors(Exec(ops, phases, a), Exec(Renamed(ops, names), phases, b), names)
    decreases ops, 0
  {
    if ops != [] {
      var before, op := ops[..|ops| - 1], ops[|ops| - 1];
      assert WellFormedOperation(op, |names|, phases);
      RenamingMirrors(before, phases, a, b, names, back);
      StepMirrors(op, phases, Exec(before, phases, a), Exec(Renamed(before, names), phases, b), names, back);
      ExecLast(Renamed(before, names), RenamedOne(op, names), phases, b);
    }
  }

  lemma {:induction false} StepMirrors(op: Operation, phases: seq<nat>, a: Run, b: Run, names: seq<nat>, back: seq<nat>)
    requires WellFormedOperation(op, |names|, phases) && IsRenaming(names, back) && Mirrors(a, b, names)
    ensures WellFormedOperation(RenamedOne(op, names), |names|, phases)
    ensures Mirrors(Step(op, phases, a), Step(RenamedOne(op, names), phases, b), names)
    decreases op, 1
  {
    match op
    case Local(tile, cycles) =>
    case Exchange(phase) => MirrorsLatest(a, b, names, back);
    case Repeat(body, count) => TimesMirror(body, count, phases, a, b, names, back);
    case Checkpoint =>
  }

  lemma {:induction false} TimesMirror(body: seq<Operation>, count: nat, phases: seq<nat>, a: Run, b: Run, names: seq<nat>, back: seq<nat>)
    requires WellFormed(body, |names|, phases) && IsRenaming(names, back) && Mirrors(a, b, names)
    ensures WellFormed(Renamed(body, names), |names|, phases)
    ensures Mirrors(ExecTimes(body, count, phases, a), ExecTimes(Renamed(body, names), count, phases, b), names)
    decreases body, 1, count
  {
    hide Mirrors, IsRenaming, Renamed;
    RenamingMirrors(body, phases, a, b, names, back);
    SameTiles(a, b, names);
    if count > 0 {
      TimesMirror(body, count - 1, phases, a, b, names, back);
      RenamingMirrors(body, phases, ExecTimes(body, count - 1, phases, a), ExecTimes(Renamed(body, names), count - 1, phases, b), names, back);
    }
  }

  lemma SameTiles(a: Run, b: Run, names: seq<nat>)
    requires Mirrors(a, b, names)
    ensures |a.clocks| == |b.clocks| == |names|
  {
  }

  // ---------------------------------------------------------------------------
  // Three laws of runs
  // ---------------------------------------------------------------------------

  lemma WorkTwice(s: Run, a: seq<nat>, b: seq<nat>)
    requires |a| == |b| == |s.clocks|
    ensures s.WorkAll(a).WorkAll(b) == s.WorkAll(Plus(a, b))
  {
    assert Plus(Plus(s.clocks, a), b) == Plus(s.clocks, Plus(a, b));
  }

  lemma WorkOnOne(s: Run, a: seq<nat>, tile: nat, cycles: nat)
    requires |a| == |s.clocks| && tile < |a|
    ensures s.WorkAll(a).Work(tile, cycles) == s.WorkAll(a[tile := a[tile] + cycles])
  {
    assert Plus(s.clocks, a[tile := a[tile] + cycles])
        == Plus(s.clocks, a)[tile := Plus(s.clocks, a)[tile] + cycles];
  }

  /** After a barrier all clocks agree, so the latest one is known from the work since. */
  lemma LatestAfterBarrier(s: Run, cycles: nat, moved: nat, work: seq<nat>)
    requires |work| == |s.clocks|
    ensures s.Barrier(cycles, moved).WorkAll(work).Latest() == s.Latest() + cycles + Maximum(work)
  {
    var time := s.Latest() + cycles;
    ShiftedLatest(work, Plus(Constant(|work|, time), work), time);
  }

  lemma ShiftedLatest(values: seq<nat>, shifted: seq<nat>, amount: nat)
    requires |shifted| == |values|
    requires forall i :: 0 <= i < |values| ==> shifted[i] == values[i] + amount
    ensures Max2(Maximum(shifted), amount) == amount + Maximum(values)
  {
    if values != [] {
      MaximumOfShifted(values, shifted, amount);
    }
  }

  lemma BarrierTwice(s: Run, a: nat, x: nat, work: seq<nat>, b: nat, y: nat)
    requires |work| == |s.clocks|
    ensures s.Barrier(a, x).WorkAll(work).Barrier(b, y) == s.Barrier(a + Maximum(work) + b, x + y)
  {
    LatestAfterBarrier(s, a, x, work);
  }

  // ---------------------------------------------------------------------------
  // Shapes: folded timelines in unbounded arithmetic, and what they mean
  // ---------------------------------------------------------------------------

  /** Prefix and tail are tile-local; the middle spans the first to the last barrier. */
  datatype Shape = Shape(prefix: seq<nat>, middle: Option<nat>, tail: seq<nat>, exchange: nat) {
    ghost predicate Valid() {
      && |prefix| == |tail|
      && (middle.None? ==> tail == Constant(|tail|, 0) && exchange == 0)
    }

    /** The effect of the folded work on a running program. */
    ghost function Apply(s: Run): (r: Run)
      requires Valid() && |s.clocks| == |prefix|
      ensures |r.clocks| == |s.clocks|
    {
      if middle.None? then s.WorkAll(prefix)
      else s.WorkAll(prefix).Barrier(middle.value, exchange).WorkAll(tail)
    }

    ghost function AddLocal(tile: nat, cycles: nat): Shape
      requires Valid() && tile < |prefix|
    {
      if middle.Some? then this.(tail := tail[tile := tail[tile] + cycles])
      else this.(prefix := prefix[tile := prefix[tile] + cycles])
    }

    ghost function AddLocals(cycles: seq<nat>): Shape
      requires Valid() && |cycles| == |prefix|
    {
      if middle.Some? then this.(tail := Plus(tail, cycles)) else this.(prefix := Plus(prefix, cycles))
    }

    ghost function AddBarrier(cycles: nat, moved: nat): Shape
      requires Valid()
    {
      var start := if middle.Some? then middle.value + Maximum(tail) else 0;
      Shape(prefix, Some(start + cycles), Constant(|tail|, 0), exchange + moved)
    }
  }

  /** A shape stands for a program when both move every possible run alike. */
  ghost predicate StandsFor(shape: Shape, ops: seq<Operation>, phases: seq<nat>)
  {
    && shape.Valid()
    && WellFormed(ops, |shape.prefix|, phases)
    && forall s: Run {:trigger shape.Apply(s)} | |s.clocks| == |shape.prefix| :: shape.Apply(s) == Exec(ops, phases, s)
  }

  lemma LocalMeans(shape: Shape, tile: nat, cycles: nat, s: Run)
    requires shape.Valid() && tile < |shape.prefix| == |s.clocks|
    ensures shape.AddLocal(tile, cycles).Valid()
    ensures shape.AddLocal(tile, cycles).Apply(s) == shape.Apply(s).Work(tile, cycles)
  {
    if shape.middle.Some? {
      WorkOnOne(s.WorkAll(shape.prefix).Barrier(shape.middle.value, shape.exchange), shape.tail, tile, cycles);
    } else {
      WorkOnOne(s, shape.prefix, tile, cycles);
    }
  }

  lemma LocalsMean(shape: Shape, cycles: seq<nat>, s: Run)
    requires shape.Valid() && |cycles| == |shape.prefix| == |s.clocks|
    ensures shape.AddLocals(cycles).Valid()
    ensures shape.AddLocals(cycles).Apply(s) == shape.Apply(s).WorkAll(cycles)
  {
    if shape.middle.Some? {
      WorkTwice(s.WorkAll(shape.prefix).Barrier(shape.middle.value, shape.exchange), shape.tail, cycles);
    } else {
      WorkTwice(s, shape.prefix, cycles);
    }
  }

  lemma BarrierMeans(shape: Shape, cycles: nat, moved: nat, s: Run)
    requires shape.Valid() && |shape.prefix| == |s.clocks|
    ensures shape.AddBarrier(cycles, moved).Valid()
    ensures shape.AddBarrier(cycles, moved).Apply(s) == shape.Apply(s).Barrier(cycles, moved)
  {
    var first := s.WorkAll(shape.prefix);
    var last := shape.Apply(s).Barrier(cycles, moved);
    if shape.middle.Some? {
      BarrierTwice(first, shape.middle.value, shape.exchange, shape.tail, cycles, moved);
    }
    assert last.clocks == Plus(last.clocks, Constant(|last.clocks|, 0));
  }

  /** The cycles between two barriers that meet across one repetition boundary. */
  ghost function Between(body: Shape): nat
    requires body.Valid()
  {
    Maximum(Plus(body.tail, body.prefix))
  }

  /** The one barrier that stands for all barriers of `count` repetitions. */
  ghost function Joined(body: Shape, count: nat): nat
    requires body.Valid() && body.middle.Some? && count > 0
  {
    if count == 1 then body.middle.value
    else Joined(body, count - 1) + Between(body) + body.middle.value
  }

  ghost function Moved(exchange: nat, count: nat): nat
  {
    if count == 0 then 0 else Moved(exchange, count - 1) + exchange
  }

  lemma {:induction false} MovedIs(exchange: nat, count: nat)
    ensures Moved(exchange, count) == exchange * count
  {
    if count > 0 {
      MovedIs(exchange, count - 1);
      assert exchange * count == exchange * (count - 1) + exchange;
    }
  }

  lemma {:induction false} JoinedIs(body: Shape, count: nat)
    requires body.Valid() && body.middle.Some? && count > 0
    ensures Joined(body, count) == body.middle.value + (Between(body) + body.middle.value) * (count - 1)
  {
    var period := Between(body) + body.middle.value;
    if count == 1 {
      assert period * (count - 1) == 0;
    } else {
      JoinedIs(body, count - 1);
      assert period * (count - 1) == period * (count - 2) + period;
    }
  }

  /** The repeat rule of the fold, in unbounded arithmetic. */
  ghost function Repeated(shape: Shape, body: Shape, count: nat): Shape
    requires shape.Valid() && body.Valid() && |shape.prefix| == |body.prefix|
  {
    if count == 0 then shape
    else if body.middle.Some? then
      shape.AddLocals(body.prefix)
      .AddBarrier(Joined(body, count), Moved(body.exchange, count))
      .AddLocals(body.tail)
    else shape.AddLocals(Times(body.prefix, count))
  }

  /** `count` runs of `body`, applied one after the other. */
  ghost function ApplyTimes(body: Shape, count: nat, s: Run): (r: Run)
    requires body.Valid() && |s.clocks| == |body.prefix|
    ensures |r.clocks| == |s.clocks|
  {
    if count == 0 then s else body.Apply(ApplyTimes(body, count - 1, s))
  }

  lemma {:induction false} LocalRepeats(body: Shape, count: nat, s: Run)
    requires body.Valid() && body.middle.None? && |s.clocks| == |body.prefix|
    ensures ApplyTimes(body, count, s) == s.WorkAll(Times(body.prefix, count))
  {
    if count == 0 {
      assert s.clocks == Plus(s.clocks, Times(body.prefix, 0));
    } else {
      LocalRepeats(body, count - 1, s);
      WorkTwice(s, Times(body.prefix, count - 1), body.prefix);
      forall i | 0 <= i < |s.clocks|
        ensures Plus(Times(body.prefix, count - 1), body.prefix)[i] == Times(body.prefix, count)[i]
      {
        assert body.prefix[i] * (count - 1) + body.prefix[i] == body.prefix[i] * count;
      }
      assert Plus(Times(body.prefix, count - 1), body.prefix) == Times(body.prefix, count);
    }
  }

  lemma OneMoreRepetition(body: Shape, s: Run, joined: nat, moved: nat)
    requires body.Valid() && body.middle.Some? && |s.clocks| == |body.prefix|
    ensures body.Apply(s.Barrier(joined, moved).WorkAll(body.tail))
         == s.Barrier(joined + Between(body) + body.middle.value, moved + body.exchange).WorkAll(body.tail)
  {
    var done := s.Barrier(joined, moved).WorkAll(body.tail);
    assert body.Apply(done) == done.WorkAll(body.prefix).Barrier(body.middle.value, body.exchange).WorkAll(body.tail);
    WorkTwice(s.Barrier(joined, moved), body.tail, body.prefix);
    BarrierTwice(s, joined, moved, Plus(body.tail, body.prefix), body.middle.value, body.exchange);
  }

  lemma {:induction false} BarrierRepeats(body: Shape, count: nat, s: Run)
    requires body.Valid() && body.middle.Some? && |s.clocks| == |body.prefix| && count > 0
    ensures ApplyTimes(body, count, s)
         == s.WorkAll(body.prefix).Barrier(Joined(body, count), Moved(body.exchange, count)).WorkAll(body.tail)
  {
    hide Run.Barrier, Run.WorkAll;
    if count == 1 {
      assert ApplyTimes(body, 0, s) == s;
    } else {
      BarrierRepeats(body, count - 1, s);
      OneMoreRepetition(body, s.WorkAll(body.prefix), Joined(body, count - 1), Moved(body.exchange, count - 1));
    }
  }

  /** The three parts of a repeated body, added one after the other. */
  lemma PartsMean(shape: Shape, prefix: seq<nat>, cycles: nat, moved: nat, tail: seq<nat>, s: Run)
    requires shape.Valid() && |shape.prefix| == |prefix| == |tail| == |s.clocks|
    ensures var next := shape.AddLocals(prefix).AddBarrier(cycles, moved).AddLocals(tail);
      next.Valid() && next.Apply(s) == shape.Apply(s).WorkAll(prefix).Barrier(cycles, moved).WorkAll(tail)
  {
    LocalsMean(shape, prefix, s);
    BarrierMeans(shape.AddLocals(prefix), cycles, moved, s);
    LocalsMean(shape.AddLocals(prefix).AddBarrier(cycles, moved), tail, s);
  }

  /** Folding a repeat at once is the same as running its body `count` times. */
  lemma RepeatMeans(shape: Shape, body: Shape, count: nat, s: Run)
    requires shape.Valid() && body.Valid() && |shape.prefix| == |body.prefix| == |s.clocks|
    ensures Repeated(shape, body, count).Valid()
    ensures Repeated(shape, body, count).Apply(s) == ApplyTimes(body, count, shape.Apply(s))
  {
    if count == 0 {
    } else if body.middle.Some? {
      PartsMean(shape, body.prefix, Joined(body, count), Moved(body.exchange, count), body.tail, s);
      BarrierRepeats(body, count, shape.Apply(s));
    } else {
      LocalsMean(shape, Times(body.prefix, count), s);
      LocalRepeats(body, count, shape.Apply(s));
    }
  }

  lemma {:induction false} TimesStandFor(body: Shape, ops: seq<Operation>, count: nat, phases: seq<nat>, s: Run)
    requires StandsFor(body, ops, phases) && |s.clocks| == |body.prefix|
    ensures ApplyTimes(body, count, s) == ExecTimes(ops, count, phases, s)
  {
    if count > 0 {
      hide Shape.Apply, Run.Barrier, Run.WorkAll;
      var before := ApplyTimes(body, count - 1, s);
      assert body.Apply(before) == Exec(ops, phases, before);
      TimesStandFor(body, ops, count - 1, phases, s);
    }
  }

  /** The first `k` amounts, and nothing for the other tiles. */
  ghost function UpTo(amounts: seq<nat>, k: nat): (r: seq<nat>)
    requires k <= |amounts|
    ensures |r| == |amounts|
  {
    amounts[..k] + Constant(|amounts| - k, 0)
  }

  lemma NoLocals(shape: Shape)
    requires shape.Valid()
    ensures forall amounts: seq<nat> | |amounts| == |shape.prefix| :: shape.AddLocals(UpTo(amounts, 0)) == shape
  {
    forall amounts: seq<nat> | |amounts| == |shape.prefix|
      ensures shape.AddLocals(UpTo(amounts, 0)) == shape
    {
      assert Plus(shape.prefix, UpTo(amounts, 0)) == shape.prefix;
      assert Plus(shape.tail, UpTo(amounts, 0)) == shape.tail;
    }
  }

  lemma OneMoreLocal(shape: Shape, amounts: seq<nat>, tile: nat)
    requires shape.Valid() && |amounts| == |shape.prefix| && tile < |amounts|
    ensures shape.AddLocals(UpTo(amounts, tile)).Valid()
    ensures shape.AddLocals(UpTo(amounts, tile)).AddLocal(tile, amounts[tile])
         == shape.AddLocals(UpTo(amounts, tile + 1))
  {
    var added, more := UpTo(amounts, tile), UpTo(amounts, tile + 1);
    var base := if shape.middle.Some? then shape.tail else shape.prefix;
    assert Plus(base, more) == Plus(base, added)[tile := Plus(base, added)[tile] + amounts[tile]];
  }

  // ---------------------------------------------------------------------------
  // The timeline the estimator keeps, updated in place and saturating
  // ---------------------------------------------------------------------------

  class Timeline {
    var prefix: seq<nat>
    var middle: Option<nat>
    var tail: seq<nat>
    var exchange: nat

    /** The same fold without saturation. */
    ghost var exact: Shape

    ghost predicate Valid()
      reads this
    {
      && exact.Valid()
      && prefix == Clamped(exact.prefix)
      && tail == Clamped(exact.tail)
      && middle == (if exact.middle.Some? then Some(Clamp(exact.middle.value)) else None)
      && exchange == Clamp(exact.exchange)
    }

    constructor (tiles: nat)
      ensures Valid()
      ensures exact == Shape(Constant(tiles, 0), None, Constant(tiles, 0), 0)
    {
      prefix, middle, tail, exchange := seq(tiles, _ => 0), None, seq(tiles, _ => 0), 0;
      exact := Shape(Constant(tiles, 0), None, Constant(tiles, 0), 0);
      new;
      assert Clamped(Constant(tiles, 0)) == prefix;
    }

    method AddLocal(tile: nat, cycles: nat, ghost amount: nat)
      requires Valid() && tile < |prefix| && cycles == Clamp(amount)
      modifies this
      ensures Valid() && exact == old(exact).AddLocal(tile, amount)
    {
      if middle.Some? {
        UpdateClamps(exact.tail, tile, exact.tail[tile] + amount);
        tail := tail[tile := Clamp(tail[tile] + cycles)];
      } else {
        UpdateClamps(exact.prefix, tile, exact.prefix[tile] + amount);
        prefix := prefix[tile := Clamp(prefix[tile] + cycles)];
      }
      exact := exact.AddLocal(tile, amount);
    }

    method AddBarrier(cycles: nat, moved: nat, ghost amount: nat, ghost movement: nat)
      requires Valid() && cycles == Clamp(amount) && moved == Clamp(movement)
      modifies this
      ensures Valid() && exact == old(exact).AddBarrier(amount, movement)
    {
      MaximumClamps(exact.tail);
      middle := Some(if middle.Some?
                     then Clamp(Clamp(middle.value + Maximum(tail)) + cycles)
                     else cycles);
      tail := seq(|tail|, _ => 0);
      exchange := Clamp(exchange + moved);
      exact := exact.AddBarrier(amount, movement);
      assert tail == Clamped(exact.tail);
    }

    /** The loop over all tiles that `repeat` performs in each of its branches. */
    method AddLocals(cycles: seq<nat>, ghost amounts: seq<nat>)
      requires Valid() && |cycles| == |prefix| && cycles == Clamped(amounts)
      modifies this
      ensures Valid() && exact == old(exact).AddLocals(amounts)
    {
      ghost var before := exact;
      NoLocals(before);
      for tile := 0 to |cycles|
        invariant Valid() && |prefix| == |cycles| == |before.prefix|
        invariant exact == before.AddLocals(UpTo(amounts, tile))
      {
        AddLocal(tile, cycles[tile], amounts[tile]);
        OneMoreLocal(before, amounts, tile);
      }
      assert UpTo(amounts, |amounts|) == amounts;
    }

    method AddRepeat(body: Timeline, count: nat)
      requires Valid() && body.Valid() && body != this && |body.prefix| == |prefix|
      requires count <= U64_MAX
      modifies this
      ensures Valid() && exact == Repeated(old(exact), body.exact, count)
    {
      if count == 0 {
        return;
      }
      if body.middle.Some? {
        AddLocals(body.prefix, body.exact.prefix);
        var between := Maximum(SaturatingSums(body.tail, body.prefix));
        BetweenClamps(body.exact);
        JoinedClamps(body.exact, count);
        MovedClamps(body.exact.exchange, count);
        AddBarrier(
          RepeatedBarrier(body.middle.value, between, count - 1),
          Clamp(body.exchange * count),
          Joined(body.exact, count),
          Moved(body.exact.exchange, count));
        AddLocals(body.tail, body.exact.tail);
      } else {
        ProductsClamp(body.exact.prefix, count);
        AddLocals(SaturatingProducts(body.prefix, count), Times(body.exact.prefix, count));
      }
    }

    method Cycles() returns (r: ProgramCycles)
      requires Valid()
      ensures var end := exact.Apply(Start(|prefix|));
        r == ProgramCycles(Clamp(end.Latest()), Clamp(end.exchange))
    {
      r := ProgramCycles(
        Clamp(Clamp(Maximum(prefix) + if middle.Some? then middle.value else 0) + Maximum(tail)),
        exchange);
      MaximumClamps(exact.prefix);
      MaximumClamps(exact.tail);
      ghost var start := Start(|prefix|);
      assert Plus(start.clocks, exact.prefix) == exact.prefix;
      if exact.middle.Some? {
        LatestAfterBarrier(start.WorkAll(exact.prefix), exact.middle.value, exact.exchange, exact.tail);
      } else {
        MaximumOfZeros(exact.tail);
      }
    }
  }

  lemma MaximumOfZeros(values: seq<nat>)
    requires forall i :: 0 <= i < |values| ==> values[i] == 0
    ensures Maximum(values) == 0
  {
    MaximumBounds(values);
  }

  /** A barrier followed by `more` equal periods, saturating at every step. */
  function RepeatedBarrier(middle: nat, between: nat, more: nat): nat {
    Clamp(middle + Clamp(Clamp(between + middle) * more))
  }

  function SaturatingSums(a: seq<nat>, b: seq<nat>): (r: seq<nat>)
    requires |a| == |b|
    ensures |r| == |a| && forall i :: 0 <= i < |a| ==> r[i] == Clamp(a[i] + b[i])
  {
    seq(|a|, i requires 0 <= i < |a| => Clamp(a[i] + b[i]))
  }

  function SaturatingProducts(a: seq<nat>, n: nat): (r: seq<nat>)
    ensures |r| == |a| && forall i :: 0 <= i < |a| ==> r[i] == Clamp(a[i] * n)
  {
    seq(|a|, i requires 0 <= i < |a| => Clamp(a[i] * n))
  }

  lemma BetweenClamps(body: Shape)
    requires body.Valid()
    ensures Maximum(SaturatingSums(Clamped(body.tail), Clamped(body.prefix))) == Clamp(Between(body))
  {
    assert SaturatingSums(Clamped(body.tail), Clamped(body.prefix)) == Clamped(Plus(body.tail, body.prefix));
    MaximumClamps(Plus(body.tail, body.prefix));
  }

  lemma JoinedClamps(body: Shape, count: nat)
    requires body.Valid() && body.middle.Some? && 0 < count <= U64_MAX
    ensures RepeatedBarrier(Clamp(body.middle.value), Clamp(Between(body)), count - 1) == Clamp(Joined(body, count))
  {
    JoinedIs(body, count);
    MulClamps(Between(body) + body.middle.value, count - 1);
  }

  lemma MovedClamps(exchange: nat, count: nat)
    requires count <= U64_MAX
    ensures Clamp(Clamp(exchange) * count) == Clamp(Moved(exchange, count))
  {
    MovedIs(exchange, count);
    MulClamps(exchange, count);
  }

  lemma ProductsClamp(a: seq<nat>, n: nat)
    requires n <= U64_MAX
    ensures SaturatingProducts(Clamped(a), n) == Clamped(Times(a, n))
  {
    forall i | 0 <= i < |a|
      ensures SaturatingProducts(Clamped(a), n)[i] == Clamp(Times(a, n)[i])
    {
      MulClamps(a[i], n);
    }
  }

  // ---------------------------------------------------------------------------
  // Walking a program
  // ---------------------------------------------------------------------------

  /** One more operation extends the program that a shape stands for. */
  lemma Extends(shape: Shape, next: Shape, done: seq<Operation>, op: Operation, phases: seq<nat>)
    requires StandsFor(shape, done, phases) && next.Valid() && |next.prefix| == |shape.prefix|
    requires WellFormedOperation(op, |shape.prefix|, phases)
    requires forall s: Run {:trigger next.Apply(s)} | |s.clocks| == |shape.prefix| :: next.Apply(s) == Step(op, phases, shape.Apply(s))
    ensures StandsFor(next, done + [op], phases)
  {
    assert (done + [op])[..|done|] == done;
  }

  method Region(tiles: nat, ops: seq<Operation>, phases: seq<nat>) returns (timeline: Timeline)
    requires WellFormed(ops, tiles, phases)
    ensures fresh(timeline) && timeline.Valid() && |timeline.prefix| == tiles
    ensures StandsFor(timeline.exact, ops, phases)
    decreases ops
  {
    timeline := new Timeline(tiles);
    forall s: Run | |s.clocks| == tiles
      ensures timeline.exact.Apply(s) == s
    {
      assert Plus(s.clocks, timeline.exact.prefix) == s.clocks;
    }
    for k := 0 to |ops|
      invariant fresh(timeline) && timeline.Valid() && |timeline.prefix| == tiles
      invariant StandsFor(timeline.exact, ops[..k], phases)
    {
      ghost var before := timeline.exact;
      AppendOperation(timeline, ops[k], phases);
      Extends(before, timeline.exact, ops[..k], ops[k], phases);
      assert ops[..k + 1] == ops[..k] + [ops[k]];
    }
    assert ops[..|ops|] == ops;
  }

  method AppendOperation(timeline: Timeline, op: Operation, phases: seq<nat>)
    requires timeline.Valid() && WellFormedOperation(op, |timeline.prefix|, phases)
    modifies timeline
    ensures timeline.Valid() && |timeline.prefix| == old(|timeline.prefix|)
    ensures forall s: Run {:trigger timeline.exact.Apply(s)} | |s.clocks| == |timeline.prefix| ::
              timeline.exact.Apply(s) == Step(op, phases, old(timeline.exact).Apply(s))
    decreases op
  {
    ghost var before := timeline.exact;
    match op {
      case Local(tile, cycles) =>
        timeline.AddLocal(tile, cycles, cycles);
        forall s: Run | |s.clocks| == |timeline.prefix| {
          LocalMeans(before, tile, cycles, s);
        }
      case Exchange(phase) =>
        var cycles := phases[phase];
        timeline.AddBarrier(cycles, cycles, cycles, cycles);
        forall s: Run | |s.clocks| == |timeline.prefix| {
          BarrierMeans(before, cycles, cycles, s);
        }
      case Repeat(body, count) =>
        var inner := Region(|timeline.prefix|, body, phases);
        timeline.AddRepeat(inner, count);
        forall s: Run | |s.clocks| == |timeline.prefix|
          ensures timeline.exact.Apply(s) == Step(op, phases, before.Apply(s))
        {
          RepeatMeans(before, inner.exact, count, s);
          TimesStandFor(inner.exact, body, count, phases, before.Apply(s));
        }
      case Checkpoint =>
    }
  }

  /** The estimate equals the unrolled run: its finishing time and its exchange time,
      each clamped to 64 bits. By count, every exchange waits for the slowest tile since the one
      before it, and a phase costs its cycles each time it occurs. */
  method EstimateProgram(tiles: nat, ops: seq<Operation>, phases: seq<nat>) returns (r: ProgramCycles)
    requires WellFormed(ops, tiles, phases)
    ensures var end := Exec(ops, phases, Start(tiles));
      r == ProgramCycles(Clamp(end.Latest()), Clamp(end.exchange))
    ensures WellFormed(Unrolled(ops), tiles, phases) && r.total == Clamp(FinishTime(Unrolled(ops), tiles, phases))
    ensures r.exchange == Clamp(ExchangeTime(ops, phases, |phases|))
  {
    hide Exec, FinishTime, ExchangeTime, Unrolled;
    var timeline := Region(tiles, ops, phases);
    r := timeline.Cycles();
    UnrolledRuns(ops, phases, Start(tiles));
    FinishIs(Unrolled(ops), tiles, phases);
    ExchangeAdds(ops, phases, Start(tiles));
  }

  /** Tile clocks never fall behind the last barrier, so the finishing time of a run
      on at least one tile is its latest tile clock. */
  ghost predicate Fenced(s: Run) {
    forall i :: 0 <= i < |s.clocks| ==> s.fence <= s.clocks[i]
  }

  lemma {:induction false} ExecKeepsFence(ops: seq<Operation>, phases: seq<nat>, s: Run)
    requires WellFormed(ops, |s.clocks|, phases) && Fenced(s)
    ensures Fenced(Exec(ops, phases, s))
    decreases ops, 0
  {
    if ops != [] {
      var before := ops[..|ops| - 1];
      ExecKeepsFence(before, phases, s);
      match ops[|ops| - 1] {
        case Repeat(body, count) =>
          assert WellFormedOperation(ops[|ops| - 1], |s.clocks|, phases);
          TimesKeepFence(body, count, phases, Exec(before, phases, s));
        case _ =>
      }
    }
  }

  lemma {:induction false} TimesKeepFence(body: seq<Operation>, count: nat, phases: seq<nat>, s: Run)
    requires WellFormed(body, |s.clocks|, phases) && Fenced(s)
    ensures Fenced(ExecTimes(body, count, phases, s))
    decreases body, 1, count
  {
    if count > 0 {
      TimesKeepFence(body, count - 1, phases, s);
      ExecKeepsFence(body, phases, ExecTimes(body, count - 1, phases, s));
    }
  }

  lemma FinishIsLatestClock(tiles: nat, ops: seq<Operation>, phases: seq<nat>)
    requires WellFormed(ops, tiles, phases) && tiles > 0
    ensures Exec(ops, phases, Start(tiles)).Latest() == Maximum(Exec(ops, phases, Start(tiles)).clocks)
  {
    ExecKeepsFence(ops, phases, Start(tiles));
    var end := Exec(ops, phases, Start(tiles));
    MaximumBounds(end.clocks);
    assert end.fence <= end.clocks[0] <= Maximum(end.clocks);
  }
}
