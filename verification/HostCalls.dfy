/** Host calls: what the planner builds, what the package validator checks, and how the
    driver tells whether a call reuses page storage (crates/ipu-codegen/src/host.rs,
    crates/ipu-package/src/lib.rs, crates/ipu-driver/src/lib.rs). */
module HostCalls {
  import opened HostPlan
  import opened HostBatches

  datatype HostCall = HostCall(
    phases: nat,
    inputs: seq<HostSlice>,
    outputs: seq<HostSlice>,
    inputBatchEnds: seq<nat>,
    outputBatchEnds: seq<nat>)

  /** A call together with what the device does in each of its batches. */
  datatype PlannedCall = PlannedCall(call: HostCall, program: seq<seq<Transfer>>)

  datatype HostPackagePlan = HostPackagePlan(calls: seq<PlannedCall>, arenaBytes: nat)

  /** The schedule behind a planned call. */
  datatype Schedule = Schedule(inputs: seq<seq<Move>>, outputs: seq<seq<Move>>, slots: Slots) {
    ghost function Batches(): nat {
      |inputs| + |outputs|
    }
  }

  // ---------------------------------------------------------------------------
  // Page slots
  // ---------------------------------------------------------------------------

  predicate Transfers(pending: seq<Move>, tile: int) {
    exists m :: m in pending && m.tile == tile
  }

  /** One slot per tile that transfers anything, numbered in ascending tile order. */
  method AssignSlots(pending: seq<Move>) returns (slots: Slots)
    requires forall m :: m in pending ==> m.tile < U16_LIMIT
    ensures ValidSlots(slots, pending) && |slots| <= U16_LIMIT
    ensures forall t: int :: t in slots <==> Transfers(pending, t)
    ensures forall t: int, u: int :: t in slots && u in slots && t < u ==> slots[t] < slots[u]
  {
    hide Transfers;
    slots := map[];
    for tile: int := 0 to U16_LIMIT
      invariant |slots| <= tile
      invariant forall t: int :: t in slots <==> 0 <= t < tile && Transfers(pending, t)
      invariant forall t: int :: t in slots ==> slots[t] < |slots|
      invariant forall t: int, u: int :: t in slots && u in slots && t < u ==> slots[t] < slots[u]
    {
      if Transfers(pending, tile) {
        slots := slots[tile := |slots|];
      }
    }
    TransfersAll(pending);
  }

  lemma TransfersAll(pending: seq<Move>)
    ensures forall m :: m in pending ==> Transfers(pending, m.tile)
    ensures forall t: int :: Transfers(pending, t) ==> exists m :: m in pending && m.tile == t
  {
  }

  // ---------------------------------------------------------------------------
  // Planning
  // ---------------------------------------------------------------------------

  /** Incoming pages land in the staging area and are copied to their destination. */
  function Staged(t: Transfer, staging: nat): Transfer {
    t.(copyDestination := Some(t.tileAddress), tileAddress := staging)
  }

  /** The packet encodings move whole words between word-aligned addresses. */
  predicate Encodable(t: Transfer) {
    t.bytes > 0 && t.bytes % 4 == 0 && t.hostOffset % 4 == 0
    && (if t.toTile then t.tileAddress % 32 == 0 else t.tileAddress % 4 == 0)
  }

  ghost predicate Plays(program: seq<seq<Transfer>>, s: Schedule, staging: nat)
  {
    && |program| == s.Batches()
    && (forall b :: 0 <= b < |s.inputs| ==>
          && |program[b]| == |s.inputs[b]|
          && forall i :: 0 <= i < |program[b]| ==>
               program[b][i] == Staged(TransferOf(s.inputs[b][i], s.slots, true), staging) && Encodable(program[b][i]))
    && (forall b :: 0 <= b < |s.outputs| ==>
          && |program[|s.inputs| + b]| == |s.outputs[b]|
          && forall i :: 0 <= i < |s.outputs[b]| ==>
               program[|s.inputs| + b][i] == TransferOf(s.outputs[b][i], s.slots, false))
  }

  ghost predicate EndsOf(ends: seq<nat>, batches: seq<seq<Move>>) {
    |ends| == |batches| && forall b :: 0 <= b < |batches| ==> ends[b] == |Flatten(batches[..b + 1])|
  }

  /** A planned call moves exactly what its input and output bindings ask for. */
  ghost predicate Realizes(c: PlannedCall, s: Schedule, inputs: seq<Binding>, outputs: seq<Binding>, staging: nat)
  {
    && Schedules(s.inputs, Pages(MovesOf(inputs)))
    && Schedules(s.outputs, Pages(MovesOf(outputs)))
    && ValidSlots(s.slots, Pages(MovesOf(inputs)))
    && ValidSlots(s.slots, Pages(MovesOf(outputs)))
    && c.call.inputs == SlicesOf(Flatten(s.inputs), s.slots)
    && c.call.outputs == SlicesOf(Flatten(s.outputs), s.slots)
    && EndsOf(c.call.inputBatchEnds, s.inputs)
    && EndsOf(c.call.outputBatchEnds, s.outputs)
    && Plays(c.program, s, staging)
  }

  /** A page that the packet encodings can carry. */
  predicate PageEncodable(m: Move, toTile: bool, staging: nat) {
    m.size > 0 && m.size % 4 == 0 && (if toTile then staging % 32 == 0 else m.tileAddress % 4 == 0)
  }

  ghost predicate PagesEncodable(moves: seq<Move>, toTile: bool, staging: nat) {
    forall m :: m in moves ==> PageEncodable(m, toTile, staging)
  }

  ghost predicate AllEncodable(phases: seq<seq<Transfer>>) {
    forall b, i :: 0 <= b < |phases| && 0 <= i < |phases[b]| ==> Encodable(phases[b][i])
  }

  ghost predicate AllStageable(phases: seq<seq<Transfer>>, staging: nat) {
    forall b, i :: 0 <= b < |phases| && 0 <= i < |phases[b]| ==> Encodable(Staged(phases[b][i], staging))
  }

  lemma TransferEncodable(m: Move, slots: Slots, staging: nat)
    ensures Encodable(Staged(TransferOf(m, slots, true), staging)) <==> PageEncodable(m, true, staging)
    ensures Encodable(TransferOf(m, slots, false)) <==> PageEncodable(m, false, staging)
  {
    hide SlotOf;
    OffsetIsAligned(SlotOf(slots, m.tile));
  }

  lemma OffsetIsAligned(slot: nat)
    ensures (HOST_DATA_START + slot * PAGE) % 4 == 0
  {
    assert HOST_DATA_START + slot * PAGE == 4 * (1024 + 1024 * slot);
  }

  lemma SameMembers(batches: seq<seq<Move>>, pending: seq<Move>, m: Move)
    requires Schedules(batches, pending)
    ensures m in pending <==> m in Flatten(batches)
  {
    hide OnTile, Flatten;
    OnTileMembers(pending, m.tile, m);
    OnTileMembers(Flatten(batches), m.tile, m);
  }

  /** The encodable batches are those of encodable pages. */
  lemma BatchesEncodable(phases: seq<seq<Transfer>>, slices: seq<HostSlice>, ends: seq<nat>, batches: seq<seq<Move>>,
                         slots: Slots, toTile: bool, pending: seq<Move>, staging: nat)
    requires Schedules(batches, pending) && Encodes(phases, slices, ends, batches, slots, toTile)
    ensures (if toTile then AllStageable(phases, staging) else AllEncodable(phases)) <==> PagesEncodable(pending, toTile, staging)
  {
    hide OnTile, Flatten, Encodable, PageEncodable, TransfersOf, SlicesOf, TransferOf, Staged, Schedules;
    forall b, i | 0 <= b < |batches| && 0 <= i < |batches[b]|
      ensures batches[b][i] in pending && |phases[b]| == |batches[b]|
      ensures if toTile then Encodable(Staged(phases[b][i], staging)) <==> PageEncodable(batches[b][i], toTile, staging)
              else Encodable(phases[b][i]) <==> PageEncodable(batches[b][i], toTile, staging)
    {
      TransferAt(batches[b], slots, toTile, i);
      TransferEncodable(batches[b][i], slots, staging);
      FlattenMember(batches, b, batches[b][i]);
      SameMembers(batches, pending, batches[b][i]);
    }
    forall m | m in pending
      ensures exists b, i :: 0 <= b < |batches| && 0 <= i < |batches[b]| && batches[b][i] == m
    {
      SameMembers(batches, pending, m);
      var b := InSomeBatch(batches, m);
      var i: nat :| i < |batches[b]| && batches[b][i] == m;
    }
  }

  lemma {:induction false} InSomeBatch(batches: seq<seq<Move>>, m: Move) returns (b: nat)
    requires m in Flatten(batches)
    ensures b < |batches| && m in batches[b]
  {
    if m in batches[|batches| - 1] {
      b := |batches| - 1;
    } else {
      b := InSomeBatch(batches[..|batches| - 1], m);
    }
  }

  /** Every transfer of every phase, staged and encodable. */
  ghost predicate AreStaged(phases: seq<seq<Transfer>>, staged: seq<seq<Transfer>>, staging: nat) {
    && |staged| == |phases|
    && forall b :: 0 <= b < |phases| ==>
         && |staged[b]| == |phases[b]|
         && forall i :: 0 <= i < |phases[b]| ==> staged[b][i] == Staged(phases[b][i], staging) && Encodable(staged[b][i])
  }

  method CheckPhases(phases: seq<seq<Transfer>>) returns (ok: bool)
    ensures ok <==> AllEncodable(phases)
  {
    for b := 0 to |phases|
      invariant forall c, i :: 0 <= c < b && 0 <= i < |phases[c]| ==> Encodable(phases[c][i])
    {
      for i := 0 to |phases[b]|
        invariant forall j :: 0 <= j < i ==> Encodable(phases[b][j])
      {
        if !Encodable(phases[b][i]) {
          return false;
        }
      }
    }
    ok := true;
  }

  /** Incoming transfers are staged, or refused exactly when one cannot be encoded. */
  method Stage(phases: seq<seq<Transfer>>, staging: nat) returns (r: Result<seq<seq<Transfer>>>)
    ensures r.Ok? <==> AllStageable(phases, staging)
    ensures r.Ok? ==> AreStaged(phases, r.value, staging)
  {
    var staged: seq<seq<Transfer>> := [];
    for b := 0 to |phases|
      invariant |staged| == b
      invariant forall c :: 0 <= c < b ==>
                  && |staged[c]| == |phases[c]|
                  && forall i :: 0 <= i < |phases[c]| ==>
                       staged[c][i] == Staged(phases[c][i], staging) && Encodable(staged[c][i])
    {
      var transfers: seq<Transfer> := [];
      for i := 0 to |phases[b]|
        invariant |transfers| == i
        invariant forall j :: 0 <= j < i ==>
                    transfers[j] == Staged(phases[b][j], staging) && Encodable(transfers[j])
      {
        var t := Staged(phases[b][i], staging);
        if !Encodable(t) {
          return Failed;
        }
        transfers := transfers + [t];
      }
      staged := staged + [transfers];
    }
    r := Ok(staged);
  }

  lemma PendingTiles(bindings: seq<Binding>)
    requires BindingsFit(bindings)
    ensures forall m :: m in Pages(MovesOf(bindings)) ==> m.tile < U16_LIMIT
  {
    forall page | page in Pages(MovesOf(bindings))
      ensures page.tile < U16_LIMIT
    {
      var m := PageComesFromMove(MovesOf(bindings), page);
      PagesOfLieInside(m, page);
      MoveFits(bindings, m);
    }
  }

  lemma {:induction false} MoveFits(bindings: seq<Binding>, m: Move)
    requires BindingsFit(bindings) && m in MovesOf(bindings)
    ensures m.size > 0 ==> m.tile < U16_LIMIT
  {
    var before, last := bindings[..|bindings| - 1], bindings[|bindings| - 1];
    if m in MovesOf(before) {
      MoveFits(before, m);
    } else {
      SliceMoveFits(last.slices, Cursor(before), m);
    }
  }

  lemma {:induction false} SliceMoveFits(slices: seq<RegionSlice>, base: nat, m: Move)
    requires SlicesFit(slices, base) && m in MovesOfSlices(slices, base)
    ensures m.size > 0 ==> m.tile < U16_LIMIT
  {
    if m == MoveOf(slices[|slices| - 1], base) {
      assert slices[|slices| - 1] in slices;
    } else {
      SliceMoveFits(slices[..|slices| - 1], base, m);
    }
  }

  /** A call that runs `inputs` and then `outputs`, each in batches. */
  method PlanCall(inputs: seq<Binding>, outputs: seq<Binding>, pendingIn: seq<Move>, pendingOut: seq<Move>,
                  slots: Slots, staging: nat) returns (r: Result<PlannedCall>, ghost s: Schedule)
    requires BindingsFit(inputs) && pendingIn == Pages(MovesOf(inputs)) && ValidSlots(slots, pendingIn)
    requires BindingsFit(outputs) && pendingOut == Pages(MovesOf(outputs)) && ValidSlots(slots, pendingOut)
    ensures r.Ok? <==> PagesEncodable(pendingIn, true, staging) && PagesEncodable(pendingOut, false, staging)
    ensures r.Ok? ==>
              && Realizes(r.value, s, inputs, outputs, staging)
              && s.slots == slots
              && r.value.call.phases == if s.Batches() == 0 then 0 else s.Batches() * 2 - 1
  {
    hide Pages, MovesOf, OnTile, Flatten, SlicesOf, TransfersOf, BindingsFit, ValidSlots, Encodable, PageEncodable;
    hide Encodes, Schedules, Plays, Realizes, AllStageable, AllEncodable, PagesEncodable, AreStaged;
    s := Schedule([], [], slots);
    PendingTiles(inputs);
    PendingTiles(outputs);
    var inPhases, inSlices, inEnds, inBatches := Batch(pendingIn, slots, true);
    var outPhases, outSlices, outEnds, outBatches := Batch(pendingOut, slots, false);
    var staged := Stage(inPhases, staging);
    var sendable := CheckPhases(outPhases);
    BatchesEncodable(inPhases, inSlices, inEnds, inBatches, slots, true, pendingIn, staging);
    BatchesEncodable(outPhases, outSlices, outEnds, outBatches, slots, false, pendingOut, staging);
    if staged.Failed? || !sendable {
      return Failed, s;
    }
    s := Schedule(inBatches, outBatches, slots);
    var count := |inPhases| + |outPhases|;
    var call := HostCall(if count == 0 then 0 else count * 2 - 1, inSlices, outSlices, inEnds, outEnds);
    r := Ok(PlannedCall(call, staged.value + outPhases));
    ProgramPlays(inPhases, outPhases, staged.value, inSlices, outSlices, inEnds, outEnds, s, staging);
    CallRealizes(r.value, s, inputs, outputs, staging, inPhases, outPhases);
  }

  lemma CallRealizes(c: PlannedCall, s: Schedule, inputs: seq<Binding>, outputs: seq<Binding>, staging: nat,
                     inPhases: seq<seq<Transfer>>, outPhases: seq<seq<Transfer>>)
    requires Schedules(s.inputs, Pages(MovesOf(inputs))) && Schedules(s.outputs, Pages(MovesOf(outputs)))
    requires ValidSlots(s.slots, Pages(MovesOf(inputs))) && ValidSlots(s.slots, Pages(MovesOf(outputs)))
    requires Encodes(inPhases, c.call.inputs, c.call.inputBatchEnds, s.inputs, s.slots, true)
    requires Encodes(outPhases, c.call.outputs, c.call.outputBatchEnds, s.outputs, s.slots, false)
    requires Plays(c.program, s, staging)
    ensures Realizes(c, s, inputs, outputs, staging) && |inPhases| + |outPhases| == s.Batches()
  {
    hide Pages, MovesOf, OnTile, Flatten, SlicesOf, TransfersOf, ValidSlots, Plays;
  }

  lemma ProgramPlays(inPhases: seq<seq<Transfer>>, outPhases: seq<seq<Transfer>>, staged: seq<seq<Transfer>>,
                     inSlices: seq<HostSlice>, outSlices: seq<HostSlice>, inEnds: seq<nat>, outEnds: seq<nat>,
                     s: Schedule, staging: nat)
    requires Encodes(inPhases, inSlices, inEnds, s.inputs, s.slots, true)
    requires Encodes(outPhases, outSlices, outEnds, s.outputs, s.slots, false)
    requires AreStaged(inPhases, staged, staging)
    ensures Plays(staged + outPhases, s, staging)
  {
    hide Flatten, SlicesOf, TransfersOf, TransferOf, Encodable;
    forall b, i | 0 <= b < |s.inputs| && 0 <= i < |s.inputs[b]|
      ensures inPhases[b][i] == TransferOf(s.inputs[b][i], s.slots, true)
    {
      TransferAt(s.inputs[b], s.slots, true, i);
    }
    forall b, i | 0 <= b < |s.outputs| && 0 <= i < |s.outputs[b]|
      ensures outPhases[b][i] == TransferOf(s.outputs[b][i], s.slots, false)
    {
      TransferAt(s.outputs[b], s.slots, false, i);
    }
  }

  lemma ValidSlotsParts(slots: Slots, a: seq<Move>, b: seq<Move>)
    requires ValidSlots(slots, a + b)
    ensures ValidSlots(slots, a) && ValidSlots(slots, b)
  {
    forall m | m in a
      ensures m.tile in slots
    {
      assert m in a + b;
    }
    forall m | m in b
      ensures m.tile in slots
    {
      assert m in a + b;
    }
  }

  ghost predicate FitsAll(weights: seq<Binding>, inputs: seq<Binding>, outputs: seq<Binding>) {
    BindingsFit(weights) && BindingsFit(inputs) && BindingsFit(outputs)
  }

  ghost predicate EncodesAll(weights: seq<Binding>, inputs: seq<Binding>, outputs: seq<Binding>, staging: nat) {
    && PagesEncodable(Pages(MovesOf(weights)), true, staging) && PagesEncodable(Pages(MovesOf(inputs)), true, staging)
    && PagesEncodable(Pages(MovesOf(outputs)), false, staging)
  }

  ghost predicate AddressesFit(bindings: seq<Binding>) {
    forall b, s :: b in bindings && s in b.slices ==> s.tileAddress < U32_LIMIT
  }

  /** The initialization and the run, over one assignment of page slots. */
  method PlanBoth(weights: seq<Binding>, inputs: seq<Binding>, outputs: seq<Binding>, staging: nat)
    returns (r: Result<(PlannedCall, PlannedCall)>, slotCount: nat, ghost setup: Schedule, ghost run: Schedule)
    requires AddressesFit(weights) && AddressesFit(inputs) && AddressesFit(outputs)
    ensures r.Ok? <==> FitsAll(weights, inputs, outputs) && EncodesAll(weights, inputs, outputs, staging)
    ensures r.Ok? ==>
              && Realizes(r.value.0, setup, weights, [], staging) && Realizes(r.value.1, run, inputs, outputs, staging)
              && setup.slots == run.slots && |run.slots| == slotCount <= U16_LIMIT
              && setup.outputs == [] && |r.value.0.program| == |setup.inputs|
              && r.value.0.call.phases == 2 * setup.Batches()
              && r.value.1.call.phases == (if run.Batches() == 0 then 0 else 2 * run.Batches() - 1)
  {
    hide PagesEncodable, Schedules, Pages, MovesOf, BindingsFit, Realizes;
    setup, run, slotCount := Schedule([], [], map[]), Schedule([], [], map[]), 0;
    NoBindings();
    var pendingWeights := Collect(weights);
    var pendingInputs := Collect(inputs);
    var pendingOutputs := Collect(outputs);
    if pendingWeights.Failed? || pendingInputs.Failed? || pendingOutputs.Failed? {
      return Failed, slotCount, setup, run;
    }
    PendingTiles(weights);
    PendingTiles(inputs);
    PendingTiles(outputs);
    var slots := AssignSlots(pendingWeights.value + pendingInputs.value + pendingOutputs.value);
    ValidSlotsParts(slots, pendingWeights.value + pendingInputs.value, pendingOutputs.value);
    ValidSlotsParts(slots, pendingWeights.value, pendingInputs.value);
    var initialize, setupSchedule := PlanCall(weights, [], pendingWeights.value, [], slots, staging);
    var graph, runSchedule := PlanCall(inputs, outputs, pendingInputs.value, pendingOutputs.value, slots, staging);
    if initialize.Failed? || graph.Failed? {
      return Failed, slotCount, setup, run;
    }
    setup, run, slotCount := setupSchedule, runSchedule, |slots|;
    SetupOnly(initialize.value, setup, weights, staging);
    var phases := |initialize.value.program| * 2;
    r := Ok((initialize.value.(call := initialize.value.call.(phases := phases)), graph.value));
  }

  /** Every tile's program for the batches can be planned. */
  ghost predicate AllPlanned(planTile: (nat, seq<seq<Transfer>>) -> bool, tiles: nat, phases: seq<seq<Transfer>>) {
    forall tile: nat :: tile < tiles ==> planTile(tile, phases)
  }

  method PlanTiles(planTile: (nat, seq<seq<Transfer>>) -> bool, tiles: nat, phases: seq<seq<Transfer>>) returns (ok: bool)
    ensures ok <==> AllPlanned(planTile, tiles, phases)
  {
    for tile := 0 to tiles
      invariant forall t: nat :: t < tile ==> planTile(t, phases)
    {
      if !planTile(tile, phases) {
        return false;
      }
    }
    ok := true;
  }

  /** The calls of a package: an initialization for the weights, if there are any pages of
      them, and the run itself. The run leaves its last phase to the caller. Whether the
      program and data of a tile fit beside its batches is for `planTile` to say. */
  method Plan(weights: seq<Binding>, inputs: seq<Binding>, outputs: seq<Binding>, staging: nat,
              executionTiles: nat, planTile: (nat, seq<seq<Transfer>>) -> bool)
    returns (r: Result<HostPackagePlan>, ghost setup: Schedule, ghost run: Schedule,
             ghost initialize: PlannedCall, ghost graph: PlannedCall)
    requires AddressesFit(weights) && AddressesFit(inputs) && AddressesFit(outputs)
    ensures FitsAll(weights, inputs, outputs) && EncodesAll(weights, inputs, outputs, staging) ==>
              Realizes(initialize, setup, weights, [], staging) && Realizes(graph, run, inputs, outputs, staging)
    ensures var empty := weights == inputs == outputs == [];
      r.Ok? <==>
      && FitsAll(weights, inputs, outputs) && EncodesAll(weights, inputs, outputs, staging)
      && (empty || AllPlanned(planTile, executionTiles, initialize.program + graph.program))
    ensures weights == inputs == outputs == [] ==> r == Ok(HostPackagePlan([], 0))
    ensures r.Ok? && !(weights == inputs == outputs == []) ==>
              && r.value.calls == (if setup.inputs == [] then [] else [initialize]) + [graph]
              && initialize.call.phases == 2 * setup.Batches()
              && graph.call.phases == (if run.Batches() == 0 then 0 else 2 * run.Batches() - 1)
              && setup.slots == run.slots && |run.slots| * PAGE <= r.value.arenaBytes && |run.slots| <= U16_LIMIT
  {
    hide FitsAll, EncodesAll, Realizes, AllPlanned, AddressesFit;
    var both, slotCount;
    both, slotCount, setup, run := PlanBoth(weights, inputs, outputs, staging);
    initialize := PlannedCall(HostCall(0, [], [], [], []), []);
    graph := initialize;
    if both.Ok? {
      initialize, graph := both.value.0, both.value.1;
    }
    if weights == [] && inputs == [] && outputs == [] {
      NoBindingsFit(staging);
      return Ok(HostPackagePlan([], 0)), setup, run, initialize, graph;
    }
    if both.Failed? {
      return Failed, setup, run, initialize, graph;
    }
    var (first, last) := both.value;
    var ok := PlanTiles(planTile, executionTiles, first.program + last.program);
    if !ok {
      return Failed, setup, run, initialize, graph;
    }
    var calls := (if first.program == [] then [] else [first]) + [last];
    r := Ok(HostPackagePlan(calls, PAGE * if slotCount < 1 then 1 else slotCount));
  }

  lemma NoBindingsFit(staging: nat)
    ensures FitsAll([], [], []) && EncodesAll([], [], [], staging)
  {
    hide PagesEncodable, Pages, MovesOf, BindingsFit;
    NoBindings();
  }

  lemma NoBindings()
    ensures BindingsFit([]) && Pages(MovesOf([])) == []
    ensures forall toTile, staging: nat :: PagesEncodable([], toTile, staging)
  {
  }

  /** A call without output bindings has no output batches, and its length is no part of
      what it moves. */
  lemma SetupOnly(c: PlannedCall, s: Schedule, weights: seq<Binding>, staging: nat)
    requires Realizes(c, s, weights, [], staging)
    ensures s.outputs == [] && |c.program| == s.Batches()
    ensures Schedules(s.inputs, Pages(MovesOf(weights)))
    ensures forall n: nat :: Realizes(c.(call := c.call.(phases := n)), s, weights, [], staging)
  {
    if s.outputs != [] {
      var first := s.outputs[0][0];
      assert first in s.outputs[0];
      FlattenMember(s.outputs, 0, first);
      OnTileMembers(Flatten(s.outputs), first.tile, first);
    }
  }

  // ---------------------------------------------------------------------------
  // Validation
  // ---------------------------------------------------------------------------

  function PreviousEnd(ends: seq<nat>, b: nat): nat
    requires b <= |ends|
  {
    if b == 0 then 0 else ends[b - 1]
  }

  /** Batch ends must cut the slices into non-empty consecutive runs that cover them. */
  method ValidateBatchEnds(ends: seq<nat>, sliceCount: nat) returns (ok: bool)
    ensures ok <==>
            && (forall b :: 0 <= b < |ends| ==> PreviousEnd(ends, b) < ends[b] <= sliceCount)
            && PreviousEnd(ends, |ends|) == sliceCount
  {
    var previous := 0;
    for b := 0 to |ends|
      invariant previous == PreviousEnd(ends, b)
      invariant forall c :: 0 <= c < b ==> PreviousEnd(ends, c) < ends[c] <= sliceCount
    {
      if ends[b] <= previous || ends[b] > sliceCount {
        return false;
      }
      previous := ends[b];
    }
    ok := previous == sliceCount;
  }

  /** The planner's batch ends pass the validator. */
  lemma PlannedEndsAreValid(ends: seq<nat>, batches: seq<seq<Move>>)
    requires EndsOf(ends, batches) && forall b :: 0 <= b < |batches| ==> batches[b] != []
    ensures forall b :: 0 <= b < |ends| ==> PreviousEnd(ends, b) < ends[b] <= |Flatten(batches)|
    ensures PreviousEnd(ends, |ends|) == |Flatten(batches)|
  {
    forall b | 0 <= b < |ends|
      ensures PreviousEnd(ends, b) < ends[b] <= |Flatten(batches)|
    {
      StartOf(ends, batches, b);
      FlattenAt(batches, b);
    }
    StartOf(ends, batches, |ends|);
    assert batches[..|batches|] == batches;
  }

  lemma StartOf(ends: seq<nat>, batches: seq<seq<Move>>, b: nat)
    requires EndsOf(ends, batches) && b <= |batches|
    ensures PreviousEnd(ends, b) == |Flatten(batches[..b])|
  {
    if b == 0 {
      assert batches[..0] == [];
    } else {
      assert batches[..b - 1 + 1] == batches[..b];
    }
  }

  // ---------------------------------------------------------------------------
  // Storage reuse
  // ---------------------------------------------------------------------------

  function EndOf(s: HostSlice): nat {
    if s.pageOffset + s.size < U64_LIMIT then s.pageOffset + s.size else U64_LIMIT - 1
  }

  predicate Overlap(previous: HostSlice, s: HostSlice) {
    previous.page == s.page && s.pageOffset < EndOf(previous) && previous.pageOffset < EndOf(s)
  }

  ghost predicate InSlice(s: HostSlice, p: nat) {
    s.pageOffset <= p < s.pageOffset + s.size
  }

  ghost predicate ShareByte(a: HostSlice, b: HostSlice) {
    exists p :: InSlice(a, p) && InSlice(b, p) && p < 0xFFFF_FFFF_FFFF_FFFF
  }

  /** Slices that are not empty overlap exactly when they share a byte of one page, other than
      the very last that a 64-bit number can address. */
  lemma OverlapIff(a: HostSlice, b: HostSlice)
    requires a.size > 0 && b.size > 0
    ensures Overlap(a, b) <==> a.page == b.page && ShareByte(a, b)
  {
    if Overlap(a, b) {
      var p := if a.pageOffset < b.pageOffset then b.pageOffset else a.pageOffset;
      assert InSlice(a, p) && InSlice(b, p);
    }
  }

  /** An empty slice strictly inside another counts as overlapping it. */
  lemma EmptyOverlapsInside(a: HostSlice, b: HostSlice)
    requires b.size == 0 && a.page == b.page && a.pageOffset + a.size < 0x1_0000_0000_0000_0000
    ensures Overlap(a, b) <==> a.pageOffset < b.pageOffset < a.pageOffset + a.size
  {
  }

  method HostCallReusesStorage(call: HostCall) returns (reuses: bool)
    ensures var all := call.inputs + call.outputs;
      reuses <==> exists i, j :: 0 <= i < j < |all| && Overlap(all[i], all[j])
  {
    var all := call.inputs + call.outputs;
    for j := 0 to |all|
      invariant forall i, k :: 0 <= i < k < j ==> !Overlap(all[i], all[k])
    {
      for i := 0 to j
        invariant forall k :: 0 <= k < i ==> !Overlap(all[k], all[j])
      {
        if Overlap(all[i], all[j]) {
          return true;
        }
      }
    }
    reuses := false;
  }

  /** The page slots of two pages meet exactly when the pages belong to one tile. */
  lemma SlotsMeet(a: Move, b: Move, slots: Slots)
    requires 0 < a.size <= PAGE && 0 < b.size <= PAGE && |slots| <= U16_LIMIT
    requires ValidSlots(slots, [a, b])
    ensures Overlap(SliceOf(a, slots), SliceOf(b, slots)) <==> a.tile == b.tile
  {
    assert a in [a, b] && b in [a, b];
  }

  ghost predicate AreSlotted(moves: seq<Move>, slots: Slots) {
    ValidSlots(slots, moves) && |slots| <= U16_LIMIT && forall m :: m in moves ==> 0 < m.size <= PAGE
  }

  /** A planned call reuses storage exactly when some tile transfers more than one page. */
  lemma ReuseIsTwoPages(moves: seq<Move>, slots: Slots)
    requires AreSlotted(moves, slots)
    ensures var all := SlicesOf(moves, slots);
      (exists i, j :: 0 <= i < j < |all| && Overlap(all[i], all[j]))
      <==> (exists i, j :: 0 <= i < j < |moves| && moves[i].tile == moves[j].tile)
  {
    var all := SlicesOf(moves, slots);
    forall i, j | 0 <= i < j < |moves|
      ensures Overlap(all[i], all[j]) <==> moves[i].tile == moves[j].tile
    {
      hide SlicesOf, SliceOf, Overlap;
      SliceAt(moves, slots, i);
      SliceAt(moves, slots, j);
      assert moves[i] in moves && moves[j] in moves;
      SlotsMeet(moves[i], moves[j], slots);
    }
  }
}
