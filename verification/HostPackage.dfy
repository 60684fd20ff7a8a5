/** A whole package on the device (crates/ipu-codegen/src/host.rs, crates/ipu-driver/src/lib.rs,
    crates/ipu-tests/src/diagnostic.rs): its calls are planned, the weights are loaded by the
    initialization call, and the run call takes the input and returns the output. */
module HostPackage {
  import opened HostPlan
  import opened HostBatches
  import opened HostCalls
  import opened HostArena
  import opened HostSession
  import opened HostFiles

  /** Bindings without a page move nothing. */
  lemma NothingDelivered(bindings: seq<Binding>, input: seq<byte>, tiles: Memory)
    requires Schedules([], Pages(MovesOf(bindings)))
    ensures DeliversTo(MovesOf(bindings), input, tiles, tiles)
  {
    hide MovesOf, Schedules, Pages;
    ScheduleDelivers([], bindings, input, tiles, tiles);
  }

  lemma ScheduledOutputs(batches: seq<seq<Move>>, bindings: seq<Binding>)
    requires Schedules(batches, Pages(MovesOf(bindings))) && Pages(MovesOf(bindings)) != []
    ensures batches != []
  {
    hide MovesOf, Pages, OnTile;
    var page := Pages(MovesOf(bindings))[0];
    SameMembers(batches, Pages(MovesOf(bindings)), page);
  }

  lemma RealizedSchedules(c: PlannedCall, s: Schedule, inputs: seq<Binding>, outputs: seq<Binding>, staging: nat)
    requires Realizes(c, s, inputs, outputs, staging)
    ensures Schedules(s.inputs, Pages(MovesOf(inputs))) && Schedules(s.outputs, Pages(MovesOf(outputs)))
    ensures |c.call.inputBatchEnds| == |s.inputs|
  {
  }

  /** One call on a device that holds `tiles`. */
  method RunCall(planned: PlannedCall, storage: array<byte>, input: seq<byte>, inputBatches: nat, compute: Memory -> Memory,
                 late: nat -> bool, tiles: Memory, ghost s: Schedule, ghost inputs: seq<Binding>, ghost outputs: seq<Binding>, ghost staging: nat)
    returns (r: Result<seq<byte>>, after: Memory, ghost loaded: Memory)
    requires Realizes(planned, s, inputs, outputs, staging) && inputBatches == |s.inputs|
    requires planned.call.phases == 2 * s.Batches() || planned.call.phases == 2 * s.Batches() - 1
             || planned.call.phases == s.Batches() == 0
    requires |s.slots| * PAGE <= storage.Length && |s.slots| <= U16_LIMIT
    modifies storage
    ensures r.Ok? <==> |input| == HostDataSize(planned.call.inputs)
    ensures r.Ok? ==> |r.value| == HostDataSize(planned.call.outputs)
    ensures r.Ok? ==> DeliversTo(MovesOf(inputs), input, tiles, loaded)
    ensures r.Ok? && s.outputs == [] ==> after == loaded
    ensures r.Ok? && s.outputs != [] ==> Returns(r.value, MovesOf(outputs), compute(loaded))
  {
    hide Realizes, MovesOf, DeliversTo, Returns, HostDataSize;
    var device := new Device(planned.program, inputBatches, 0, compute, late, tiles);
    var session := new HostSession(storage, device, 0);
    r := RunPlanned(session, planned, input, Run(s, 0, staging, input), inputs, outputs, tiles);
    after := device.tiles;
    loaded := if s.outputs == [] then device.tiles else device.loaded;
  }

  /** Whatever bindings a package has: if it can be planned and both files have the length of
      their calls, the weights and then the input reach every bound tile address, the program
      runs on exactly that memory, and every bound output byte is returned. */
  method RunPackage(weights: seq<Binding>, inputs: seq<Binding>, outputs: seq<Binding>, staging: nat,
                    executionTiles: nat, planTile: (nat, seq<seq<Transfer>>) -> bool,
                    weightFile: seq<byte>, input: seq<byte>, compute: Memory -> Memory, late: nat -> bool, tiles: Memory)
    returns (r: Result<seq<byte>>, ghost initialized: Memory, ghost loaded: Memory,
             ghost initialize: PlannedCall, ghost graph: PlannedCall)
    requires AddressesFit(weights) && AddressesFit(inputs) && AddressesFit(outputs)
    // A package without any binding has no calls that could be made.
    ensures r.Ok? <==>
            && !(weights == inputs == outputs == []) && FitsAll(weights, inputs, outputs) && EncodesAll(weights, inputs, outputs, staging)
            && AllPlanned(planTile, executionTiles, initialize.program + graph.program)
            && (initialize.program == [] || |weightFile| == HostDataSize(initialize.call.inputs))
            && |input| == HostDataSize(graph.call.inputs)
    ensures r.Ok? ==> DeliversTo(MovesOf(weights), weightFile, tiles, initialized)
    ensures r.Ok? ==> DeliversTo(MovesOf(inputs), input, initialized, loaded)
    ensures r.Ok? && Pages(MovesOf(outputs)) != [] ==> Returns(r.value, MovesOf(outputs), compute(loaded))
    // On the bindings alone: every address holds the file byte at the start of its binding's region plus the
    // slice's offset, the output is filled likewise, and no file is longer or shorter than the regions.
    ensures r.Ok? ==> Places(weights, weightFile, tiles, initialized) && (initialize.program == [] || Ends(weights, |weightFile|))
    ensures r.Ok? ==> Places(inputs, input, initialized, loaded) && Ends(inputs, |input|)
    ensures r.Ok? ==> Gives(outputs, r.value, compute(loaded))
  {
    hide Places, Ends, Gives, FitsAll, EncodesAll, AllPlanned, AddressesFit, Realizes, MovesOf, Pages, Schedules, DeliversTo, Returns, HostDataSize;
    ghost var setup, run;
    var plan;
    plan, setup, run, initialize, graph := Plan(weights, inputs, outputs, staging, executionTiles, planTile);
    initialized, loaded := tiles, tiles;
    if plan.Failed? || plan.value.calls == [] {
      return Failed, initialized, loaded, initialize, graph;
    }
    var calls := plan.value.calls;
    var storage := new byte[plan.value.arenaBytes];
    var memory := tiles;
    RealizedSchedules(initialize, setup, weights, [], staging);
    RealizedSchedules(graph, run, inputs, outputs, staging);
    SetupOnly(initialize, setup, weights, staging);
    CallEnds(initialize, setup, weights, [], staging);
    CallEnds(graph, run, inputs, outputs, staging);
    if |calls| == 2 {
      var done;
      done, memory, initialized := RunCall(calls[0], storage, weightFile, |calls[0].call.inputBatchEnds|, compute, late, tiles, setup, weights, [], staging);
      if done.Failed? {
        return Failed, initialized, loaded, initialize, graph;
      }
      DeliveredPlaces(weights, weightFile, tiles, initialized, |weightFile|);
    } else {
      NothingDelivered(weights, weightFile, tiles);
      NoPagesEnd(weights);
      DeliveredPlaces(weights, weightFile, tiles, initialized, 0);
    }
    var last := calls[|calls| - 1];
    var after;
    r, after, loaded := RunCall(last, storage, input, |last.call.inputBatchEnds|, compute, late, memory, run, inputs, outputs, staging);
    if Pages(MovesOf(outputs)) != [] {
      ScheduledOutputs(run.outputs, outputs);
    }
    if r.Ok? {
      DeliveredPlaces(inputs, input, initialized, loaded, |input|);
      ReturnedGives(run.outputs, outputs, r.value, compute(loaded));
    }
  }
}
