/** Driving a host call (crates/ipu-driver/src/lib.rs).

    A streaming call loads each input batch just before it releases the device, and saves
    each output batch just before the next one overwrites its slots. A prepared call
    loads everything first and saves everything last; it is used only when no two pages
    share a slot. Both deliver the input file to the tiles and return the output file. */
module HostSession {
  import opened HostPlan
  import opened HostBatches
  import opened HostCalls
  import opened HostArena

  /** The length of the file region that some slices cover. */
  function HostDataSize(slices: seq<HostSlice>): nat
  {
    if slices == [] then 0
    else
      var last := slices[|slices| - 1];
      Max2(HostDataSize(slices[..|slices| - 1]), last.fileOffset + last.size)
  }

  lemma {:induction false} HostDataSizeBounds(slices: seq<HostSlice>, i: nat)
    requires i < |slices|
    ensures slices[i].fileOffset + slices[i].size <= HostDataSize(slices)
  {
    if i < |slices| - 1 {
      HostDataSizeBounds(slices[..|slices| - 1], i);
    }
  }

  /** Every byte of the partial output is the one the captured moves determine. */
  ghost predicate CapturedSoFar(output: seq<byte>, done: seq<Move>, mem: Memory) {
    forall p :: 0 <= p < |output| ==> output[p] == Captured(done, mem, p)
  }

  lemma CaptureOne(output: seq<byte>, done: seq<Move>, m: Move, mem: Memory)
    requires CapturedSoFar(output, done, mem) && m.fileOffset + m.size <= |output|
    ensures CapturedSoFar(Splice(output, m.fileOffset, FromTiles(mem).Data(m)), done + [m], mem)
  {
    assert (done + [m])[..|done|] == done;
  }

  lemma NothingCaptured(output: seq<byte>, a: Memory, b: Memory)
    ensures CapturedSoFar(output, [], a) == CapturedSoFar(output, [], b)
  {
  }

  /** Deliveries compose. */
  lemma ChainDelivery(first: seq<Move>, second: seq<Move>, input: seq<byte>, a: Memory, b: Memory, c: Memory)
    requires DeliversTo(first, input, a, b) && DeliversTo(second, input, b, c)
    ensures DeliversTo(first + second, input, a, c)
  {
    forall t: nat, address: nat
      ensures c(t, address) == Delivered(first + second, input, a, t, address)
    {
      LastWriteAppend(first, second, t, address);
      assert b(t, address) == Delivered(first, input, a, t, address);
    }
  }

  /** Slices `start..end` of a call encode the moves `moves`. */
  ghost predicate Encode(slices: seq<HostSlice>, moves: seq<Move>, slots: Slots) {
    |slices| == |moves| && forall i :: 0 <= i < |moves| ==> slices[i] == SliceOf(moves[i], slots)
  }

  lemma WholeEncodes(moves: seq<Move>, slots: Slots)
    ensures Encode(SlicesOf(moves, slots), moves, slots)
  {
    hide SlicesOf, SliceOf;
    forall i | 0 <= i < |moves|
      ensures SlicesOf(moves, slots)[i] == SliceOf(moves[i], slots)
    {
      SliceAt(moves, slots, i);
    }
  }

  /** The batch range of a call selects the slices of that batch. */
  lemma BatchEncodes(batches: seq<seq<Move>>, ends: seq<nat>, slots: Slots, b: nat)
    requires EndsOf(ends, batches) && b < |batches|
    ensures var start, all := PreviousEnd(ends, b), SlicesOf(Flatten(batches), slots);
      start <= ends[b] <= |all| && Encode(all[start..ends[b]], batches[b], slots)
  {
    hide SlicesOf, SliceOf;
    StartOf(ends, batches, b);
    FlattenAt(batches, b);
    WholeEncodes(Flatten(batches), slots);
    var start, moves := PreviousEnd(ends, b), Flatten(batches);
    forall i | 0 <= i < |batches[b]|
      ensures SlicesOf(moves, slots)[start..ends[b]][i] == SliceOf(batches[b][i], slots)
    {
      assert moves[start..ends[b]][i] == moves[start + i];
    }
  }

  /** What a call changes, at one moment. */
  datatype Snapshot = Snapshot(
    streamed: Option<(seq<byte>, nat)>,
    storage: seq<byte>,
    tiles: Memory,
    loaded: Memory,
    compute: Memory -> Memory,
    acknowledgements: nat,
    late: nat -> bool)
  {
    /** The device has stored output batch `b`. */
    ghost predicate Emitted(run: Run, b: nat) {
      var phase := 2 * (|run.s.inputs| + b);
      acknowledgements > phase + 1 || (acknowledgements == phase + 1 && !late(b))
    }

    ghost predicate Saved(size: nat, done: seq<Move>, mem: Memory) {
      && streamed.Some? && |streamed.value.0| == size
      && streamed.value.1 == |done| && CapturedSoFar(streamed.value.0, done, mem)
    }

    /** The program has run on the delivered inputs. */
    ghost predicate Computed(run: Run, before: Memory) {
      DeliversTo(Flatten(run.s.inputs), run.input, before, loaded) && tiles == compute(loaded)
    }

    /** The state of a streaming call after the device has carried out `e` batches: all
        batches before the last output batch are saved, and that one is in place once stored. */
    ghost predicate Streaming(run: Run, size: nat, before: Memory, e: nat) {
      var n := |run.s.inputs|;
      && e <= run.s.Batches()
      && (e <= n ==>
            DeliversTo(Flatten(run.s.inputs[..e]), run.input, before, tiles) && Saved(size, [], tiles))
      && (e > n ==>
            && Computed(run, before)
            && (Emitted(run, e - n - 1) ==> run.OutputStored(storage, e - n - 1, tiles))
            && Saved(size, Flatten(run.s.outputs[..e - n - 1]), tiles))
    }

    /** The first `done` output batches are saved; the others are still in their slots. */
    ghost predicate Pending(run: Run, size: nat, done: nat) {
      && done <= |run.s.outputs|
      && (if streamed.None? then done == 0 else Saved(size, Flatten(run.s.outputs[..done]), tiles))
      && forall b :: done <= b < |run.s.outputs| && Emitted(run, b) ==> run.OutputStored(storage, b, tiles)
    }

    /** The state of a prepared call after `e` batches: every input page is still in its
        slot and every output page so far is in its own. */
    ghost predicate Prepared(run: Run, before: Memory, e: nat) {
      var n := |run.s.inputs|;
      && e <= run.s.Batches() && streamed.None?
      && run.Place().HoldsAll(storage, Flatten(run.s.inputs), run.Source())
      && (e <= n ==> DeliversTo(Flatten(run.s.inputs[..e]), run.input, before, tiles))
      && (e > n ==> Computed(run, before) && forall b :: 0 <= b < e - n && Emitted(run, b) ==> run.OutputStored(storage, b, tiles))
    }

    /** A finished call: the inputs were delivered, the program ran on them, and the output
        holds what the output pages moved. */
    ghost predicate Completed(run: Run, before: Memory, output: seq<byte>) {
      if run.s.outputs == [] then DeliversTo(Flatten(run.s.inputs), run.input, before, tiles)
      else Computed(run, before) && CapturedSoFar(output, Flatten(run.s.outputs), tiles)
    }

    /** The same state when the host has prepared batch `b` and is about to release it. */
    ghost predicate Staged(run: Run, size: nat, before: Memory, b: nat) {
      var n := |run.s.inputs|;
      && b < run.s.Batches()
      && (b < n ==> run.InputLoaded(storage, b) && Streaming(run, size, before, b))
      && (b >= n ==> Saved(size, Flatten(run.s.outputs[..b - n]), if b == n then compute(tiles) else tiles))
      && (b == n ==> DeliversTo(Flatten(run.s.inputs), run.input, before, tiles))
      && (b > n ==> Computed(run, before))
    }
  }

  class HostSession {
    const storage: array<byte>
    const device: Device

    /** Where page 1, the arena, starts in the storage. */
    const base: nat

    /** The output of a streaming call so far, and how many slices it holds. */
    var streamedOutput: Option<(seq<byte>, nat)>

    constructor (storage: array<byte>, device: Device, base: nat)
      ensures this.storage == storage && this.device == device && this.base == base
      ensures streamedOutput == None
    {
      this.storage, this.device, this.base := storage, device, base;
      streamedOutput := None;
    }

    /** The call is the one that the device program was planned with. */
    ghost predicate Ready(call: HostCall, run: Run) {
      && device.Runs(run, storage.Length) && base == run.base
      && call.inputs == SlicesOf(Flatten(run.s.inputs), run.s.slots)
      && call.outputs == SlicesOf(Flatten(run.s.outputs), run.s.slots)
      && EndsOf(call.inputBatchEnds, run.s.inputs)
      && EndsOf(call.outputBatchEnds, run.s.outputs)
      && (forall b :: 0 <= b < |run.s.outputs| ==> run.s.outputs[b] != [])
      && (forall m :: m in Flatten(run.s.outputs) ==> m.fileOffset + m.size <= HostDataSize(call.outputs))
      && (call.phases == 2 * run.s.Batches() || call.phases == 2 * run.s.Batches() - 1
          || call.phases == run.s.Batches() == 0)
    }

    /** Copy the slices of one range of the input file to their slots. */
    method CopyInput(slices: seq<HostSlice>, input: seq<byte>, ghost moves: seq<Move>, ghost run: Run)
      requires run.Place().Has(moves, storage.Length) && base == run.base && input == run.input
      requires Encode(slices, moves, run.s.slots) && OnePerTile(moves)
      requires forall m :: m in moves ==> run.Source().Defines(m)
      modifies storage
      ensures run.Place().HoldsAll(storage[..], moves, run.Source())
    {
      hide Splice, Arena.Holds, OnePerTile;
      for i := 0 to |slices|
        invariant forall j :: 0 <= j < i ==> run.Place().Holds(storage[..], moves[j], run.Source())
      {
        ghost var m, was := moves[i], storage[..];
        assert m in moves;
        SlotInBounds(run.Place(), moves, storage.Length, m);
        var slice := slices[i];
        Store(storage, base + slice.pageOffset, input[slice.fileOffset..slice.fileOffset + slice.size]);
        FillSlot(run.Place(), was, moves, m, run.Source());
        forall j | 0 <= j < i
          ensures run.Place().Holds(storage[..], moves[j], run.Source())
        {
          DistinctTiles(moves, j, i);
          assert moves[j] in moves;
        }
      }
    }

    /** Save the slices of one range to the output file. */
    method CaptureOutput(slices: seq<HostSlice>, output: (seq<byte>, nat),
                         ghost done: seq<Move>, ghost moves: seq<Move>, ghost mem: Memory, ghost run: Run)
      returns (next: (seq<byte>, nat))
      requires run.Place().Has(moves, storage.Length) && base == run.base
      requires Encode(slices, moves, run.s.slots)
      requires run.Place().HoldsAll(storage[..], moves, FromTiles(mem))
      requires forall m :: m in moves ==> m.fileOffset + m.size <= |output.0|
      requires CapturedSoFar(output.0, done, mem)
      ensures |next.0| == |output.0| && next.1 == output.1 + |moves|
      ensures CapturedSoFar(next.0, done + moves, mem)
    {
      hide Splice, Captured;
      next := output;
      assert done + moves[..0] == done;
      for i := 0 to |slices|
        invariant |next.0| == |output.0| && next.1 == output.1 + i
        invariant CapturedSoFar(next.0, done + moves[..i], mem)
      {
        ghost var m := moves[i];
        assert m in moves;
        SlotInBounds(run.Place(), moves, storage.Length, m);
        var slice := slices[i];
        assert run.Place().Holds(storage[..], m, FromTiles(mem));
        CaptureOne(next.0, done + moves[..i], m, mem);
        assert done + moves[..i] + [m] == done + moves[..i + 1];
        next := (Splice(next.0, slice.fileOffset, storage[base + slice.pageOffset..base + slice.pageOffset + slice.size]),
                 next.1 + 1);
      }
      assert moves[..|moves|] == moves;
    }

    // -------------------------------------------------------------------------
    // Streaming calls
    // -------------------------------------------------------------------------

    ghost function Now(): Snapshot
      reads this, storage, device
    {
      Snapshot(streamedOutput, storage[..], device.tiles, device.loaded, device.compute, device.acknowledgements, device.late)
    }

    /** What the host does before it acknowledges the even phase of batch `b`. */
    method StageBatch(call: HostCall, input: seq<byte>, b: nat, ghost before: Memory, ghost run: Run)
      requires Ready(call, run) && input == run.input && b < run.s.Batches() && device.acknowledgements == 2 * b
      requires Now().Streaming(run, HostDataSize(call.outputs), before, b)
      modifies storage, this`streamedOutput
      ensures Now().Staged(run, HostDataSize(call.outputs), before, b)
    {
      hide DeliversTo, CapturedSoFar, Plays, Run.KeepsOthers, SlicesOf, OnePerTile, Arena.Holds, HostDataSize;
      assert run.s.inputs[..|run.s.inputs|] == run.s.inputs;
      if b < |call.inputBatchEnds| {
        InputHasPlace(run, b, storage.Length);
        BatchEncodes(run.s.inputs, call.inputBatchEnds, run.s.slots, b);
        CopyInput(call.inputs[PreviousEnd(call.inputBatchEnds, b)..call.inputBatchEnds[b]], input, run.s.inputs[b], run);
      } else {
        var output := b - |call.inputBatchEnds|;
        if output != 0 {
          ghost var saved := run.s.outputs[..output - 1];
          OutputHasPlace(run, output - 1, storage.Length);
          OutputFits(call, run, output - 1);
          BatchEncodes(run.s.outputs, call.outputBatchEnds, run.s.slots, output - 1);
          var next := CaptureOutput(
            call.outputs[PreviousEnd(call.outputBatchEnds, output - 1)..call.outputBatchEnds[output - 1]],
            streamedOutput.value, Flatten(saved), run.s.outputs[output - 1], device.tiles, run);
          streamedOutput := Some(next);
          assert run.s.outputs[..output][..output - 1] == saved;
        } else {
          assert run.s.outputs[..0] == [];
          NothingCaptured(streamedOutput.value.0, device.tiles, device.compute(device.tiles));
        }
      }
    }

    lemma OutputFits(call: HostCall, run: Run, b: nat)
      requires Ready(call, run) && b < |run.s.outputs|
      ensures forall m :: m in run.s.outputs[b] ==> m.fileOffset + m.size <= HostDataSize(call.outputs)
    {
      OutputHasPlace(run, b, storage.Length);
    }

    /** Releasing batch `b` takes the streaming state one batch further. */
    method ReleaseBatch(call: HostCall, b: nat, ghost before: Memory, ghost run: Run)
      requires Ready(call, run) && device.acknowledgements == 2 * b
      requires Now().Staged(run, HostDataSize(call.outputs), before, b)
      modifies storage, device
      ensures Now().Streaming(run, HostDataSize(call.outputs), before, b + 1)
      ensures device.acknowledgements == 2 * b + 1
    {
      hide DeliversTo, CapturedSoFar, Run.OutputStored, Run.InputLoaded, Run.Valid, Run.KeepsOthers, Plays, EndsOf,
           HostDataSize;
      ghost var was, n := device.tiles, |run.s.inputs|;
      device.Acknowledge(storage, run);
      if b < n {
        assert run.s.inputs[..b + 1][..b] == run.s.inputs[..b];
        ChainDelivery(Flatten(run.s.inputs[..b]), run.s.inputs[b], run.input, before, was, device.tiles);
        NothingCaptured(streamedOutput.value.0, was, device.tiles);
      }
    }

    /** The odd phase after batch `b` leaves the streaming state as it is. */
    method PassOdd(call: HostCall, b: nat, ghost before: Memory, ghost run: Run)
      requires Ready(call, run) && device.acknowledgements == 2 * b + 1
      requires Now().Streaming(run, HostDataSize(call.outputs), before, b + 1)
      modifies storage, device
      ensures Now().Streaming(run, HostDataSize(call.outputs), before, b + 1)
      ensures device.acknowledgements == 2 * b + 2
    {
      hide DeliversTo, CapturedSoFar, Run.OutputStored, Run.InputLoaded, Run.Valid, Run.KeepsOthers, Plays, EndsOf,
           HostDataSize;
      device.Acknowledge(storage, run);
    }

    method InvokeStreamingDeferred(call: HostCall, input: seq<byte>, ghost before: Memory, ghost run: Run)
      returns (ok: bool)
      requires |input| == HostDataSize(call.inputs) ==> Ready(call, run) && input == run.input
      requires device.acknowledgements == 0 && device.tiles == before
      modifies storage, device, this`streamedOutput
      ensures ok <==> |input| == HostDataSize(call.inputs)
      ensures !ok ==> device.tiles == before && device.acknowledgements == 0 && streamedOutput == old(streamedOutput)
      ensures ok ==> Now().Streaming(run, HostDataSize(call.outputs), before, run.s.Batches())
      ensures ok ==> device.acknowledgements == call.phases
    {
      hide Snapshot.Streaming, Ready, HostDataSize, Zeros;
      ok := |input| == HostDataSize(call.inputs);
      if ok {
        streamedOutput := Some((Zeros(HostDataSize(call.outputs)), 0));
        StreamingStarts(run, HostDataSize(call.outputs), Now());
        DriveStreaming(call, input, before, run);
      }
    }

    /** The rendezvous of all phases. */
    method DriveStreaming(call: HostCall, input: seq<byte>, ghost before: Memory, ghost run: Run)
      requires Ready(call, run) && input == run.input && device.acknowledgements == 0
      requires Now().Streaming(run, HostDataSize(call.outputs), before, 0)
      modifies storage, device, this`streamedOutput
      ensures Now().Streaming(run, HostDataSize(call.outputs), before, run.s.Batches())
      ensures device.acknowledgements == call.phases
    {
      hide Snapshot.Streaming, Ready, HostDataSize;
      ReadyPhases(call, run);
      for phase := 0 to call.phases
        invariant device.acknowledgements == phase
        invariant Now().Streaming(run, HostDataSize(call.outputs), before, (phase + 1) / 2)
      {
        StreamPhase(call, input, phase, before, run);
      }
    }

    lemma ReadyPhases(call: HostCall, run: Run)
      requires Ready(call, run)
      ensures (call.phases + 1) / 2 == run.s.Batches()
    {
    }

    /** One phase of the rendezvous: stage on even phases, then acknowledge. */
    method StreamPhase(call: HostCall, input: seq<byte>, phase: nat, ghost before: Memory, ghost run: Run)
      requires Ready(call, run) && input == run.input && phase < call.phases
      requires device.acknowledgements == phase
      requires Now().Streaming(run, HostDataSize(call.outputs), before, (phase + 1) / 2)
      modifies storage, device, this`streamedOutput
      ensures Now().Streaming(run, HostDataSize(call.outputs), before, (phase + 2) / 2)
      ensures device.acknowledgements == phase + 1
    {
      hide Snapshot.Streaming, Snapshot.Staged, HostDataSize, Run.Valid, Plays, EndsOf, SlicesOf;
      ReadyPhases(call, run);
      if phase % 2 == 0 {
        StageBatch(call, input, phase / 2, before, run);
        ReleaseBatch(call, phase / 2, before, run);
      } else {
        PassOdd(call, phase / 2, before, run);
      }
    }

    // -------------------------------------------------------------------------
    // Prepared calls
    // -------------------------------------------------------------------------

    /** Fill the slots of the output pages with a byte pattern. */
    method PoisonOutput(slices: seq<HostSlice>, ghost moves: seq<Move>, ghost run: Run)
      requires run.Valid(storage.Length) && base == run.base && Encode(slices, moves, run.s.slots)
      requires forall m :: m in moves ==> m in run.All()
      modifies storage
      ensures run.KeepsOthers(moves, old(storage[..]), storage[..])
      ensures OnePerTile(moves) ==> run.Place().HoldsAll(storage[..], moves, Poison)
    {
      hide Splice, Arena.Holds, Poisoned, OnePerTile;
      for i := 0 to |slices|
        invariant run.KeepsOthers(moves, old(storage[..]), storage[..])
        invariant OnePerTile(moves) ==> forall j :: 0 <= j < i ==> run.Place().Holds(storage[..], moves[j], Poison)
      {
        ghost var m, was := moves[i], storage[..];
        assert m in moves;
        SlotInBounds(run.Place(), run.All(), storage.Length, m);
        var slice := slices[i];
        Store(storage, base + slice.pageOffset, Poisoned(slice.size));
        FillSlot(run.Place(), was, run.All(), m, Poison);
        forall j | OnePerTile(moves) && 0 <= j < i
          ensures run.Place().Holds(storage[..], moves[j], Poison)
        {
          DistinctTiles(moves, j, i);
          assert moves[j] in moves;
        }
      }
    }

    method Prepare(call: HostCall, input: seq<byte>, ghost before: Memory, ghost run: Run) returns (ok: bool)
      requires |input| == HostDataSize(call.inputs) ==>
                 Ready(call, run) && input == run.input && OnePerTile(run.All())
      requires streamedOutput == None && device.tiles == before
      modifies storage
      ensures ok <==> |input| == HostDataSize(call.inputs)
      ensures ok ==> Now().Prepared(run, before, 0)
      ensures ok ==> run.Place().HoldsAll(storage[..], Flatten(run.s.outputs), Poison)
    {
      hide Arena.Holds, HostDataSize, OnePerTile, SlicesOf, Plays, EndsOf;
      ok := |input| == HostDataSize(call.inputs);
      if ok {
        Separate(run);
        WholeEncodes(Flatten(run.s.inputs), run.s.slots);
        WholeEncodes(Flatten(run.s.outputs), run.s.slots);
        HasPart(run.Place(), run.All(), Flatten(run.s.inputs), storage.Length);
        CopyInput(call.inputs, input, Flatten(run.s.inputs), run);
        PoisonOutput(call.outputs, Flatten(run.s.outputs), run);
        assert run.s.inputs[..0] == [];
      }
    }

    /** The rendezvous of a prepared call stages nothing between phases. */
    method DrivePrepared(call: HostCall, ghost before: Memory, ghost run: Run)
      requires Ready(call, run) && OnePerTile(run.All()) && device.acknowledgements == 0
      requires Now().Prepared(run, before, 0)
      modifies storage, device
      ensures Now().Prepared(run, before, run.s.Batches())
      ensures device.acknowledgements == call.phases
    {
      hide Snapshot.Prepared, Ready, OnePerTile;
      ReadyPhases(call, run);
      for phase := 0 to call.phases
        invariant device.acknowledgements == phase
        invariant Now().Prepared(run, before, (phase + 1) / 2)
      {
        PreparedPhase(call, phase, before, run);
      }
    }

    method PreparedPhase(call: HostCall, phase: nat, ghost before: Memory, ghost run: Run)
      requires Ready(call, run) && OnePerTile(run.All()) && phase < call.phases
      requires device.acknowledgements == phase && Now().Prepared(run, before, (phase + 1) / 2)
      modifies storage, device
      ensures Now().Prepared(run, before, (phase + 2) / 2)
      ensures device.acknowledgements == phase + 1
    {
      hide Arena.Holds, Arena.HoldsAll, OnePerTile, Plays, EndsOf, DeliversTo, Run.Valid, Run.KeepsOthers, Run.OutputStored,
           Snapshot.Prepared, Run.InputLoaded;
      ReadyPhases(call, run);
      ghost var was := Now();
      PreparedInput(run, before, was, phase, storage.Length);
      device.Acknowledge(storage, run);
      if phase / 2 < |run.s.inputs| {
        PreparedFetches(run, before, was, Now(), phase);
      } else {
        PreparedStores(run, before, was, Now(), phase);
      }
    }

    /** Release the deferred last phase, if there is one, and collect the output. */
    method Finish(call: HostCall, ghost done: nat, ghost run: Run) returns (output: seq<byte>)
      requires Ready(call, run) && device.acknowledgements == call.phases
      requires Now().Pending(run, HostDataSize(call.outputs), done)
      requires OnePerTile(run.All()) || done + 1 >= |run.s.outputs|
      modifies storage, device, this`streamedOutput
      ensures |output| == HostDataSize(call.outputs) && streamedOutput == None
      ensures CapturedSoFar(output, Flatten(run.s.outputs), device.tiles)
      ensures device.tiles == old(device.tiles) && device.loaded == old(device.loaded)
    {
      hide CapturedSoFar, Run.Valid, Run.KeepsOthers, Plays, EndsOf, SlicesOf, Run.OutputStored, HostDataSize;
      if call.outputs != [] && call.phases % 2 != 0 {
        device.Acknowledge(storage, run);
        ghost var last := |run.s.outputs| - 1;
        if device.late(last) {
          forall c | done <= c < last
            ensures run.OutputStored(storage[..], c, device.tiles)
          {
            KeepsStored(run, last, c, old(storage[..]), storage[..], device.tiles);
          }
        }
      }
      output := Collect(call, done, run);
    }

    method Collect(call: HostCall, ghost done: nat, ghost run: Run) returns (output: seq<byte>)
      requires Ready(call, run) && Now().Pending(run, HostDataSize(call.outputs), done)
      requires run.s.outputs != [] ==> device.acknowledgements >= 2 * run.s.Batches()
      modifies this`streamedOutput
      ensures |output| == HostDataSize(call.outputs) && streamedOutput == None
      ensures CapturedSoFar(output, Flatten(run.s.outputs), device.tiles)
    {
      hide CapturedSoFar, Run.Valid, Plays, EndsOf, SlicesOf, Arena.Holds;
      var partial := if streamedOutput.Some? then streamedOutput.value else (Zeros(HostDataSize(call.outputs)), 0);
      ZerosCaptureNothing(HostDataSize(call.outputs), device.tiles);
      streamedOutput := None;
      ghost var saved := Flatten(run.s.outputs[..done]);
      RestOfOutput(run, done, storage.Length);
      assert run.s.outputs[..0] == [];
      forall m | m in Flatten(run.s.outputs)[|saved|..]
        ensures run.Place().Holds(storage[..], m, FromTiles(device.tiles))
      {
        var b :| done <= b < |run.s.outputs| && m in run.s.outputs[b];
        assert run.OutputStored(storage[..], b, device.tiles);
      }
      var next := CaptureOutput(call.outputs[partial.1..], partial, saved, Flatten(run.s.outputs)[|saved|..], device.tiles, run);
      output := next.0;
    }

    /** One call, on whichever path its storage allows. */
    method Invoke(call: HostCall, input: seq<byte>, ghost before: Memory, ghost run: Run) returns (r: Result<seq<byte>>)
      requires |input| == HostDataSize(call.inputs) ==> Ready(call, run) && input == run.input
      requires streamedOutput == None && device.acknowledgements == 0 && device.tiles == before
      modifies storage, device, this`streamedOutput
      ensures r.Ok? <==> |input| == HostDataSize(call.inputs)
      ensures r.Ok? ==> |r.value| == HostDataSize(call.outputs) && Now().Completed(run, before, r.value)
      ensures streamedOutput == None
    {
      hide Ready, HostDataSize, OnePerTile, Snapshot.Streaming, Snapshot.Prepared, Snapshot.Completed, Snapshot.Pending;
      var reuses := HostCallReusesStorage(call);
      var ok, done := false, 0;
      if reuses {
        ok := InvokeStreamingDeferred(call, input, before, run);
      } else {
        if |input| == HostDataSize(call.inputs) {
          NoReuseMeansOnePage(call, run);
        }
        ok := Prepare(call, input, before, run);
        if ok {
          DrivePrepared(call, before, run);
        }
      }
      if !ok {
        return Failed;
      }
      ghost var end, saved := Now(), 0;
      if reuses {
        saved := StreamedEnds(run, HostDataSize(call.outputs), before, end);
      } else {
        PreparedEnds(run, HostDataSize(call.outputs), before, end);
      }
      var output := Finish(call, saved, run);
      CompletedAfter(run, before, end, Now(), output);
      r := Ok(output);
    }

    lemma NoReuseMeansOnePage(call: HostCall, run: Run)
      requires Ready(call, run)
      requires var all := call.inputs + call.outputs;
        forall i, j :: 0 <= i < j < |all| ==> !Overlap(all[i], all[j])
      ensures OnePerTile(run.All())
    {
      hide SlicesOf, Overlap, OnePerTile, OnTile;
      SlicesAppend(Flatten(run.s.inputs), Flatten(run.s.outputs), run.s.slots);
      ReuseIsTwoPages(run.All(), run.s.slots);
      AllDifferent(run.All());
    }
  }

  lemma AllDifferent(moves: seq<Move>)
    requires forall i, j :: 0 <= i < j < |moves| ==> moves[i].tile != moves[j].tile
    ensures OnePerTile(moves)
  {
    if moves != [] {
      var before, last := moves[..|moves| - 1], moves[|moves| - 1];
      AllDifferent(before);
      forall t: int
        ensures |OnTile(moves, t)| <= 1
      {
        if last.tile == t && OnTile(before, t) != [] {
          OnTileMembers(before, t, OnTile(before, t)[0]);
        }
      }
    }
  }

  /** The input batch of an even phase is loaded. */
  lemma PreparedInput(run: Run, before: Memory, was: Snapshot, phase: nat, length: nat)
    requires run.Valid(length) && was.Prepared(run, before, (phase + 1) / 2)
    ensures phase % 2 == 0 && phase / 2 < |run.s.inputs| ==> run.InputLoaded(was.storage, phase / 2)
  {
    hide Run.Valid, Arena.Holds, DeliversTo;
    if phase % 2 == 0 && phase / 2 < |run.s.inputs| {
      InputHasPlace(run, phase / 2, length);
    }
  }

  /** A phase of an input batch delivers it if it is even. */
  lemma PreparedFetches(run: Run, before: Memory, was: Snapshot, now: Snapshot, phase: nat)
    requires was.Prepared(run, before, (phase + 1) / 2) && phase / 2 < |run.s.inputs|
    requires now == was.(tiles := now.tiles, acknowledgements := phase + 1)
    requires if phase % 2 == 0 then DeliversTo(run.s.inputs[phase / 2], run.input, was.tiles, now.tiles) else now.tiles == was.tiles
    ensures now.Prepared(run, before, (phase + 2) / 2)
  {
    hide Arena.HoldsAll, DeliversTo, Run.OutputStored;
    var b := phase / 2;
    if phase % 2 == 0 {
      assert run.s.inputs[..b + 1][..b] == run.s.inputs[..b];
      ChainDelivery(Flatten(run.s.inputs[..b]), run.s.inputs[b], run.input, before, was.tiles, now.tiles);
    }
  }

  /** A phase of an output batch stores it or leaves the storage alone. */
  lemma PreparedStores(run: Run, before: Memory, was: Snapshot, now: Snapshot, phase: nat)
    requires was.Prepared(run, before, (phase + 1) / 2) && OnePerTile(run.All())
    requires var n := |run.s.inputs|; n <= phase / 2 < run.s.Batches()
    requires was.acknowledgements == phase
    requires now == was.(tiles := now.tiles, loaded := now.loaded, storage := now.storage, acknowledgements := phase + 1)
    requires if phase % 2 == 0 && phase / 2 == |run.s.inputs| then now.loaded == was.tiles && now.tiles == now.compute(now.loaded)
             else now.loaded == was.loaded && now.tiles == was.tiles
    requires var b := phase / 2 - |run.s.inputs|;
      if (phase % 2 != 0) == now.late(b) then
        run.OutputStored(now.storage, b, now.tiles) && run.KeepsOthers(run.s.outputs[b], was.storage, now.storage)
      else now.storage == was.storage
    ensures now.Prepared(run, before, (phase + 2) / 2)
  {
    hide Arena.Holds, OnePerTile, DeliversTo, Run.KeepsOthers, Run.OutputStored, Arena.HoldsAll;
    var n, b := |run.s.inputs|, phase / 2 - |run.s.inputs|;
    assert run.s.inputs[..n] == run.s.inputs;
    if (phase % 2 != 0) == now.late(b) {
      forall c | 0 <= c < b
        ensures run.OutputStored(was.storage, c, now.tiles) ==> run.OutputStored(now.storage, c, now.tiles)
      {
        if run.OutputStored(was.storage, c, now.tiles) {
          KeepsStored(run, b, c, was.storage, now.storage, now.tiles);
        }
      }
      KeepsLoaded(run, b, was.storage, now.storage);
    }
  }

  /** At the end of a streaming call only the last output batch is not yet saved. */
  lemma StreamedEnds(run: Run, size: nat, before: Memory, end: Snapshot) returns (done: nat)
    requires end.Streaming(run, size, before, run.s.Batches())
    ensures end.Pending(run, size, done) && done + 1 >= |run.s.outputs|
    ensures run.s.outputs != [] ==> end.Computed(run, before)
    ensures run.s.outputs == [] ==> DeliversTo(Flatten(run.s.inputs), run.input, before, end.tiles)
  {
    hide DeliversTo, CapturedSoFar, Run.OutputStored;
    done := if run.s.outputs == [] then 0 else |run.s.outputs| - 1;
    assert run.s.inputs[..|run.s.inputs|] == run.s.inputs;
    assert run.s.outputs[..0] == [];
  }

  lemma PreparedEnds(run: Run, size: nat, before: Memory, end: Snapshot)
    requires end.Prepared(run, before, run.s.Batches())
    ensures end.Pending(run, size, 0)
    ensures run.s.outputs != [] ==> end.Computed(run, before)
    ensures run.s.outputs == [] ==> DeliversTo(Flatten(run.s.inputs), run.input, before, end.tiles)
  {
    hide DeliversTo, CapturedSoFar, Run.OutputStored, Arena.HoldsAll;
    assert run.s.inputs[..|run.s.inputs|] == run.s.inputs;
  }

  lemma CompletedAfter(run: Run, before: Memory, end: Snapshot, now: Snapshot, output: seq<byte>)
    requires now.tiles == end.tiles && now.loaded == end.loaded && now.compute == end.compute
    requires run.s.outputs != [] ==> end.Computed(run, before)
    requires run.s.outputs == [] ==> DeliversTo(Flatten(run.s.inputs), run.input, before, end.tiles)
    requires CapturedSoFar(output, Flatten(run.s.outputs), now.tiles)
    ensures now.Completed(run, before, output)
  {
  }

  // ---------------------------------------------------------------------------
  // End to end
  // ---------------------------------------------------------------------------

  /** Every output byte comes from a tile byte that some output slice asks for; bytes that
      no slice asks for are zero, and no slice asks for a byte beyond the end. */
  ghost predicate Returns(output: seq<byte>, moves: seq<Move>, mem: Memory) {
    && (forall p: nat, t: nat, a: nat :: IsSource(moves, p, t, a) ==> p < |output|)
    && (forall p: nat :: p < |output| && (forall t: nat, a: nat :: !IsSource(moves, p, t, a)) ==> output[p] == 0)
    && (forall p: nat :: p < |output| && (exists t: nat, a: nat :: IsSource(moves, p, t, a)) ==>
          exists t: nat, a: nat :: IsSource(moves, p, t, a) && output[p] == mem(t, a))
  }

  /** Batches that keep the pages of every tile in order deliver what the bindings ask for. */
  lemma ScheduleDelivers(batches: seq<seq<Move>>, bindings: seq<Binding>, input: seq<byte>, before: Memory, after: Memory)
    requires Schedules(batches, Pages(MovesOf(bindings)))
    requires DeliversTo(Flatten(batches), input, before, after)
    ensures DeliversTo(MovesOf(bindings), input, before, after)
  {
    SameOnTiles(Flatten(batches), Pages(MovesOf(bindings)));
    forall t: nat, a: nat
      ensures after(t, a) == Delivered(MovesOf(bindings), input, before, t, a)
    {
      PagesKeepWrites(MovesOf(bindings), t, a);
      assert after(t, a) == Delivered(Flatten(batches), input, before, t, a);
    }
  }

  lemma ScheduleReturns(batches: seq<seq<Move>>, bindings: seq<Binding>, output: seq<byte>, mem: Memory)
    requires Schedules(batches, Pages(MovesOf(bindings)))
    requires CapturedSoFar(output, Flatten(batches), mem)
    requires forall m :: m in Flatten(batches) ==> m.fileOffset + m.size <= |output|
    ensures Returns(output, MovesOf(bindings), mem)
  {
    hide MovesOf, Flatten, Schedules, Captured;
    var moves, all := MovesOf(bindings), Flatten(batches);
    forall p: nat, t: nat, a: nat
      ensures IsSource(moves, p, t, a) <==> IsSource(all, p, t, a)
    {
      SameSources(batches, bindings, p, t, a);
    }
    forall p: nat | p < |output|
      ensures (forall t: nat, a: nat :: !IsSource(moves, p, t, a)) ==> output[p] == 0
      ensures (exists t: nat, a: nat :: IsSource(moves, p, t, a)) ==>
                exists t: nat, a: nat :: IsSource(moves, p, t, a) && output[p] == mem(t, a)
    {
      CapturedIsSource(all, mem, p);
    }
  }

  lemma SameSources(batches: seq<seq<Move>>, bindings: seq<Binding>, p: nat, t: nat, a: nat)
    requires Schedules(batches, Pages(MovesOf(bindings)))
    ensures IsSource(MovesOf(bindings), p, t, a) <==> IsSource(Flatten(batches), p, t, a)
  {
    SameOnTiles(Flatten(batches), Pages(MovesOf(bindings)));
    PagesKeepSources(MovesOf(bindings), p, t, a);
  }

  /** A planned call whose input has the right length meets every demand of the driver. */
  lemma PlannedRunIsValid(c: PlannedCall, run: Run, inputs: seq<Binding>, outputs: seq<Binding>, length: nat)
    requires Realizes(c, run.s, inputs, outputs, run.staging)
    requires |run.input| == HostDataSize(c.call.inputs)
    requires run.base + |run.s.slots| * PAGE <= length && |run.s.slots| <= U16_LIMIT
    ensures run.Valid(length)
    ensures forall m :: m in Flatten(run.s.outputs) ==> m.fileOffset + m.size <= HostDataSize(c.call.outputs)
  {
    hide Plays, SlicesOf, OnTile, HostDataSize, MovesOf, Flatten;
    var ins, outs := Flatten(run.s.inputs), Flatten(run.s.outputs);
    SameOnTiles(ins, Pages(MovesOf(inputs)));
    SameOnTiles(outs, Pages(MovesOf(outputs)));
    PageSizes(MovesOf(inputs));
    PageSizes(MovesOf(outputs));
    FileBounds(ins, run.s.slots);
    FileBounds(outs, run.s.slots);
  }

  lemma PageSizes(moves: seq<Move>)
    ensures forall page :: page in Pages(moves) ==> 0 < page.size <= PAGE
  {
    forall page | page in Pages(moves)
      ensures 0 < page.size <= PAGE
    {
      var m := PageComesFromMove(moves, page);
      PagesOfLieInside(m, page);
    }
  }

  lemma FileBounds(moves: seq<Move>, slots: Slots)
    ensures forall m :: m in moves ==> m.fileOffset + m.size <= HostDataSize(SlicesOf(moves, slots))
  {
    hide SlicesOf, HostDataSize;
    forall m | m in moves
      ensures m.fileOffset + m.size <= HostDataSize(SlicesOf(moves, slots))
    {
      var i: nat :| i < |moves| && moves[i] == m;
      SliceAt(moves, slots, i);
      HostDataSizeBounds(SlicesOf(moves, slots), i);
    }
  }

  /** A planned call, driven to its end: every tile address holds the last input byte that
      the input bindings place there, the program has run on exactly that memory, and the
      output file holds what the output bindings ask for of its result. */
  method RunPlanned(session: HostSession, planned: PlannedCall, input: seq<byte>, ghost run: Run,
                    ghost inputs: seq<Binding>, ghost outputs: seq<Binding>, ghost before: Memory)
    returns (r: Result<seq<byte>>)
    requires Realizes(planned, run.s, inputs, outputs, run.staging) && run.input == input
    requires planned.call.phases == 2 * run.s.Batches() || planned.call.phases == 2 * run.s.Batches() - 1
             || planned.call.phases == run.s.Batches() == 0
    requires session.device.program == planned.program && session.device.inputBatches == |run.s.inputs|
    requires session.device.base == session.base == run.base
    requires run.base + |run.s.slots| * PAGE <= session.storage.Length && |run.s.slots| <= U16_LIMIT
    requires session.streamedOutput == None
    requires session.device.acknowledgements == 0 && session.device.tiles == before
    modifies session.storage, session.device, session`streamedOutput
    ensures r.Ok? <==> |input| == HostDataSize(planned.call.inputs)
    ensures r.Ok? ==> |r.value| == HostDataSize(planned.call.outputs)
    ensures r.Ok? && run.s.outputs == [] ==> DeliversTo(MovesOf(inputs), input, before, session.device.tiles)
    ensures r.Ok? && run.s.outputs != [] ==>
              && DeliversTo(MovesOf(inputs), input, before, session.device.loaded)
              && Returns(r.value, MovesOf(outputs), session.device.compute(session.device.loaded))
  {
    hide Plays, SlicesOf, Flatten, MovesOf, HostDataSize, DeliversTo, CapturedSoFar, Returns, Run.Valid, Pages;
    if |input| == HostDataSize(planned.call.inputs) {
      PlannedRunIsValid(planned, run, inputs, outputs, session.storage.Length);
    }
    r := session.Invoke(planned.call, input, before, run);
    if r.Ok? {
      if run.s.outputs == [] {
        ScheduleDelivers(run.s.inputs, inputs, input, before, session.device.tiles);
      } else {
        ScheduleDelivers(run.s.inputs, inputs, input, before, session.device.loaded);
        ScheduleReturns(run.s.outputs, outputs, r.value, session.device.tiles);
      }
    }
  }

  /** When all pages belong to different tiles, so do the pages of different batches. */
  lemma Separate(run: Run)
    requires OnePerTile(run.All())
    ensures OnePerTile(Flatten(run.s.inputs)) && OnePerTile(Flatten(run.s.outputs))
    ensures forall m, o :: m in Flatten(run.s.inputs) && o in Flatten(run.s.outputs) ==> m.tile != o.tile
    ensures forall b, c, m, o ::
      (0 <= b < |run.s.outputs| && 0 <= c < |run.s.outputs| && b != c && m in run.s.outputs[b] && o in run.s.outputs[c])
      ==> m.tile != o.tile
  {
    hide OnTile, Flatten;
    var ins, outs := Flatten(run.s.inputs), Flatten(run.s.outputs);
    forall t: int
      ensures |OnTile(ins, t)| + |OnTile(outs, t)| <= 1
    {
      OnTileAppend(ins, outs, t);
    }
    forall m, o | m in ins && o in outs
      ensures m.tile != o.tile
    {
      OnTileMembers(ins, m.tile, m);
      OnTileMembers(outs, m.tile, o);
    }
    forall b, c, m, o | 0 <= b < |run.s.outputs| && 0 <= c < |run.s.outputs| && b != c
                        && m in run.s.outputs[b] && o in run.s.outputs[c]
      ensures m.tile != o.tile
    {
      if b < c {
        BatchesApart(run.s.outputs, b, c, m, o);
      } else {
        BatchesApart(run.s.outputs, c, b, o, m);
      }
    }
  }

  /** Emitting batch `b` of a prepared call leaves another stored batch in place. */
  lemma KeepsStored(run: Run, b: nat, c: nat, before: seq<byte>, after: seq<byte>, mem: Memory)
    requires OnePerTile(run.All()) && b < |run.s.outputs| && c < |run.s.outputs| && b != c
    requires run.KeepsOthers(run.s.outputs[b], before, after) && run.OutputStored(before, c, mem)
    ensures run.OutputStored(after, c, mem)
  {
    hide OnePerTile, Arena.Holds;
    Separate(run);
    forall o | o in run.s.outputs[c]
      ensures run.Place().Holds(after, o, FromTiles(mem))
    {
      FlattenMember(run.s.outputs, c, o);
      assert o in run.All() && run.Place().Holds(before, o, FromTiles(mem));
    }
  }

  lemma KeepsLoaded(run: Run, b: nat, before: seq<byte>, after: seq<byte>)
    requires OnePerTile(run.All()) && b < |run.s.outputs|
    requires run.KeepsOthers(run.s.outputs[b], before, after)
    requires run.Place().HoldsAll(before, Flatten(run.s.inputs), run.Source())
    ensures run.Place().HoldsAll(after, Flatten(run.s.inputs), run.Source())
  {
    hide OnePerTile, Arena.Holds;
    Separate(run);
    forall m | m in run.s.outputs[b]
      ensures m in Flatten(run.s.outputs)
    {
      FlattenMember(run.s.outputs, b, m);
    }
    forall o | o in Flatten(run.s.inputs)
      ensures run.Place().Holds(after, o, run.Source())
    {
      assert o in run.All() && run.Place().Holds(before, o, run.Source());
    }
  }

  lemma BatchesApart(batches: seq<seq<Move>>, b: nat, c: nat, m: Move, o: Move)
    requires OnePerTile(Flatten(batches)) && b < c < |batches| && m in batches[b] && o in batches[c]
    ensures m.tile != o.tile
  {
    hide OnePerTile, Flatten;
    var i: nat :| i < |batches[b]| && batches[b][i] == m;
    var j: nat :| j < |batches[c]| && batches[c][j] == o;
    FlattenAt(batches, b);
    FlattenAt(batches, c);
    FlattenPrefix(batches[..c], b + 1);
    assert batches[..c][..b + 1] == batches[..b + 1];
    var all := Flatten(batches);
    var start, other := |Flatten(batches[..b])|, |Flatten(batches[..c])|;
    assert all[start + i] == all[start..start + |batches[b]|][i];
    assert all[other + j] == all[other..other + |batches[c]|][j];
    DistinctTiles(all, start + i, other + j);
  }

  function Zeros(n: nat): (r: seq<byte>)
    ensures |r| == n && forall p :: 0 <= p < n ==> r[p] == 0
  {
    seq(n, _ => 0)
  }

  lemma ZerosCaptureNothing(n: nat, mem: Memory)
    ensures CapturedSoFar(Zeros(n), [], mem)
  {
  }

  lemma StreamingStarts(run: Run, size: nat, now: Snapshot)
    requires now.streamed == Some((Zeros(size), 0))
    ensures now.Streaming(run, size, now.tiles, 0)
  {
  }

  /** What remains after the first `done` output batches is the pages of the others. */
  lemma RestOfOutput(run: Run, done: nat, length: nat)
    requires run.Valid(length) && done <= |run.s.outputs|
    ensures var all, saved := Flatten(run.s.outputs), Flatten(run.s.outputs[..done]);
      && |saved| <= |all| && saved + all[|saved|..] == all
      && run.Place().Has(all[|saved|..], length)
      && Encode(SlicesOf(all, run.s.slots)[|saved|..], all[|saved|..], run.s.slots)
      && forall m :: m in all[|saved|..] ==> m in all && exists b :: done <= b < |run.s.outputs| && m in run.s.outputs[b]
  {
    hide SlicesOf, SliceOf, OnePerTile;
    var all, saved := Flatten(run.s.outputs), Flatten(run.s.outputs[..done]);
    FlattenPrefix(run.s.outputs, done);
    assert done == |run.s.outputs| ==> run.s.outputs[..done] == run.s.outputs;
    forall m | m in all[|saved|..]
      ensures m in run.All() && m in all && exists b :: done <= b < |run.s.outputs| && m in run.s.outputs[b]
    {
      var b := LaterBatch(run.s.outputs, done, m);
    }
    HasPart(run.Place(), run.All(), all[|saved|..], length);
    WholeEncodes(all, run.s.slots);
  }

  lemma {:induction false} LaterBatch(batches: seq<seq<Move>>, done: nat, m: Move) returns (b: nat)
    requires done < |batches| && |Flatten(batches[..done])| <= |Flatten(batches)|
    requires m in Flatten(batches)[|Flatten(batches[..done])|..]
    ensures done <= b < |batches| && m in batches[b]
    decreases |batches|
  {
    var before := batches[..|batches| - 1];
    assert before[..done] == batches[..done];
    assert done == |before| ==> before[..done] == before;
    FlattenPrefix(before, done);
    if m in batches[|batches| - 1] {
      b := |batches| - 1;
    } else {
      b := LaterBatch(before, done, m);
    }
  }
}
