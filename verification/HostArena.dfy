/** The page arena that host and device share, and the device as an agent.

    The device is abstract: after the host acknowledges the even phase 2b it carries out
    batch b and nothing else. Before its first output batch it runs the program, an
    arbitrary function of tile memory. */
module HostArena {
  import opened HostPlan
  import opened HostBatches
  import opened HostCalls

  newtype byte = x: int | 0 <= x < 256

  type Memory = (nat, nat) -> byte

  // ---------------------------------------------------------------------------
  // Slots of the arena
  // ---------------------------------------------------------------------------

  function Splice(s: seq<byte>, at: nat, data: seq<byte>): (r: seq<byte>)
    requires at + |data| <= |s|
    ensures |r| == |s|
  {
    s[..at] + data + s[at + |data|..]
  }

  lemma SpliceHolds(s: seq<byte>, at: nat, data: seq<byte>)
    requires at + |data| <= |s|
    ensures Splice(s, at, data)[at..at + |data|] == data
  {
  }

  lemma SpliceKeeps(s: seq<byte>, at: nat, data: seq<byte>, from: nat, to: nat)
    requires at + |data| <= |s| && from <= to <= |s|
    requires to <= at || at + |data| <= from
    ensures Splice(s, at, data)[from..to] == s[from..to]
  {
    var r := Splice(s, at, data);
    forall k | from <= k < to
      ensures r[k] == s[k]
    {
    }
  }

  /** What a slot may hold: bytes of the input file, bytes of tile memory, or poison. */
  datatype Content = FromFile(input: seq<byte>) | FromTiles(mem: Memory) | Poison {
    ghost predicate Defines(m: Move) {
      FromFile? ==> m.fileOffset + m.size <= |input|
    }

    ghost function Data(m: Move): (r: seq<byte>)
      requires Defines(m)
      ensures |r| == m.size
    {
      match this
      case FromFile(input) => input[m.fileOffset..m.fileOffset + m.size]
      case FromTiles(mem) => Region(mem, m.tile, m.tileAddress, m.size)
      case Poison => Poisoned(m.size)
    }
  }

  function Poisoned(n: nat): (r: seq<byte>)
    ensures |r| == n
  {
    seq(n, _ => 0xa5)
  }

  function Region(mem: Memory, t: nat, a: nat, n: nat): (r: seq<byte>)
    ensures |r| == n
    ensures forall k :: 0 <= k < n ==> r[k] == mem(t, a + k)
  {
    seq(n, k requires 0 <= k < n => mem(t, a + k))
  }

  /** The arena starts at `base` of the host storage and has one page per slot. */
  datatype Arena = Arena(base: nat, slots: Slots) {
    function At(t: int): nat {
      base + SlotOf(slots, t) * PAGE
    }

    ghost predicate Has(moves: seq<Move>, length: nat) {
      && base + |slots| * PAGE <= length
      && ValidSlots(slots, moves)
      && forall m :: m in moves ==> 0 < m.size <= PAGE
    }

    /** The slot of a page holds the bytes that the page carries. */
    ghost predicate Holds(storage: seq<byte>, m: Move, c: Content) {
      && c.Defines(m)
      && At(m.tile) + m.size <= |storage|
      && storage[At(m.tile)..At(m.tile) + m.size] == c.Data(m)
    }

    ghost predicate HoldsAll(storage: seq<byte>, moves: seq<Move>, c: Content) {
      forall m :: m in moves ==> Holds(storage, m, c)
    }
  }

  lemma SlotInBounds(arena: Arena, moves: seq<Move>, length: nat, m: Move)
    requires arena.Has(moves, length) && m in moves
    ensures arena.base <= arena.At(m.tile) && arena.At(m.tile) + m.size <= arena.At(m.tile) + PAGE <= length
  {
  }

  /** Filling the slot of one page leaves the pages of every other tile in place. */
  lemma FillSlot(arena: Arena, storage: seq<byte>, moves: seq<Move>, m: Move, c: Content)
    requires arena.Has(moves, |storage|) && m in moves && c.Defines(m)
    ensures var next := (SlotInBounds(arena, moves, |storage|, m); Splice(storage, arena.At(m.tile), c.Data(m)));
      && arena.Holds(next, m, c)
      && forall other, d :: other in moves && other.tile != m.tile && arena.Holds(storage, other, d) ==>
           arena.Holds(next, other, d)
  {
    hide Splice;
    SlotInBounds(arena, moves, |storage|, m);
    var next := Splice(storage, arena.At(m.tile), c.Data(m));
    SpliceHolds(storage, arena.At(m.tile), c.Data(m));
    forall other, d | other in moves && other.tile != m.tile && arena.Holds(storage, other, d)
      ensures arena.Holds(next, other, d)
    {
      SlotInBounds(arena, moves, |storage|, other);
      assert arena.slots[other.tile] != arena.slots[m.tile];
      SpliceKeeps(storage, arena.At(m.tile), c.Data(m), arena.At(other.tile), arena.At(other.tile) + other.size);
    }
  }

  /** The copy that both `copy_from_slice` calls and device transfers perform. */
  method Store(storage: array<byte>, at: nat, data: seq<byte>)
    requires at + |data| <= storage.Length
    modifies storage
    ensures storage[..] == Splice(old(storage[..]), at, data)
  {
    forall k | 0 <= k < |data| {
      storage[at + k] := data[k];
    }
    assert storage[..at] == old(storage[..at]);
    assert storage[at..at + |data|] == data;
    assert storage[at + |data|..] == old(storage[at + |data|..]);
    assert storage[..] == storage[..at] + storage[at..at + |data|] + storage[at + |data|..];
  }

  // ---------------------------------------------------------------------------
  // What tile memory and output bytes must be
  // ---------------------------------------------------------------------------

  /** The byte at address `a` of tile `t` after the moves have been delivered. */
  ghost function Delivered(moves: seq<Move>, input: seq<byte>, before: Memory, t: nat, a: nat): byte
  {
    match LastWrite(moves, t, a)
    case None => before(t, a)
    case Some(p) => if p < |input| then input[p] else 0
  }

  ghost predicate DeliversTo(moves: seq<Move>, input: seq<byte>, before: Memory, after: Memory) {
    forall t: nat, a: nat :: after(t, a) == Delivered(moves, input, before, t, a)
  }

  /** The byte at file position `p` after the moves have been captured in order. */
  ghost function Captured(moves: seq<Move>, mem: Memory, p: nat): byte
  {
    if moves == [] then 0
    else
      var last := moves[|moves| - 1];
      if last.CoversFile(p) then mem(last.tile, last.AddressOf(p)) else Captured(moves[..|moves| - 1], mem, p)
  }

  lemma {:induction false} CapturedIsSource(moves: seq<Move>, mem: Memory, p: nat)
    ensures (exists t: nat, a: nat :: IsSource(moves, p, t, a)) ==>
              exists t: nat, a: nat :: IsSource(moves, p, t, a) && Captured(moves, mem, p) == mem(t, a)
    ensures (forall t: nat, a: nat :: !IsSource(moves, p, t, a)) ==> Captured(moves, mem, p) == 0
  {
    if moves != [] {
      var before, last := moves[..|moves| - 1], moves[|moves| - 1];
      assert moves == before + [last];
      if last.CoversFile(p) {
        assert last in moves;
        assert IsSource(moves, p, last.tile, last.AddressOf(p));
      } else {
        CapturedIsSource(before, mem, p);
        forall t: nat, a: nat
          ensures IsSource(moves, p, t, a) <==> IsSource(before, p, t, a)
        {
        }
      }
    }
  }

  // ---------------------------------------------------------------------------
  // The device
  // ---------------------------------------------------------------------------

  /** What a run of a call is about: its schedule, its arena and the host's input file. */
  datatype Run = Run(s: Schedule, base: nat, staging: nat, input: seq<byte>) {
    function Place(): Arena {
      Arena(base, s.slots)
    }

    ghost function Source(): Content {
      FromFile(input)
    }

    ghost function All(): seq<Move> {
      Flatten(s.inputs) + Flatten(s.outputs)
    }

    /** Every page has a slot of its tile and every batch at most one page per tile. */
    ghost predicate Valid(length: nat) {
      && Place().Has(All(), length) && |s.slots| <= U16_LIMIT
      && (forall m :: m in Flatten(s.inputs) ==> m.fileOffset + m.size <= |input|)
      && (forall b :: 0 <= b < |s.inputs| ==> OnePerTile(s.inputs[b]))
      && (forall b :: 0 <= b < |s.outputs| ==> OnePerTile(s.outputs[b]))
    }

    ghost predicate InputLoaded(storage: seq<byte>, b: nat)
      requires b < |s.inputs|
    {
      Place().HoldsAll(storage, s.inputs[b], Source())
    }

    /** Pages of tiles other than those of `moves` stay where they are. */
    ghost predicate KeepsOthers(moves: seq<Move>, before: seq<byte>, after: seq<byte>) {
      forall other, c ::
        (other in All() && (forall m :: m in moves ==> m.tile != other.tile) && Place().Holds(before, other, c))
        ==> Place().Holds(after, other, c)
    }

    ghost predicate OutputStored(storage: seq<byte>, b: nat, mem: Memory)
      requires b < |s.outputs|
    {
      Place().HoldsAll(storage, s.outputs[b], FromTiles(mem))
    }
  }

  lemma HasPart(arena: Arena, all: seq<Move>, part: seq<Move>, length: nat)
    requires arena.Has(all, length) && forall m :: m in part ==> m in all
    ensures arena.Has(part, length)
  {
  }

  lemma InputHasPlace(run: Run, b: nat, length: nat)
    requires run.Valid(length) && b < |run.s.inputs|
    ensures run.Place().Has(run.s.inputs[b], length)
    ensures forall m :: m in run.s.inputs[b] ==> m in Flatten(run.s.inputs) && run.Source().Defines(m)
  {
    forall m | m in run.s.inputs[b]
      ensures m in run.All() && m in Flatten(run.s.inputs)
    {
      FlattenMember(run.s.inputs, b, m);
    }
    HasPart(run.Place(), run.All(), run.s.inputs[b], length);
  }

  lemma OutputHasPlace(run: Run, b: nat, length: nat)
    requires run.Valid(length) && b < |run.s.outputs|
    ensures run.Place().Has(run.s.outputs[b], length)
    ensures forall m :: m in run.s.outputs[b] ==> m in Flatten(run.s.outputs)
  {
    forall m | m in run.s.outputs[b]
      ensures m in run.All() && m in Flatten(run.s.outputs)
    {
      FlattenMember(run.s.outputs, b, m);
    }
    HasPart(run.Place(), run.All(), run.s.outputs[b], length);
  }

  lemma {:induction false} DistinctTiles(moves: seq<Move>, i: nat, j: nat)
    requires OnePerTile(moves) && i < j < |moves|
    ensures moves[i].tile != moves[j].tile
  {
    var t := moves[i].tile;
    assert moves == moves[..j] + moves[j..];
    assert moves[i] in moves[..j] && moves[j] in moves[j..];
    OnTileAppend(moves[..j], moves[j..], t);
    OnTileMembers(moves[..j], t, moves[i]);
    OnTileMembers(moves[j..], t, moves[j]);
  }

  lemma DeliverNone(moves: seq<Move>, input: seq<byte>, before: Memory)
    ensures DeliversTo(moves[..0], input, before, before)
  {
  }

  /** One more move overwrites the addresses it covers with its bytes of the file. */
  lemma DeliverOne(moves: seq<Move>, i: nat, input: seq<byte>, before: Memory, was: Memory, now: Memory)
    requires i < |moves| && FromFile(input).Defines(moves[i]) && DeliversTo(moves[..i], input, before, was)
    requires var m := moves[i];
      forall t: nat, a: nat :: now(t, a) == if m.CoversTile(t, a) then FromFile(input).Data(m)[a - m.tileAddress] else was(t, a)
    ensures DeliversTo(moves[..i + 1], input, before, now)
  {
    assert moves[..i + 1][..i] == moves[..i];
    forall t: nat, a: nat
      ensures now(t, a) == Delivered(moves[..i + 1], input, before, t, a)
    {
      assert was(t, a) == Delivered(moves[..i], input, before, t, a);
    }
  }

  lemma OutputProgram(run: Run, program: seq<seq<Transfer>>, b: nat)
    requires Plays(program, run.s, run.staging) && b < |run.s.outputs|
    ensures |program| == run.s.Batches()
    ensures var batch := program[|run.s.inputs| + b];
      && |batch| == |run.s.outputs[b]|
      && forall i :: 0 <= i < |batch| ==> batch[i] == TransferOf(run.s.outputs[b][i], run.s.slots, false)
  {
  }

  lemma InputProgram(run: Run, program: seq<seq<Transfer>>, b: nat)
    requires Plays(program, run.s, run.staging) && b < |run.s.inputs|
    ensures |program| == run.s.Batches()
    ensures var batch := program[b];
      && |batch| == |run.s.inputs[b]|
      && forall i :: 0 <= i < |batch| ==>
           && batch[i] == Staged(TransferOf(run.s.inputs[b][i], run.s.slots, true), run.staging)
           && batch[i].bytes / 4 * 4 == run.s.inputs[b][i].size
  {
  }

  class Device {
    const program: seq<seq<Transfer>>
    const inputBatches: nat
    const base: nat
    const compute: Memory -> Memory

    /** Whether an output batch is stored only in the odd phase after it. */
    const late: nat -> bool

    var acknowledgements: nat
    var tiles: Memory

    /** Tile memory at the moment the program started. */
    ghost var loaded: Memory

    constructor (program: seq<seq<Transfer>>, inputBatches: nat, base: nat, compute: Memory -> Memory, late: nat -> bool,
                 tiles: Memory)
      ensures this.program == program && this.inputBatches == inputBatches && this.base == base
      ensures this.compute == compute && this.late == late && this.tiles == tiles && acknowledgements == 0
    {
      this.program, this.inputBatches, this.base := program, inputBatches, base;
      this.compute, this.late, this.tiles := compute, late, tiles;
      acknowledgements := 0;
      loaded := tiles;
    }

    ghost predicate Runs(run: Run, length: nat) {
      && run.Valid(length)
      && Plays(program, run.s, run.staging)
      && inputBatches == |run.s.inputs| && base == run.base
    }

    /** The bytes arrive in the staging area; whole words are copied to their destination. */
    method Fetch(transfer: Transfer, storage: array<byte>)
      requires transfer.hostOffset >= HOST_DATA_START && transfer.copyDestination.Some?
      requires base + (transfer.hostOffset - HOST_DATA_START) + transfer.bytes <= storage.Length
      modifies this`tiles
      ensures var from, destination := base + (transfer.hostOffset - HOST_DATA_START), transfer.copyDestination.value;
        forall t: nat, a: nat ::
          tiles(t, a) == if t == transfer.tile && destination <= a < destination + transfer.bytes / 4 * 4
                         then storage[from..from + transfer.bytes][a - destination] else old(tiles)(t, a)
    {
      var from, destination := base + (transfer.hostOffset - HOST_DATA_START), transfer.copyDestination.value;
      var staging, before, tile := storage[from..from + transfer.bytes], tiles, transfer.tile;
      var copied := transfer.bytes / 4 * 4;
      tiles := (t: nat, a: nat) =>
        if t == tile && destination <= a < destination + copied && a - destination < |staging|
        then staging[a - destination] else before(t, a);
    }

    /** An input batch delivers the pages that its slots hold. */
    method FetchBatch(storage: array<byte>, b: nat, ghost run: Run)
      requires Runs(run, storage.Length) && b < inputBatches && run.InputLoaded(storage[..], b)
      modifies this`tiles
      ensures DeliversTo(run.s.inputs[b], run.input, old(tiles), tiles)
    {
      hide Plays, OnePerTile, Delivered;
      ghost var moves, before := run.s.inputs[b], tiles;
      InputHasPlace(run, b, storage.Length);
      InputProgram(run, program, b);
      DeliverNone(moves, run.input, before);
      for i := 0 to |program[b]|
        invariant DeliversTo(moves[..i], run.input, before, tiles)
      {
        ghost var m, was := moves[i], tiles;
        assert m in moves;
        SlotInBounds(run.Place(), moves, storage.Length, m);
        assert run.Place().Holds(storage[..], m, run.Source());
        var transfer := program[b][i];
        Fetch(transfer, storage);
        DeliverOne(moves, i, run.input, before, was, tiles);
      }
      assert moves[..|moves|] == moves;
    }

    /** An output batch fills the slots of its tiles and leaves every other slot alone. */
    method EmitBatch(storage: array<byte>, b: nat, ghost run: Run)
      requires Runs(run, storage.Length) && b < |run.s.outputs|
      modifies storage
      ensures run.OutputStored(storage[..], b, tiles)
      ensures run.KeepsOthers(run.s.outputs[b], old(storage[..]), storage[..])
    {
      hide Splice, Arena.Holds, Region, OnePerTile, Plays;
      ghost var moves, content := run.s.outputs[b], FromTiles(tiles);
      OutputHasPlace(run, b, storage.Length);
      OutputProgram(run, program, b);
      for i := 0 to |program[inputBatches + b]|
        invariant forall j :: 0 <= j < i ==> run.Place().Holds(storage[..], moves[j], content)
        invariant run.KeepsOthers(moves, old(storage[..]), storage[..])
      {
        ghost var m, was := moves[i], storage[..];
        assert m in moves && m in run.All();
        SlotInBounds(run.Place(), moves, storage.Length, m);
        var transfer := program[inputBatches + b][i];
        Store(storage, base + (transfer.hostOffset - HOST_DATA_START),
              Region(tiles, transfer.tile, transfer.tileAddress, transfer.bytes));
        FillSlot(run.Place(), was, run.All(), m, content);
        forall j | 0 <= j < i
          ensures run.Place().Holds(storage[..], moves[j], content)
        {
          DistinctTiles(moves, j, i);
          assert moves[j] in moves && moves[j] in run.All();
        }
      }
    }

    /** An even phase fetches its input batch, or stores its output batch unless that is late; the
        odd phase after it stores a late one. The program runs before the first output batch. */
    method Acknowledge(storage: array<byte>, ghost run: Run)
      requires Runs(run, storage.Length)
      requires acknowledgements % 2 == 0 && acknowledgements / 2 < inputBatches ==>
                 run.InputLoaded(storage[..], acknowledgements / 2)
      modifies this, storage
      ensures acknowledgements == old(acknowledgements) + 1
      ensures var b, odd := old(acknowledgements) / 2, old(acknowledgements) % 2 != 0;
        var stores := inputBatches <= b < run.s.Batches() && odd == late(b - inputBatches);
        && (!stores ==> storage[..] == old(storage[..]))
        && (odd || b > inputBatches || b >= run.s.Batches() ==> tiles == old(tiles))
        && (odd || b != inputBatches || b >= run.s.Batches() ==> loaded == old(loaded))
        && (!odd && b < inputBatches ==> DeliversTo(run.s.inputs[b], run.input, old(tiles), tiles))
        && (!odd && b == inputBatches && b < run.s.Batches() ==> loaded == old(tiles) && tiles == compute(loaded))
        && (stores ==>
              && run.OutputStored(storage[..], b - inputBatches, tiles)
              && run.KeepsOthers(run.s.outputs[b - inputBatches], old(storage[..]), storage[..]))
    {
      hide DeliversTo, Run.OutputStored, Run.KeepsOthers, Run.InputLoaded, Run.Valid;
      var b, odd := acknowledgements / 2, acknowledgements % 2 != 0;
      if b < inputBatches {
        if !odd {
          FetchBatch(storage, b, run);
        }
      } else if b < |program| {
        if !odd && b == inputBatches {
          loaded := tiles;
          tiles := compute(tiles);
        }
        if odd == late(b - inputBatches) {
          EmitBatch(storage, b - inputBatches, run);
        }
      }
      acknowledgements := acknowledgements + 1;
    }
  }
}
