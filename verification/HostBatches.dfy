/** Dealing pages into batches and building the calls of the host protocol
    (crates/ipu-codegen/src/host.rs, crates/ipu-package/src/lib.rs).

    Every tile owns one page slot. A batch holds at most one page per tile, so its
    slots are distinct; the next batch reuses them. */
module HostBatches {
  import opened HostPlan

  /** A piece of the host file and its place in the page arena. */
  datatype HostSlice = HostSlice(page: nat, pageOffset: nat, fileOffset: nat, size: nat)

  /** What the device does for one page. Incoming pages land in a staging area and are
      copied on to their destination. */
  datatype Transfer = Transfer(
    toTile: bool,
    tile: nat,
    tileAddress: nat,
    hostOffset: nat,
    bytes: nat,
    copyDestination: Option<nat>)

  const HOST_DATA_START: nat := PAGE

  type Slots = map<int, nat>

  ghost predicate ValidSlots(slots: Slots, moves: seq<Move>)
  {
    && (forall m :: m in moves ==> m.tile in slots)
    && (forall t: int :: t in slots ==> slots[t] < |slots|)
    && (forall t, u :: t in slots && u in slots && slots[t] == slots[u] ==> t == u)
  }

  function SlotOf(slots: Slots, t: int): nat {
    if t in slots then slots[t] else 0
  }

  function SliceOf(m: Move, slots: Slots): HostSlice {
    HostSlice(1, SlotOf(slots, m.tile) * PAGE, m.fileOffset, m.size)
  }

  function TransferOf(m: Move, slots: Slots, toTile: bool): Transfer {
    Transfer(toTile, m.tile, m.tileAddress, HOST_DATA_START + SlotOf(slots, m.tile) * PAGE, m.size, None)
  }

  ghost function SlicesOf(moves: seq<Move>, slots: Slots): (r: seq<HostSlice>)
    ensures |r| == |moves|
  {
    if moves == [] then []
    else SlicesOf(moves[..|moves| - 1], slots) + [SliceOf(moves[|moves| - 1], slots)]
  }

  ghost function TransfersOf(moves: seq<Move>, slots: Slots, toTile: bool): (r: seq<Transfer>)
    ensures |r| == |moves|
  {
    if moves == [] then []
    else TransfersOf(moves[..|moves| - 1], slots, toTile) + [TransferOf(moves[|moves| - 1], slots, toTile)]
  }

  lemma {:induction false} SlicesAppend(a: seq<Move>, b: seq<Move>, slots: Slots)
    ensures SlicesOf(a + b, slots) == SlicesOf(a, slots) + SlicesOf(b, slots)
  {
    if b == [] {
      assert a + b == a;
    } else {
      assert (a + b)[..|a + b| - 1] == a + b[..|b| - 1];
      SlicesAppend(a, b[..|b| - 1], slots);
    }
  }

  /** Every page travels through the slot of its tile: slot `n` is the `n`-th stretch of 4096 bytes
      of host page 1, which the device sees behind 4096 bytes of control data. */
  lemma {:induction false} PagesHaveSlots(moves: seq<Move>, slots: Slots, toTile: bool, i: nat)
    requires i < |moves| && ValidSlots(slots, moves)
    ensures var m := moves[i];
      && m.tile in slots
      && SlicesOf(moves, slots)[i] == HostSlice(1, 4096 * slots[m.tile], m.fileOffset, m.size)
      && TransfersOf(moves, slots, toTile)[i] == Transfer(toTile, m.tile, m.tileAddress, 4096 + 4096 * slots[m.tile], m.size, None)
  {
    assert moves[i] in moves;
    if i < |moves| - 1 {
      PagesHaveSlots(moves[..|moves| - 1], slots, toTile, i);
    }
  }

  lemma {:induction false} SliceAt(moves: seq<Move>, slots: Slots, i: nat)
    requires i < |moves|
    ensures SlicesOf(moves, slots)[i] == SliceOf(moves[i], slots)
  {
    if i < |moves| - 1 {
      SliceAt(moves[..|moves| - 1], slots, i);
    }
  }

  lemma {:induction false} TransferAt(moves: seq<Move>, slots: Slots, toTile: bool, i: nat)
    requires i < |moves|
    ensures TransfersOf(moves, slots, toTile)[i] == TransferOf(moves[i], slots, toTile)
  {
    if i < |moves| - 1 {
      TransferAt(moves[..|moves| - 1], slots, toTile, i);
    }
  }

  lemma OneMoreEncoded(moves: seq<Move>, m: Move, slots: Slots, toTile: bool)
    ensures SlicesOf(moves + [m], slots) == SlicesOf(moves, slots) + [SliceOf(m, slots)]
    ensures TransfersOf(moves + [m], slots, toTile) == TransfersOf(moves, slots, toTile) + [TransferOf(m, slots, toTile)]
  {
    assert (moves + [m])[..|moves|] == moves;
  }

  ghost function Flatten(batches: seq<seq<Move>>): seq<Move>
  {
    if batches == [] then [] else Flatten(batches[..|batches| - 1]) + batches[|batches| - 1]
  }

  ghost predicate OnePerTile(moves: seq<Move>) {
    forall t: int :: |OnTile(moves, t)| <= 1
  }

  /** Non-empty batches with one page per tile that keep the order of pages per tile. */
  ghost predicate Schedules(batches: seq<seq<Move>>, pending: seq<Move>)
  {
    && (forall b :: 0 <= b < |batches| ==> batches[b] != [] && OnePerTile(batches[b]))
    && (forall t: int :: OnTile(Flatten(batches), t) == OnTile(pending, t))
  }

  /** What `Batch` hands to the planner, for a given schedule. */
  ghost predicate Encodes(phases: seq<seq<Transfer>>, slices: seq<HostSlice>, ends: seq<nat>,
                          batches: seq<seq<Move>>, slots: Slots, toTile: bool)
  {
    && |phases| == |ends| == |batches|
    && slices == SlicesOf(Flatten(batches), slots)
    && (forall b :: 0 <= b < |batches| ==>
          && ends[b] == |Flatten(batches[..b + 1])|
          && phases[b] == TransfersOf(batches[b], slots, toTile))
  }

  function Take<T>(s: seq<T>, n: nat): seq<T> {
    if n <= |s| then s[..n] else s
  }

  function Drop<T>(s: seq<T>, n: nat): seq<T> {
    if n <= |s| then s[n..] else []
  }

  /** The b-th page of a tile, if it has that many. */
  function Nth<T>(s: seq<T>, n: nat): seq<T> {
    if n < |s| then [s[n]] else []
  }

  lemma OnTileOfNone()
    ensures forall t: int :: OnTile([], t) == []
  {
  }

  lemma OnTileOfMore(moves: seq<Move>, m: Move)
    ensures OnTile(moves + [m], m.tile) == OnTile(moves, m.tile) + [m]
    ensures forall t: int :: t != m.tile ==> OnTile(moves + [m], t) == OnTile(moves, t)
  {
    assert (moves + [m])[..|moves|] == moves;
  }

  lemma {:induction false} FlattenMember(batches: seq<seq<Move>>, b: nat, m: Move)
    requires b < |batches| && m in batches[b]
    ensures m in Flatten(batches)
  {
    if b < |batches| - 1 {
      FlattenMember(batches[..|batches| - 1], b, m);
    }
  }

  lemma {:induction false} FlattenPrefix(batches: seq<seq<Move>>, b: nat)
    requires b <= |batches|
    ensures |Flatten(batches[..b])| <= |Flatten(batches)|
    ensures Flatten(batches)[..|Flatten(batches[..b])|] == Flatten(batches[..b])
    decreases |batches|
  {
    if b < |batches| {
      FlattenPrefix(batches[..|batches| - 1], b);
      assert batches[..|batches| - 1][..b] == batches[..b];
    } else {
      assert batches[..b] == batches;
    }
  }

  /** Batch `b` occupies the positions between the ends of its neighbours. */
  lemma FlattenAt(batches: seq<seq<Move>>, b: nat)
    requires b < |batches|
    ensures var start, end := |Flatten(batches[..b])|, |Flatten(batches[..b + 1])|;
      end == start + |batches[b]| <= |Flatten(batches)| && Flatten(batches)[start..end] == batches[b]
  {
    assert batches[..b + 1][..b] == batches[..b];
    FlattenPrefix(batches, b + 1);
    var start, end := |Flatten(batches[..b])|, |Flatten(batches[..b + 1])|;
    assert Flatten(batches[..b + 1]) == Flatten(batches[..b]) + batches[b];
    assert Flatten(batches)[start..end] == Flatten(batches)[..end][start..];
  }

  /** The queue of pages per tile, in order of arrival. */
  method Enqueue(pending: seq<Move>) returns (queues: map<int, seq<Move>>)
    ensures forall t: int :: t in queues <==> OnTile(pending, t) != []
    ensures forall t: int :: t in queues ==> queues[t] == OnTile(pending, t)
  {
    queues := map[];
    for k := 0 to |pending|
      invariant forall t: int :: t in queues <==> OnTile(pending[..k], t) != []
      invariant forall t: int :: t in queues ==> queues[t] == OnTile(pending[..k], t)
    {
      var m := pending[k];
      assert pending[..k + 1][..k] == pending[..k];
      queues := queues[m.tile := (if m.tile in queues then queues[m.tile] else []) + [m]];
    }
    assert pending[..|pending|] == pending;
  }

  /** A round has taken the front of this queue, or has yet to come to it. */
  ghost predicate Dealt(queue: seq<Move>, rest: seq<Move>, dealt: seq<Move>) {
    rest == Drop(queue, 1) && dealt == Nth(queue, 0)
  }

  ghost predicate Waiting(queue: seq<Move>, rest: seq<Move>, dealt: seq<Move>) {
    rest == queue && dealt == []
  }

  lemma FrontIsDealt(queue: seq<Move>, rest: seq<Move>, dealt: seq<Move>)
    requires Waiting(queue, rest, dealt)
    ensures rest != [] ==> Dealt(queue, rest[1..], dealt + [rest[0]])
    ensures rest == [] ==> Dealt(queue, rest, dealt)
  {
  }

  lemma NothingEncoded(slots: Slots, toTile: bool)
    ensures TransfersOf([], slots, toTile) == [] && SlicesOf([], slots) == []
  {
  }

  /** One round: the front page of every non-empty queue, in ascending tile order. */
  method DealRound(queues: map<int, seq<Move>>, slots: Slots, toTile: bool)
    returns (rest: map<int, seq<Move>>, transfers: seq<Transfer>, slices: seq<HostSlice>, ghost dealt: seq<Move>)
    requires forall t: int :: t in queues ==> 0 <= t < U16_LIMIT
    requires forall t: int :: t in queues && queues[t] != [] ==> queues[t][0].tile == t
    ensures rest.Keys == queues.Keys
    ensures forall t: int :: t in queues ==> Dealt(queues[t], rest[t], OnTile(dealt, t))
    ensures forall t: int :: t !in queues ==> OnTile(dealt, t) == []
    ensures transfers == TransfersOf(dealt, slots, toTile) && slices == SlicesOf(dealt, slots)
  {
    hide OnTile, TransfersOf, SlicesOf, SliceOf, TransferOf, Dealt;
    rest, transfers, slices, dealt := queues, [], [], [];
    OnTileOfNone();
    NothingEncoded(slots, toTile);
    for tile: int := 0 to U16_LIMIT
      invariant rest.Keys == queues.Keys
      invariant forall t: int :: t in queues && t < tile ==> Dealt(queues[t], rest[t], OnTile(dealt, t))
      invariant forall t: int :: t in queues && t >= tile ==> Waiting(queues[t], rest[t], OnTile(dealt, t))
      invariant forall t: int :: t !in queues ==> OnTile(dealt, t) == []
      invariant transfers == TransfersOf(dealt, slots, toTile) && slices == SlicesOf(dealt, slots)
    {
      if tile in rest {
        FrontIsDealt(queues[tile], rest[tile], OnTile(dealt, tile));
        if rest[tile] != [] {
          var m := rest[tile][0];
          rest := rest[tile := rest[tile][1..]];
          slices := slices + [SliceOf(m, slots)];
          transfers := transfers + [TransferOf(m, slots, toTile)];
          OneMoreEncoded(dealt, m, slots, toTile);
          OnTileOfMore(dealt, m);
          dealt := dealt + [m];
        }
      }
    }
  }

  /** The state of the dealing loop after `batches`. */
  ghost predicate Dealing(queues: map<int, seq<Move>>, pending: seq<Move>, batches: seq<seq<Move>>)
  {
    && (forall t: int :: t in queues <==> OnTile(pending, t) != [])
    && (forall t: int :: t in queues ==> queues[t] == Drop(OnTile(pending, t), |batches|))
    && (forall t: int :: OnTile(Flatten(batches), t) == Take(OnTile(pending, t), |batches|))
    && (forall b :: 0 <= b < |batches| ==> batches[b] != [] && OnePerTile(batches[b]))
    && (batches != [] ==> exists t: int :: |OnTile(pending, t)| >= |batches|)
  }

  /** Round-robin dealing. Each tile's pages keep their order, each batch has at most one
      page per tile, and there are as many batches as the busiest tile has pages. */
  method Batch(pending: seq<Move>, slots: Slots, toTile: bool)
    returns (phases: seq<seq<Transfer>>, slices: seq<HostSlice>, ends: seq<nat>, ghost batches: seq<seq<Move>>)
    requires forall m :: m in pending ==> m.tile < U16_LIMIT
    ensures Schedules(batches, pending)
    ensures Encodes(phases, slices, ends, batches, slots, toTile)
    ensures forall t: int :: |OnTile(pending, t)| <= |batches|
    ensures batches != [] ==> exists t: int :: |OnTile(pending, t)| == |batches|
  {
    hide OnTile, Encodes, OnePerTile, Dealt, Dealing;
    var queues := Enqueue(pending);
    phases, slices, ends, batches := [], [], [], [];
    EmptySchedule(queues, pending, slots, toTile);
    while exists t: int :: t in queues && queues[t] != []
      invariant Dealing(queues, pending, batches)
      invariant Encodes(phases, slices, ends, batches, slots, toTile)
      invariant |batches| <= |pending|
      decreases |pending| - |batches|
    {
      QueuedTiles(queues, pending, batches);
      var rest, transfers, added, dealt := DealRound(queues, slots, toTile);
      ExtendSchedule(queues, rest, pending, batches, dealt);
      ExtendEncoding(phases, slices, ends, batches, transfers, added, dealt, slots, toTile);
      queues := rest;
      phases := phases + [transfers];
      slices := slices + added;
      ends := ends + [|slices|];
      batches := batches + [dealt];
    }
    AllDealt(queues, pending, batches);
  }

  lemma AllDealt(queues: map<int, seq<Move>>, pending: seq<Move>, batches: seq<seq<Move>>)
    requires Dealing(queues, pending, batches) && forall t: int :: t in queues ==> queues[t] == []
    ensures Schedules(batches, pending)
    ensures forall t: int :: |OnTile(pending, t)| <= |batches|
    ensures batches != [] ==> exists t: int :: |OnTile(pending, t)| == |batches|
  {
    hide OnTile, OnePerTile;
    forall t: int
      ensures OnTile(Flatten(batches), t) == OnTile(pending, t) && |OnTile(pending, t)| <= |batches|
    {
      assert t in queues ==> queues[t] == [];
    }
  }

  lemma QueuedTiles(queues: map<int, seq<Move>>, pending: seq<Move>, batches: seq<seq<Move>>)
    requires Dealing(queues, pending, batches) && forall m :: m in pending ==> m.tile < U16_LIMIT
    ensures forall t: int :: t in queues ==> 0 <= t < U16_LIMIT
    ensures forall t: int :: t in queues && queues[t] != [] ==> queues[t][0].tile == t
  {
    hide OnTile;
    forall t: int | t in queues
      ensures 0 <= t < U16_LIMIT && (queues[t] != [] ==> queues[t][0].tile == t)
    {
      OnTileMembers(pending, t, OnTile(pending, t)[0]);
      if queues[t] != [] {
        var m := OnTile(pending, t)[|batches|];
        assert m in OnTile(pending, t) && m == queues[t][0];
        OnTileMembers(pending, t, m);
      }
    }
  }

  lemma EmptySchedule(queues: map<int, seq<Move>>, pending: seq<Move>, slots: Slots, toTile: bool)
    requires forall t: int :: t in queues <==> OnTile(pending, t) != []
    requires forall t: int :: t in queues ==> queues[t] == OnTile(pending, t)
    ensures Dealing(queues, pending, [])
    ensures Encodes([], [], [], [], slots, toTile)
  {
    OnTileOfNone();
  }

  lemma ExtendTile(queue: seq<Move>, rest: seq<Move>, pending: seq<Move>, dealt: seq<Move>, n: nat)
    requires queue == Drop(pending, n) && Dealt(queue, rest, dealt)
    ensures rest == Drop(pending, n + 1) && dealt == Nth(pending, n)
    ensures Take(pending, n) + dealt == Take(pending, n + 1)
  {
  }

  lemma ExtendSchedule(queues: map<int, seq<Move>>, rest: map<int, seq<Move>>,
                       pending: seq<Move>, batches: seq<seq<Move>>, dealt: seq<Move>)
    requires Dealing(queues, pending, batches)
    requires exists t: int :: t in queues && queues[t] != []
    requires rest.Keys == queues.Keys
    requires forall t: int :: t in queues ==> Dealt(queues[t], rest[t], OnTile(dealt, t))
    requires forall t: int :: t !in queues ==> OnTile(dealt, t) == []
    ensures Dealing(rest, pending, batches + [dealt])
    ensures |batches| < |pending|
  {
    hide OnTile, Dealt, Take, Drop;
    var next := batches + [dealt];
    assert next[..|batches|] == batches;
    var busy: int :| busy in queues && queues[busy] != [];
    BusyTile(queues[busy], rest[busy], OnTile(pending, busy), OnTile(dealt, busy), |batches|);
    OnTileOfNone();
    forall t: int
      ensures OnTile(Flatten(next), t) == Take(OnTile(pending, t), |batches| + 1)
      ensures t in rest ==> rest[t] == Drop(OnTile(pending, t), |batches| + 1)
      ensures |OnTile(dealt, t)| <= 1
    {
      OnTileAppend(Flatten(batches), dealt, t);
      if t in queues {
        ExtendTile(queues[t], rest[t], OnTile(pending, t), OnTile(dealt, t), |batches|);
      } else {
        TakeOfNone<Move>(|batches|);
      }
    }
  }

  lemma TakeOfNone<T>(n: nat)
    ensures Take<T>([], n) == [] && Take<T>([], n + 1) == []
  {
  }

  lemma BusyTile(queue: seq<Move>, rest: seq<Move>, pending: seq<Move>, dealt: seq<Move>, n: nat)
    requires queue == Drop(pending, n) && Dealt(queue, rest, dealt) && queue != []
    ensures |dealt| == 1 && |pending| > n
  {
  }

  lemma ExtendEncoding(phases: seq<seq<Transfer>>, slices: seq<HostSlice>, ends: seq<nat>, batches: seq<seq<Move>>,
                       transfers: seq<Transfer>, added: seq<HostSlice>, dealt: seq<Move>, slots: Slots, toTile: bool)
    requires Encodes(phases, slices, ends, batches, slots, toTile)
    requires transfers == TransfersOf(dealt, slots, toTile) && added == SlicesOf(dealt, slots)
    ensures Encodes(phases + [transfers], slices + added, ends + [|slices + added|], batches + [dealt], slots, toTile)
  {
    hide SlicesOf, TransfersOf;
    var next := batches + [dealt];
    assert next[..|batches|] == batches;
    SlicesAppend(Flatten(batches), dealt, slots);
    forall b | 0 <= b < |next|
      ensures (ends + [|slices + added|])[b] == |Flatten(next[..b + 1])|
    {
      if b < |batches| {
        assert next[..b + 1] == batches[..b + 1];
      } else {
        assert next[..b + 1] == next;
      }
    }
  }
}
