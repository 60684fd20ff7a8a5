/** The order of events in the fingerprints of exchange rows
    (crates/ipu-codegen/src/estimate/exchange_storage.rs).

    Rows share storage when their fingerprints agree, so a fingerprint must tell events and their
    order. The module proves what it tells: the fingerprint of a list of events changes with any one
    event's hash, and when two neighbours change places, exactly if their hashes differ modulo 2^63. */
module FingerprintOrder {
  import opened DivMod
  import opened ExchangeStorage

  const HALF: int := 0x8000_0000_0000_0000
  const ALL: int := 0x1_0000_0000_0000_0000

  /** The fingerprint of events recorded one after the other. */
  ghost function Recorded(hash: Event -> nat, events: seq<Event>): (r: Signature)
    ensures r.Reduced()
  {
    if events == [] then Empty else Recorded(hash, events[..|events| - 1]).Then(EventSignature(hash, events[|events| - 1]))
  }

  // ---------------------------------------------------------------------------
  // Multiples
  // ---------------------------------------------------------------------------

  /** `x` is a multiple of `d`. */
  ghost predicate Multiple(x: int, d: int) {
    exists k: int :: Times(k, d) == x
  }

  ghost function Times(k: int, d: int): int {
    k * d
  }

  lemma MultipleOfProduct(x: int, y: int, d: int)
    requires Multiple(x, d)
    ensures Multiple(x * y, d)
  {
    var k :| Times(k, d) == x;
    assert (k * d) * y == (k * y) * d;
    assert Times(k * y, d) == x * y;
  }

  lemma MultipleOfSum(x: int, y: int, d: int)
    requires Multiple(x, d) && Multiple(y, d)
    ensures Multiple(x + y, d) && Multiple(x - y, d)
  {
    var k :| Times(k, d) == x;
    var l :| Times(l, d) == y;
    assert Times(k + l, d) == x + y && Times(k - l, d) == x - y;
  }

  /** Equal remainders are those of numbers a multiple apart. */
  lemma RemaindersAgree(x: int, y: int, d: nat)
    requires d > 0
    ensures x % d == y % d <==> Multiple(x - y, d)
  {
    var k, l := x / d, y / d;
    assert x == k * d + x % d && y == l * d + y % d;
    if x % d == y % d {
      assert Times(k - l, d) == x - y;
    }
    if n :| Times(n, d) == x - y {
      assert x == (n + l) * d + y % d;
      RemainderIs(x, d, n + l, y % d);
    }
  }

  lemma RemainderIs(x: int, d: nat, q: int, r: nat)
    requires r < d && x == q * d + r
    ensures x % d == r
  {
    var k, m := x / d, x % d;
    assert x == k * d + m;
    Difference(k, q, d);
    NoSmallMultiple(k - q, d);
  }

  lemma Difference(k: int, q: int, d: int)
    ensures (k - q) * d == k * d - q * d
  {
  }

  lemma NoSmallMultiple(n: int, d: nat)
    ensures n == 0 || n * d >= d || n * d + d <= 0
  {
    if n > 0 {
      MulMonotone(1, n, d);
    } else if n < 0 {
      MulMonotone(1, -n, d);
      Difference(0, -n, d);
    }
  }

  /** `y` has an inverse modulo `d`. */
  ghost predicate Invertible(y: int, d: int) {
    exists v: int :: Multiple(Times(y, v) - 1, d)
  }

  lemma Undone(x: int, y: int, v: int)
    ensures x * y * v - (y * v - 1) * x == x
  {
  }

  /** An invertible factor does not matter. */
  lemma Cancels(x: int, y: int, d: int)
    requires Invertible(y, d)
    ensures Multiple(x * y, d) <==> Multiple(x, d)
  {
    hide Multiple;
    if Multiple(x, d) {
      MultipleOfProduct(x, y, d);
    }
    if Multiple(x * y, d) {
      var v :| Multiple(Times(y, v) - 1, d);
      MultipleOfProduct(x * y, v, d);
      MultipleOfProduct(Times(y, v) - 1, x, d);
      MultipleOfSum(x * y * v, (Times(y, v) - 1) * x, d);
      Undone(x, y, v);
    }
  }

  lemma ProductInvertible(x: int, y: int, d: int)
    requires Invertible(x, d) && Invertible(y, d)
    ensures Invertible(x * y, d)
  {
    var u :| Multiple(Times(x, u) - 1, d);
    var v :| Multiple(Times(y, v) - 1, d);
    MultipleOfProduct(x * u - 1, y * v, d);
    MultipleOfSum((x * u - 1) * (y * v), y * v - 1, d);
    assert (x * u - 1) * (y * v) + (y * v - 1) == (x * y) * (u * v) - 1;
    assert Times(x * y, u * v) - 1 == (x * y) * (u * v) - 1;
  }

  lemma RemainderInvertible(x: nat, d: nat)
    requires d > 0 && Invertible(x, d)
    ensures Invertible(x % d, d)
  {
    hide Multiple;
    var v :| Multiple(Times(x, v) - 1, d);
    var r := x % d;
    RemainderIs(r, d, 0, r);
    RemaindersAgree(x, r, d);
    MultipleOfProduct(x - r, v, d);
    MultipleOfSum(x * v - 1, (x - r) * v, d);
    Reduced(x, r, v);
    assert Multiple(Times(r, v) - 1, d);
  }

  lemma Reduced(x: int, r: int, v: int)
    ensures (x * v - 1) - (x - r) * v == r * v - 1
  {
  }

  // ---------------------------------------------------------------------------
  // The order of events
  // ---------------------------------------------------------------------------

  lemma PowerIsInvertible()
    ensures Invertible(EVENT_POWER, ALL)
  {
    assert Times(0x545584ccd1fa67a, ALL) == Times(EVENT_POWER, 0x887493432badb37) - 1;
  }

  /** The power lies twice an invertible number above one. */
  lemma PowerBelowOne()
    ensures EVENT_POWER - 1 == 2 * 0x4f1bbcd8c2f5e543 && Invertible(0x4f1bbcd8c2f5e543, HALF)
  {
    assert Times(0x15ad10707f5ed633, HALF) == Times(0x4f1bbcd8c2f5e543, 0x23129314bc48cf6b) - 1;
  }

  lemma {:induction false} RecordedJoins(hash: Event -> nat, a: seq<Event>, b: seq<Event>)
    ensures Recorded(hash, a + b) == Recorded(hash, a).Then(Recorded(hash, b))
  {
    hide Signature.Then, EventSignature;
    if b == [] {
      assert a + b == a;
      ThenEmpty(Recorded(hash, a));
    } else {
      var n := |b| - 1;
      assert (a + b)[..|a + b| - 1] == a + b[..n] && (a + b)[|a + b| - 1] == b[n];
      RecordedJoins(hash, a, b[..n]);
      ThenIsAssociative(Recorded(hash, a), Recorded(hash, b[..n]), EventSignature(hash, b[n]));
    }
  }

  lemma {:induction false} RecordedIsInvertible(hash: Event -> nat, events: seq<Event>)
    ensures Invertible(Recorded(hash, events).power, ALL)
  {
    hide Invertible;
    if events == [] {
      OneIsInvertible();
    } else {
      var before := Recorded(hash, events[..|events| - 1]).power;
      RecordedIsInvertible(hash, events[..|events| - 1]);
      PowerIsInvertible();
      ProductInvertible(before, EVENT_POWER, ALL);
      RemainderInvertible(before * EVENT_POWER, ALL);
    }
  }

  lemma OneIsInvertible()
    ensures Invertible(1, ALL)
  {
    assert Times(0, ALL) == Times(1, 1) - 1;
  }

  /** Fingerprints of equal length stay apart, whatever is recorded after them. */
  lemma StaysApart(a: Signature, b: Signature, rest: Signature)
    requires a.Reduced() && b.Reduced() && a.power == b.power && Invertible(rest.power, ALL)
    ensures a.Then(rest) == b.Then(rest) <==> a == b
  {
    hide Invertible, Multiple;
    var x, y := a.hash * rest.power + rest.hash, b.hash * rest.power + rest.hash;
    RemaindersAgree(x, y, ALL);
    assert x - y == (a.hash - b.hash) * rest.power;
    Cancels(a.hash - b.hash, rest.power, ALL);
    RemaindersAgree(a.hash, b.hash, ALL);
    RemainderIs(a.hash, ALL, 0, a.hash);
    RemainderIs(b.hash, ALL, 0, b.hash);
  }

  /** Nor does it matter what has been recorded before. */
  lemma PrefixKeeps(s: Signature, a: Signature, b: Signature)
    requires a.Reduced() && b.Reduced() && a.power == b.power
    ensures s.Then(a) == s.Then(b) <==> a == b
  {
    hide Multiple;
    RemaindersAgree(s.hash * a.power + a.hash, s.hash * a.power + b.hash, ALL);
    RemaindersAgree(a.hash, b.hash, ALL);
    RemainderIs(a.hash, ALL, 0, a.hash);
    RemainderIs(b.hash, ALL, 0, b.hash);
  }

  lemma Halves(x: int)
    ensures Multiple(2 * x, ALL) <==> Multiple(x, HALF)
  {
    if k :| Times(k, ALL) == 2 * x {
      assert Times(k, HALF) == x;
    }
    if k :| Times(k, HALF) == x {
      assert Times(k, ALL) == 2 * x;
    }
  }

  lemma SwapDifference(x: int, y: int)
    ensures (x * EVENT_POWER + y) - (y * EVENT_POWER + x) == 2 * ((x - y) * 0x4f1bbcd8c2f5e543)
  {
    assert EVENT_POWER == 2 * 0x4f1bbcd8c2f5e543 + 1;
  }

  lemma WordHalf(x: nat)
    ensures x % WORD % HALF == x % HALF
  {
    var q := x / WORD;
    assert x == q * WORD + x % WORD;
    RemaindersAgree(x, x % WORD, HALF);
    assert Times(2 * q, HALF) == x - x % WORD;
  }

  /** Two events in either order agree exactly when their hashes agree modulo 2^63. */
  lemma PairOrder(hash: Event -> nat, e: Event, f: Event)
    ensures EventSignature(hash, e).Then(EventSignature(hash, f)) == EventSignature(hash, f).Then(EventSignature(hash, e))
            <==> hash(e) % 0x8000_0000_0000_0000 == hash(f) % 0x8000_0000_0000_0000
  {
    hide Multiple;
    var x, y := hash(e) % WORD, hash(f) % WORD;
    RemaindersAgree(x * EVENT_POWER + y, y * EVENT_POWER + x, WORD);
    SwapDifference(x, y);
    Halves((x - y) * 0x4f1bbcd8c2f5e543);
    PowerBelowOne();
    Cancels(x - y, 0x4f1bbcd8c2f5e543, HALF);
    RemaindersAgree(x, y, HALF);
    WordHalf(hash(e));
    WordHalf(hash(f));
  }

  lemma OneRecorded(hash: Event -> nat, e: Event)
    ensures Recorded(hash, [e]) == EventSignature(hash, e) && Recorded(hash, []) == Empty
  {
    assert [e][..0] == [];
    ThenEmpty(EventSignature(hash, e));
  }

  lemma TwoRecorded(hash: Event -> nat, e: Event, f: Event)
    ensures Recorded(hash, [e, f]) == EventSignature(hash, e).Then(EventSignature(hash, f))
    ensures Recorded(hash, [e]) == EventSignature(hash, e)
  {
    hide Signature.Then, EventSignature, Recorded;
    OneRecorded(hash, e);
    OneRecorded(hash, f);
    assert [e] + [f] == [e, f];
    RecordedJoins(hash, [e], [f]);
  }

  lemma ThreeParts(hash: Event -> nat, before: seq<Event>, middle: seq<Event>, after: seq<Event>)
    ensures Recorded(hash, before + middle + after) == Recorded(hash, before).Then(Recorded(hash, middle)).Then(Recorded(hash, after))
  {
    RecordedJoins(hash, before + middle, after);
    RecordedJoins(hash, before, middle);
  }

  /** Two neighbouring events that change places change the fingerprint exactly when their hashes
      differ modulo 2^63. */
  lemma SwapShows(hash: Event -> nat, before: seq<Event>, e: Event, f: Event, after: seq<Event>)
    ensures Recorded(hash, before + [e, f] + after) == Recorded(hash, before + [f, e] + after)
            <==> hash(e) % 0x8000_0000_0000_0000 == hash(f) % 0x8000_0000_0000_0000
  {
    hide Signature.Then, EventSignature, Recorded, Invertible;
    var s, rest := Recorded(hash, before), Recorded(hash, after);
    var a, b := Recorded(hash, [e, f]), Recorded(hash, [f, e]);
    ThreeParts(hash, before, [e, f], after);
    ThreeParts(hash, before, [f, e], after);
    TwoRecorded(hash, e, f);
    TwoRecorded(hash, f, e);
    SamePower(hash, s, e, f);
    RecordedIsInvertible(hash, after);
    StaysApart(s.Then(a), s.Then(b), rest);
    PrefixKeeps(s, a, b);
    PairOrder(hash, e, f);
  }

  lemma SamePower(hash: Event -> nat, s: Signature, e: Event, f: Event)
    ensures var a, b := EventSignature(hash, e).Then(EventSignature(hash, f)), EventSignature(hash, f).Then(EventSignature(hash, e));
      a.Reduced() && b.Reduced() && a.power == b.power && s.Then(a).power == s.Then(b).power
    ensures EventSignature(hash, e).Reduced() && EventSignature(hash, f).Reduced()
    ensures s.Then(EventSignature(hash, e)).power == s.Then(EventSignature(hash, f)).power
  {
  }

  /** One event in place of another changes the fingerprint exactly when their hashes differ. */
  lemma ChangeShows(hash: Event -> nat, before: seq<Event>, e: Event, f: Event, after: seq<Event>)
    ensures Recorded(hash, before + [e] + after) == Recorded(hash, before + [f] + after)
            <==> hash(e) % 0x1_0000_0000_0000_0000 == hash(f) % 0x1_0000_0000_0000_0000
  {
    hide Signature.Then, Recorded, Invertible;
    var s, rest := Recorded(hash, before), Recorded(hash, after);
    ThreeParts(hash, before, [e], after);
    ThreeParts(hash, before, [f], after);
    TwoRecorded(hash, e, f);
    TwoRecorded(hash, f, e);
    SamePower(hash, s, e, f);
    RecordedIsInvertible(hash, after);
    StaysApart(s.Then(EventSignature(hash, e)), s.Then(EventSignature(hash, f)), rest);
    PrefixKeeps(s, EventSignature(hash, e), EventSignature(hash, f));
  }

  // ---------------------------------------------------------------------------
  // What copied rows record
  // ---------------------------------------------------------------------------

  /** What tile `t` records of one chunk: the sender a send, the receiver a receive and whether its
      pointer was set. */
  ghost function ChunkEvents(route: Route, t: nat, bytes: nat, reset: bool): seq<Event> {
    (if t == route.source then [Sent(route.target, bytes, false, route.receivers)] else [])
    + if t == route.target then [Received(route.source, bytes, false, route.receivers), Pointer(reset)] else []
  }

  /** A row is cut into chunks of the limit and a rest; only the first may set the pointer. */
  ghost function RowEvents(route: Route, t: nat, bytes: nat, reset: bool): seq<Event>
    requires route.limit > 0
    decreases bytes
  {
    if bytes == 0 then []
    else if bytes <= route.limit then ChunkEvents(route, t, bytes, reset)
    else ChunkEvents(route, t, route.limit, reset) + RowEvents(route, t, bytes - route.limit, false)
  }

  /** Rows after the first set the pointer when they do not follow one another. */
  ghost function RowsEvents(route: Route, t: nat, bytes: nat, rows: nat, reset: bool, apart: bool): seq<Event>
    requires route.limit > 0
    decreases rows
  {
    if rows == 0 then [] else RowEvents(route, t, bytes, reset) + RowsEvents(route, t, bytes, rows - 1, apart, apart)
  }

  /** Eight bytes for every receive and four for every pointer. */
  ghost function BytesOf(events: seq<Event>): nat {
    if events == [] then 0
    else BytesOf(events[..|events| - 1]) + match events[|events| - 1]
      case Sent(_, _, _, _) => 0
      case Received(_, _, _, _) => 8
      case Pointer(reset) => if reset then 4 else 0
  }

  ghost function PointersOf(events: seq<Event>): nat {
    if events == [] then 0
    else PointersOf(events[..|events| - 1]) + if events[|events| - 1] == Pointer(true) then 1 else 0
  }

  /** Phase `q` is `p` after the tiles have recorded the events of a copy that ends at `end`. */
  ghost predicate Records(p: Phase, q: Phase, route: Route, sent: seq<Event>, received: seq<Event>, end: nat) {
    && p.Valid(|p.bytes|) && q.Valid(|p.bytes|) && route.source < |p.bytes| && route.target < |p.bytes|
    && (forall t :: 0 <= t < |p.bytes| ==>
          q.signatures[t] == if t == route.target then p.signatures[t].Then(Recorded(route.hash, received))
                             else if t == route.source then p.signatures[t].Then(Recorded(route.hash, sent))
                             else p.signatures[t])
    && (forall t :: 0 <= t < |p.bytes| ==>
          && q.bytes[t] == p.bytes[t] + (if t == route.target then BytesOf(received) else 0)
          && q.patches[t] == p.patches[t] + (if t == route.target then PointersOf(received) else 0)
          && q.receiveEnd[t] == if t == route.target then Some(end) else p.receiveEnd[t])
  }

  lemma {:induction false} CountsJoin(a: seq<Event>, b: seq<Event>)
    ensures BytesOf(a + b) == BytesOf(a) + BytesOf(b) && PointersOf(a + b) == PointersOf(a) + PointersOf(b)
  {
    if b == [] {
      assert a + b == a;
    } else {
      var n := |b| - 1;
      assert (a + b)[..|a + b| - 1] == a + b[..n] && (a + b)[|a + b| - 1] == b[n];
      CountsJoin(a, b[..n]);
    }
  }

  lemma RecordsJoin(p: Phase, q: Phase, r: Phase, route: Route, sent: seq<Event>, received: seq<Event>, middle: nat,
                    moreSent: seq<Event>, moreReceived: seq<Event>, end: nat)
    requires Records(p, q, route, sent, received, middle) && Records(q, r, route, moreSent, moreReceived, end)
    ensures Records(p, r, route, sent + moreSent, received + moreReceived, end)
  {
    hide Recorded, BytesOf, PointersOf, Signature.Then;
    var s, t := route.source, route.target;
    CountsJoin(received, moreReceived);
    RecordedJoins(route.hash, sent, moreSent);
    RecordedJoins(route.hash, received, moreReceived);
    ThenIsAssociative(p.signatures[s], Recorded(route.hash, sent), Recorded(route.hash, moreSent));
    ThenIsAssociative(p.signatures[t], Recorded(route.hash, received), Recorded(route.hash, moreReceived));
  }

  lemma ChunkCounts(route: Route, bytes: nat, reset: bool)
    ensures BytesOf(ChunkEvents(route, route.target, bytes, reset)) == 8 + if reset then 4 else 0
    ensures PointersOf(ChunkEvents(route, route.target, bytes, reset)) == if reset then 1 else 0
  {
    var sent := Sent(route.target, bytes, false, route.receivers);
    var received, pointer := Received(route.source, bytes, false, route.receivers), Pointer(reset);
    OneCounts(sent);
    OneCounts(received);
    OneCounts(pointer);
    CountsJoin([received], [pointer]);
    assert [received] + [pointer] == [received, pointer];
    CountsJoin([sent], [received, pointer]);
  }

  lemma OneCounts(e: Event)
    ensures BytesOf([e]) == (if e.Received? then 8 else if e == Pointer(true) then 4 else 0)
    ensures PointersOf([e]) == if e == Pointer(true) then 1 else 0
  {
    assert [e][..0] == [];
  }

  lemma ChunkSignatures(hash: Event -> nat, before: Signature, sent: Event, received: Event, pointer: Event)
    ensures before.Then(EventSignature(hash, sent)) == before.Then(Recorded(hash, [sent]))
    ensures before.Then(EventSignature(hash, received)).Then(EventSignature(hash, pointer)) == before.Then(Recorded(hash, [received, pointer]))
    ensures before.Then(EventSignature(hash, sent)).Then(EventSignature(hash, received)).Then(EventSignature(hash, pointer))
            == before.Then(Recorded(hash, [sent] + [received, pointer]))
  {
    hide Signature.Then, EventSignature, Recorded;
    OneRecorded(hash, sent);
    TwoRecorded(hash, received, pointer);
    RecordedJoins(hash, [sent], [received, pointer]);
    ThenIsAssociative(before, EventSignature(hash, received), EventSignature(hash, pointer));
    ThenIsAssociative(before.Then(EventSignature(hash, sent)), EventSignature(hash, received), EventSignature(hash, pointer));
    ThenIsAssociative(before, EventSignature(hash, sent), Recorded(hash, [received, pointer]));
  }

  lemma ChunkRecords(p: Phase, route: Route, address: nat, bytes: nat)
    requires route.Valid(|p.bytes|) && p.Valid(|p.bytes|)
    ensures var reset := p.receiveEnd[route.target] != Some(address);
      Records(p, Receive(Connection(p, route, bytes, false), route.target, address, bytes, route.hash), route,
              ChunkEvents(route, route.source, bytes, reset), ChunkEvents(route, route.target, bytes, reset), address + bytes)
  {
    hide Recorded, BytesOf, PointersOf, Signature.Then, EventSignature;
    var s, t := route.source, route.target;
    var reset := p.receiveEnd[t] != Some(address);
    var sent := Sent(t, bytes, false, route.receivers);
    var received, pointer := Received(s, bytes, false, route.receivers), Pointer(reset);
    ChunkCounts(route, bytes, reset);
    ChunkSignatures(route.hash, p.signatures[s], sent, received, pointer);
    ChunkSignatures(route.hash, p.signatures[t], sent, received, pointer);
    assert [] + [received, pointer] == [received, pointer] && [sent] + [] == [sent];
  }

  /** What a row leaves behind. */
  lemma {:induction false} RowRecords(p: Phase, route: Route, address: nat, bytes: nat)
    requires route.Valid(|p.bytes|) && p.Valid(|p.bytes|) && bytes > 0
    ensures var reset := p.receiveEnd[route.target] != Some(address);
      Records(p, EnumeratedRow(p, route, address, bytes), route,
              RowEvents(route, route.source, bytes, reset), RowEvents(route, route.target, bytes, reset), address + bytes)
    decreases bytes
  {
    hide Records, ChunkEvents, Signature.Then, EventSignature;
    var s, t := route.source, route.target;
    var reset := p.receiveEnd[t] != Some(address);
    var chunk := if bytes < route.limit then bytes else route.limit;
    var q := Receive(Connection(p, route, chunk, false), t, address, chunk, route.hash);
    ChunkRecords(p, route, address, chunk);
    RecordsEnd(p, q, route, ChunkEvents(route, s, chunk, reset), ChunkEvents(route, t, chunk, reset), address + chunk);
    if chunk < bytes {
      RowRecords(q, route, address + chunk, bytes - chunk);
      RecordsJoin(p, q, EnumeratedRow(q, route, address + chunk, bytes - chunk), route,
                  ChunkEvents(route, s, chunk, reset), ChunkEvents(route, t, chunk, reset), address + chunk,
                  RowEvents(route, s, bytes - chunk, false), RowEvents(route, t, bytes - chunk, false), address + bytes);
    } else {
      assert EnumeratedRow(q, route, address + chunk, 0) == q;
    }
  }

  lemma RecordsEnd(p: Phase, q: Phase, route: Route, sent: seq<Event>, received: seq<Event>, end: nat)
    requires Records(p, q, route, sent, received, end)
    ensures |q.bytes| == |p.bytes| && q.Valid(|q.bytes|) && q.receiveEnd[route.target] == Some(end)
  {
  }

  /** Equal copy rows leave every tile's fingerprint followed by the row's events, chunk by chunk, and
      the target with eight bytes for every receive and four for every pointer that it must set. */
  lemma {:induction false} RowsRecord(p: Phase, route: Route, address: nat, bytes: nat, rows: nat, stride: nat)
    requires route.Valid(|p.bytes|) && p.Valid(|p.bytes|) && bytes > 0 && rows > 0
    ensures var reset, apart := p.receiveEnd[route.target] != Some(address), stride != bytes;
      Records(p, EnumeratedRows(p, route, address, bytes, rows, stride), route,
              RowsEvents(route, route.source, bytes, rows, reset, apart), RowsEvents(route, route.target, bytes, rows, reset, apart),
              address + (rows - 1) * stride + bytes)
    decreases rows
  {
    hide Records, RowEvents, EnumeratedRow;
    var s, t := route.source, route.target;
    var reset, apart := p.receiveEnd[t] != Some(address), stride != bytes;
    var q := EnumeratedRow(p, route, address, bytes);
    RowRecords(p, route, address, bytes);
    RecordsEnd(p, q, route, RowEvents(route, s, bytes, reset), RowEvents(route, t, bytes, reset), address + bytes);
    var r := EnumeratedRows(q, route, address + stride, bytes, rows - 1, stride);
    if rows > 1 {
      RowsRecord(q, route, address + stride, bytes, rows - 1, stride);
      assert (rows - 1) * stride == stride + (rows - 2) * stride;
      RecordsJoin(p, q, r, route,
                  RowEvents(route, s, bytes, reset), RowEvents(route, t, bytes, reset), address + bytes,
                  RowsEvents(route, s, bytes, rows - 1, apart, apart), RowsEvents(route, t, bytes, rows - 1, apart, apart),
                  address + (rows - 1) * stride + bytes);
    } else {
      assert RowEvents(route, s, bytes, reset) + [] == RowEvents(route, s, bytes, reset);
      assert RowEvents(route, t, bytes, reset) + [] == RowEvents(route, t, bytes, reset);
      assert (rows - 1) * stride == 0;
    }
  }
}
