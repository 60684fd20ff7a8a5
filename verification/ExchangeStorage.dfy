/** The row-storage estimate of an exchange phase
    (crates/ipu-codegen/src/estimate/exchange_storage.rs).

    A phase keeps, per tile, a byte count, a patch count, the address at which the
    last receive ended, and an order-sensitive fingerprint of its events. Equal copy
    rows are added in closed form with repeated squaring. The module proves that the
    closed form leaves the phase in exactly the state that the events, added one
    chunk at a time, leave it in. */
module ExchangeStorage {
  import opened DivMod

  // ---------------------------------------------------------------------------
  // Fingerprints: a concatenation monoid modulo 2^64
  // ---------------------------------------------------------------------------

  const WORD: nat := 0x1_0000_0000_0000_0000
  const EVENT_POWER: nat := 0x9e3779b185ebca87

  datatype Signature = Signature(hash: nat, power: nat) {
    ghost predicate Reduced() {
      hash < WORD && power < WORD
    }

    function Then(right: Signature): (r: Signature)
      ensures r.Reduced()
    {
      Signature(MulAdd(hash, right.power, right.hash), MulAdd(power, right.power, 0))
    }
  }

  /** Wrapping multiplication and addition. */
  function MulAdd(x: nat, y: nat, z: nat): (r: nat)
    ensures r < WORD
  {
    (x * y + z) % WORD
  }

  const Empty := Signature(0, 1)

  /** What a tile's table records of one step of one transfer. */
  datatype Event =
    | Sent(target: nat, bytes: nat, paired: bool, receivers: nat)
    | Received(source: nat, bytes: nat, paired: bool, receivers: nat)
    | Pointer(reset: bool)

  function Word(x: nat): (r: nat)
    ensures r < WORD
  {
    x % WORD
  }

  function Product(x: nat, y: nat): nat {
    x * y
  }

  /** Whole words do not change the remainder. */
  lemma WholeWords(k: nat, z: nat)
    ensures Word(Product(k, WORD) + z) == Word(z)
  {
    var q := z / WORD;
    assert k * WORD + z == (k + q) * WORD + z % WORD;
    QuotientIs(k * WORD + z, WORD, k + q, z % WORD);
  }

  lemma WordParts(x: nat) returns (q: nat)
    ensures x == Product(q, WORD) + Word(x)
  {
    q := x / WORD;
  }

  lemma Distribute(q: nat, r: nat, y: nat)
    ensures Product(Product(q, WORD) + r, y) == Product(Product(q, y), WORD) + Product(r, y)
  {
    assert (q * WORD + r) * y == q * WORD * y + r * y;
    assert q * WORD * y == (q * y) * WORD;
  }

  lemma ProductSwaps(x: nat, y: nat)
    ensures Product(x, y) == Product(y, x)
  {
  }

  lemma ProductModulo(x: nat, y: nat, z: nat)
    ensures Word(Product(Word(x), y) + z) == Word(Product(x, y) + z)
    ensures Word(Product(y, Word(x)) + z) == Word(Product(y, x) + z)
  {
    hide Word, Product;
    var q := WordParts(x);
    Distribute(q, Word(x), y);
    WholeWords(Product(q, y), Product(Word(x), y) + z);
    ProductSwaps(x, y);
    ProductSwaps(Word(x), y);
  }

  lemma SumModulo(x: nat, y: nat)
    ensures Word(x + Word(y)) == Word(x + y)
  {
  }

  lemma Regroup(a: nat, b: nat, c: nat, d: nat)
    ensures Product(Product(a, b) + d, c) == Product(a, Product(b, c)) + Product(d, c)
  {
    assert (a * b + d) * c == (a * b) * c + d * c;
    assert (a * b) * c == a * (b * c);
  }

  lemma MulAddIs(x: nat, y: nat, z: nat)
    ensures MulAdd(x, y, z) == Word(Product(x, y) + z)
  {
  }

  lemma MulAddRegroups(a: nat, b: nat, bPower: nat, c: nat, cPower: nat)
    ensures MulAdd(MulAdd(a, bPower, b), cPower, c) == MulAdd(a, MulAdd(bPower, cPower, 0), MulAdd(b, cPower, c))
  {
    hide MulAdd, Word, Product;
    var first, tail, powers := Product(a, bPower) + b, Product(b, cPower) + c, Product(bPower, cPower);
    MulAddIs(a, bPower, b);
    MulAddIs(Word(first), cPower, c);
    MulAddIs(bPower, cPower, 0);
    MulAddIs(b, cPower, c);
    MulAddIs(a, Word(powers), Word(tail));
    calc {
      Word(Product(Word(first), cPower) + c);
      { ProductModulo(first, cPower, c); }
      Word(Product(first, cPower) + c);
      { Regroup(a, bPower, cPower, b); }
      Word(Product(a, powers) + tail);
      { SumModulo(Product(a, powers), tail); }
      Word(Product(a, powers) + Word(tail));
      { ProductModulo(powers, a, Word(tail)); }
      Word(Product(a, Word(powers)) + Word(tail));
    }
  }

  lemma ThenIsAssociative(a: Signature, b: Signature, c: Signature)
    ensures a.Then(b).Then(c) == a.Then(b.Then(c))
  {
    assert MulAdd(0, c.power, 0) == 0;
    hide MulAdd;
    MulAddRegroups(a.hash, b.hash, b.power, c.hash, c.power);
    MulAddRegroups(a.power, 0, b.power, 0, c.power);
  }

  lemma ThenEmpty(a: Signature)
    requires a.Reduced()
    ensures a.Then(Empty) == a && Empty.Then(a) == a
  {
  }

  /** The n-fold concatenation of a fingerprint with itself. */
  ghost function Power(s: Signature, n: nat): (r: Signature)
    ensures r.Reduced()
  {
    if n == 0 then Empty else Power(s, n - 1).Then(s)
  }

  lemma {:induction false} PowerAdds(s: Signature, m: nat, n: nat)
    ensures Power(s, m + n) == Power(s, m).Then(Power(s, n))
  {
    if n == 0 {
      ThenEmpty(Power(s, m));
    } else {
      PowerAdds(s, m, n - 1);
      ThenIsAssociative(Power(s, m), Power(s, n - 1), s);
    }
  }

  lemma {:induction false} PowerSquares(s: Signature, n: nat)
    ensures Power(s.Then(s), n) == Power(s, 2 * n)
  {
    if n > 0 {
      PowerSquares(s, n - 1);
      ThenIsAssociative(Power(s, 2 * n - 2), s, s);
    }
  }

  lemma PowerOne(s: Signature)
    requires s.Reduced()
    ensures Power(s, 1) == s
  {
    ThenEmpty(s);
    assert Power(s, 0) == Empty;
  }

  /** Repeated squaring yields the n-fold concatenation. */
  method Repeat(s: Signature, n: nat) returns (result: Signature)
    requires s.Reduced()
    ensures result == Power(s, n)
  {
    var base, count := s, n;
    result := Empty;
    ThenEmpty(Power(s, n));
    while count != 0
      invariant base.Reduced() && result.Reduced()
      invariant result.Then(Power(base, count)) == Power(s, n)
    {
      PowerSquares(base, count / 2);
      if count % 2 != 0 {
        PowerAdds(base, 1, 2 * (count / 2));
        PowerOne(base);
        ThenIsAssociative(result, base, Power(base, 2 * (count / 2)));
        result := result.Then(base);
      }
      base := base.Then(base);
      count := count / 2;
    }
    ThenEmpty(result);
  }

  // ---------------------------------------------------------------------------
  // The reference: events recorded one chunk at a time
  // ---------------------------------------------------------------------------

  datatype Option<T> = None | Some(value: T)

  datatype Phase = Phase(
    bytes: seq<nat>,
    receiveEnd: seq<Option<nat>>,
    signatures: seq<Signature>,
    patches: seq<nat>)
  {
    ghost predicate Valid(tiles: nat) {
      && |bytes| == |receiveEnd| == |signatures| == |patches| == tiles
      && forall i :: 0 <= i < tiles ==> signatures[i].Reduced()
    }

    function Append(tile: nat, event: Signature): Phase
      requires tile < |signatures|
    {
      this.(signatures := signatures[tile := signatures[tile].Then(event)])
    }
  }

  /** The hash of an event is arbitrary; the fingerprint reduces it to a word. */
  function EventSignature(hash: Event -> nat, event: Event): Signature {
    Signature(hash(event) % WORD, EVENT_POWER)
  }

  /** The parts of a copy that all of its chunks share. */
  datatype Route = Route(source: nat, target: nat, receivers: nat, limit: nat, hash: Event -> nat) {
    ghost predicate Valid(tiles: nat) {
      source < tiles && target < tiles && limit > 0
    }
  }

  function Connection(p: Phase, route: Route, bytes: nat, paired: bool): Phase
    requires route.source < |p.signatures| && route.target < |p.signatures|
  {
    p.Append(route.source, EventSignature(route.hash, Sent(route.target, bytes, paired, route.receivers)))
    .Append(route.target, EventSignature(route.hash, Received(route.source, bytes, paired, route.receivers)))
  }

  function Receive(p: Phase, tile: nat, address: nat, bytes: nat, hash: Event -> nat): Phase
    requires tile < |p.signatures| == |p.bytes| == |p.patches| == |p.receiveEnd|
  {
    var reset := p.receiveEnd[tile] != Some(address);
    var added := p.Append(tile, EventSignature(hash, Pointer(reset)));
    Phase(added.bytes[tile := added.bytes[tile] + 8 + 4 * Bit(reset)],
          added.receiveEnd[tile := Some(address + bytes)],
          added.signatures,
          added.patches[tile := added.patches[tile] + Bit(reset)])
  }

  function Bit(b: bool): nat {
    if b then 1 else 0
  }

  /** One row, split into chunks of at most the transfer limit. */
  ghost function EnumeratedRow(p: Phase, route: Route, address: nat, bytes: nat): (r: Phase)
    requires route.Valid(|p.bytes|) && |p.signatures| == |p.bytes| == |p.patches| == |p.receiveEnd|
    ensures |r.signatures| == |r.bytes| == |r.patches| == |r.receiveEnd| == |p.bytes|
    decreases bytes
  {
    if bytes == 0 then p
    else
      var chunk := if bytes < route.limit then bytes else route.limit;
      EnumeratedRow(Receive(Connection(p, route, chunk, false), route.target, address, chunk, route.hash),
                    route, address + chunk, bytes - chunk)
  }

  ghost function EnumeratedRows(p: Phase, route: Route, address: nat, bytes: nat, rows: nat, stride: nat): (r: Phase)
    requires route.Valid(|p.bytes|) && |p.signatures| == |p.bytes| == |p.patches| == |p.receiveEnd|
    ensures |r.signatures| == |r.bytes| == |r.patches| == |r.receiveEnd| == |p.bytes|
    decreases rows
  {
    if rows == 0 then p
    else EnumeratedRows(EnumeratedRow(p, route, address, bytes), route, address + stride, bytes, rows - 1, stride)
  }

  // ---------------------------------------------------------------------------
  // Deltas: what a run of chunks adds to its two tiles
  // ---------------------------------------------------------------------------

  datatype Delta = Delta(tx: Signature, rx: Signature, bytes: nat, patches: nat) {
    function Then(right: Delta): Delta {
      Delta(tx.Then(right.tx), rx.Then(right.rx), bytes + right.bytes, patches + right.patches)
    }

    ghost predicate Valid(route: Route) {
      && tx.Reduced() && rx.Reduced()
      && (route.source == route.target ==> tx == Empty)
    }
  }

  const Nothing := Delta(Empty, Empty, 0, 0)

  ghost function Apply(p: Phase, route: Route, d: Delta, end: nat): (r: Phase)
    requires route.Valid(|p.bytes|) && p.Valid(|p.bytes|)
    ensures r.Valid(|p.bytes|)
  {
    var sent := p.Append(route.source, d.tx);
    var t := route.target;
    Phase(p.bytes[t := p.bytes[t] + d.bytes],
          p.receiveEnd[t := Some(end)],
          sent.Append(t, d.rx).signatures,
          p.patches[t := p.patches[t] + d.patches])
  }

  lemma ApplyEnds(p: Phase, route: Route, d: Delta, end: nat)
    requires route.Valid(|p.bytes|) && p.Valid(|p.bytes|)
    ensures var r := Apply(p, route, d, end);
      |r.bytes| == |p.bytes| && r.Valid(|p.bytes|) && r.receiveEnd[route.target] == Some(end)
  {
  }

  lemma DeltaAssociates(a: Delta, b: Delta, c: Delta)
    ensures a.Then(b).Then(c) == a.Then(b.Then(c))
  {
    ThenIsAssociative(a.tx, b.tx, c.tx);
    ThenIsAssociative(a.rx, b.rx, c.rx);
  }

  lemma DeltaNothing(a: Delta, route: Route)
    requires a.Valid(route)
    ensures a.Then(Nothing) == a && Nothing.Then(a) == a
  {
    ThenEmpty(a.tx);
    ThenEmpty(a.rx);
  }

  lemma ThenIsValid(a: Delta, b: Delta, route: Route)
    requires a.Valid(route) && b.Valid(route)
    ensures a.Then(b).Valid(route)
  {
  }

  lemma ApplyTwice(p: Phase, route: Route, a: Delta, b: Delta, middle: nat, end: nat)
    requires route.Valid(|p.bytes|) && p.Valid(|p.bytes|) && a.Valid(route) && b.Valid(route)
    ensures Apply(Apply(p, route, a, middle), route, b, end) == Apply(p, route, a.Then(b), end)
  {
    var s, t := route.source, route.target;
    var once, twice := Apply(p, route, a, middle), Apply(p, route, a.Then(b), end);
    ThenIsAssociative(p.signatures[s], a.tx, b.tx);
    if s == t {
      ThenEmpty(p.signatures[s]);
      ThenEmpty(once.signatures[s]);
      ThenEmpty(Empty);
    }
    ThenIsAssociative(p.signatures[t], a.rx, b.rx);
    hide Signature.Then;
    assert Apply(once, route, b, end).signatures == twice.signatures;
  }

  /** `chunk` in the closed form. */
  function Chunk(route: Route, bytes: nat, reset: bool): Delta {
    var tx := EventSignature(route.hash, Sent(route.target, bytes, false, route.receivers));
    var rx := EventSignature(route.hash, Received(route.source, bytes, false, route.receivers))
              .Then(EventSignature(route.hash, Pointer(reset)));
    var sizes := Delta(tx, rx, 8 + 4 * Bit(reset), Bit(reset));
    if route.source == route.target then sizes.(tx := Empty, rx := tx.Then(rx)) else sizes
  }

  lemma ChunkIsDelta(p: Phase, route: Route, address: nat, bytes: nat)
    requires route.Valid(|p.bytes|) && p.Valid(|p.bytes|)
    ensures var reset := p.receiveEnd[route.target] != Some(address);
      && Chunk(route, bytes, reset).Valid(route)
      && Receive(Connection(p, route, bytes, false), route.target, address, bytes, route.hash)
         == Apply(p, route, Chunk(route, bytes, reset), address + bytes)
  {
    var s, t := route.source, route.target;
    var reset := p.receiveEnd[t] != Some(address);
    var tx := EventSignature(route.hash, Sent(t, bytes, false, route.receivers));
    var rx := EventSignature(route.hash, Received(s, bytes, false, route.receivers));
    var pointer := EventSignature(route.hash, Pointer(reset));
    var before := if s == t then p.signatures[t].Then(tx) else p.signatures[t];
    ThenIsAssociative(before, rx, pointer);
    ThenIsAssociative(p.signatures[t], tx, rx.Then(pointer));
    ThenEmpty(p.signatures[s]);
    assert Chunk(route, bytes, reset).Valid(route);
    hide Signature.Then;
    var done := Receive(Connection(p, route, bytes, false), t, address, bytes, route.hash);
    assert done.signatures == Apply(p, route, Chunk(route, bytes, reset), address + bytes).signatures;
  }

  ghost function DeltaPower(d: Delta, n: nat): Delta {
    if n == 0 then Nothing else DeltaPower(d, n - 1).Then(d)
  }

  lemma {:induction false} DeltaPowerIs(d: Delta, n: nat)
    ensures DeltaPower(d, n) == Delta(Power(d.tx, n), Power(d.rx, n), n * d.bytes, n * d.patches)
  {
    if n > 0 {
      DeltaPowerIs(d, n - 1);
      assert n * d.bytes == (n - 1) * d.bytes + d.bytes;
      assert n * d.patches == (n - 1) * d.patches + d.patches;
    }
  }

  lemma {:induction false} DeltaPowerIsValid(d: Delta, n: nat, route: Route)
    requires d.Valid(route)
    ensures DeltaPower(d, n).Valid(route)
  {
    if n > 0 {
      DeltaPowerIsValid(d, n - 1, route);
      ThenIsValid(DeltaPower(d, n - 1), d, route);
    }
  }

  lemma {:induction false} DeltaPowerFromFront(d: Delta, n: nat, route: Route)
    requires d.Valid(route)
    ensures DeltaPower(d, n + 1) == d.Then(DeltaPower(d, n))
  {
    if n == 0 {
      DeltaNothing(d, route);
      assert DeltaPower(d, 1) == DeltaPower(d, 0).Then(d);
    } else {
      DeltaPowerFromFront(d, n - 1, route);
      DeltaAssociates(d, DeltaPower(d, n - 1), d);
    }
  }

  /** The chunks of a row after its first one, none of which resets the pointer. */
  ghost function Rest(route: Route, remaining: nat): Delta
    requires route.limit > 0
  {
    DeltaPower(Chunk(route, route.limit, false), remaining / route.limit).Then(LastChunk(route, remaining))
  }

  function LastChunk(route: Route, remaining: nat): Delta
    requires route.limit > 0
  {
    if remaining % route.limit == 0 then Nothing else Chunk(route, remaining % route.limit, false)
  }

  /** `row` in the closed form. */
  ghost function Row(route: Route, bytes: nat, reset: bool): Delta
    requires route.limit > 0
  {
    var first := if bytes < route.limit then bytes else route.limit;
    Chunk(route, first, reset).Then(Rest(route, bytes - first))
  }

  lemma ChunksAreValid(route: Route, bytes: nat)
    requires route.limit > 0
    ensures Chunk(route, bytes, false).Valid(route) && Chunk(route, bytes, true).Valid(route)
  {
  }

  lemma RestIsValid(route: Route, remaining: nat)
    requires route.limit > 0
    ensures Rest(route, remaining).Valid(route)
  {
    ChunksAreValid(route, route.limit);
    ChunksAreValid(route, remaining % route.limit);
    DeltaPowerIsValid(Chunk(route, route.limit, false), remaining / route.limit, route);
    ThenIsValid(DeltaPower(Chunk(route, route.limit, false), remaining / route.limit), LastChunk(route, remaining), route);
  }

  lemma RowIsValid(route: Route, bytes: nat, reset: bool)
    requires route.limit > 0
    ensures Row(route, bytes, reset).Valid(route)
  {
    hide Signature.Then, Chunk, Rest, Delta.Then;
    var first := if bytes < route.limit then bytes else route.limit;
    ChunksAreValid(route, first);
    RestIsValid(route, bytes - first);
    ThenIsValid(Chunk(route, first, reset), Rest(route, bytes - first), route);
  }

  lemma {:induction false} RestIsEnumerated(p: Phase, route: Route, address: nat, remaining: nat)
    requires route.Valid(|p.bytes|) && p.Valid(|p.bytes|)
    requires p.receiveEnd[route.target] == Some(address)
    ensures EnumeratedRow(p, route, address, remaining) == Apply(p, route, Rest(route, remaining), address + remaining)
    decreases remaining
  {
    hide Signature.Then, Delta.Then, Apply, Chunk, Rest, Receive, Connection;
    var chunk := if remaining < route.limit then remaining else route.limit;
    if remaining == 0 {
      EmptyRest(route);
      NothingChanges(p, route, address);
    } else {
      ChunkIsDelta(p, route, address, chunk);
      var first := Chunk(route, chunk, false);
      ApplyEnds(p, route, first, address + chunk);
      var next := Apply(p, route, first, address + chunk);
      RestIsEnumerated(next, route, address + chunk, remaining - chunk);
      RestIsValid(route, remaining - chunk);
      ApplyTwice(p, route, first, Rest(route, remaining - chunk), address + chunk, address + remaining);
      RestFromFront(route, remaining);
    }
  }

  lemma EmptyRest(route: Route)
    requires route.limit > 0
    ensures Rest(route, 0) == Nothing
  {
    QuotientIs(0, route.limit, 0, 0);
    DeltaNothing(Nothing, route);
  }

  lemma RestFromFront(route: Route, remaining: nat)
    requires route.limit > 0 && remaining > 0
    ensures var chunk := if remaining < route.limit then remaining else route.limit;
      Rest(route, remaining) == Chunk(route, chunk, false).Then(Rest(route, remaining - chunk))
  {
    var limit := route.limit;
    hide Chunk, Delta.Then;
    if remaining < limit {
      QuotientIs(remaining, limit, 0, remaining);
      EmptyRest(route);
      ChunksAreValid(route, remaining);
      DeltaNothing(Chunk(route, remaining, false), route);
    } else {
      OneDivisorLess(remaining, limit);
      ChunksAreValid(route, limit);
      var full := Chunk(route, limit, false);
      DeltaPowerFromFront(full, remaining / limit - 1, route);
      DeltaAssociates(full, DeltaPower(full, remaining / limit - 1), LastChunk(route, remaining));
    }
  }

  lemma NothingChanges(p: Phase, route: Route, end: nat)
    requires route.Valid(|p.bytes|) && p.Valid(|p.bytes|) && p.receiveEnd[route.target] == Some(end)
    ensures Apply(p, route, Nothing, end) == p
  {
    ThenEmpty(p.signatures[route.source]);
    ThenEmpty(p.signatures[route.target]);
  }

  lemma RowIsEnumerated(p: Phase, route: Route, address: nat, bytes: nat)
    requires route.Valid(|p.bytes|) && p.Valid(|p.bytes|) && bytes > 0
    ensures EnumeratedRow(p, route, address, bytes)
         == Apply(p, route, Row(route, bytes, p.receiveEnd[route.target] != Some(address)), address + bytes)
  {
    hide Signature.Then, Delta.Then, Apply, Chunk, Rest, Receive, Connection;
    var chunk := if bytes < route.limit then bytes else route.limit;
    var reset := p.receiveEnd[route.target] != Some(address);
    var first := Chunk(route, chunk, reset);
    ChunkIsDelta(p, route, address, chunk);
    ApplyEnds(p, route, first, address + chunk);
    RestIsEnumerated(Apply(p, route, first, address + chunk), route, address + chunk, bytes - chunk);
    RestIsValid(route, bytes - chunk);
    ApplyTwice(p, route, first, Rest(route, bytes - chunk), address + chunk, address + bytes);
  }

  /** Rows after the first reset the pointer exactly when the stride leaves a gap or overlap. */
  ghost function Rows(route: Route, bytes: nat, rows: nat, stride: nat, reset: bool): Delta
    requires route.limit > 0 && rows > 0
  {
    Row(route, bytes, reset).Then(DeltaPower(Row(route, bytes, stride != bytes), rows - 1))
  }

  ghost function RowsEnd(address: nat, bytes: nat, rows: nat, stride: nat): nat
    requires rows > 0
  {
    address + (rows - 1) * stride + bytes
  }

  lemma {:induction false} RowsAreEnumerated(p: Phase, route: Route, address: nat, bytes: nat, rows: nat, stride: nat)
    requires route.Valid(|p.bytes|) && p.Valid(|p.bytes|) && bytes > 0 && rows > 0
    ensures EnumeratedRows(p, route, address, bytes, rows, stride)
         == Apply(p, route, Rows(route, bytes, rows, stride, p.receiveEnd[route.target] != Some(address)),
                  RowsEnd(address, bytes, rows, stride))
    decreases rows
  {
    hide Signature.Then, Delta.Then, Apply, Row, EnumeratedRow;
    var reset := p.receiveEnd[route.target] != Some(address);
    var first, other := Row(route, bytes, reset), Row(route, bytes, stride != bytes);
    RowIsEnumerated(p, route, address, bytes);
    RowIsValid(route, bytes, reset);
    RowIsValid(route, bytes, stride != bytes);
    var next := Apply(p, route, first, address + bytes);
    ApplyEnds(p, route, first, address + bytes);
    if rows == 1 {
      DeltaNothing(first, route);
      assert EnumeratedRows(next, route, address + stride, bytes, 0, stride) == next;
      assert DeltaPower(other, 0) == Nothing;
      assert (rows - 1) * stride == 0;
    } else {
      RowsAreEnumerated(next, route, address + stride, bytes, rows - 1, stride);
      assert (next.receiveEnd[route.target] != Some(address + stride)) == (stride != bytes);
      DeltaPowerFromFront(other, rows - 2, route);
      DeltaPowerIsValid(other, rows - 1, route);
      var end := RowsEnd(address + stride, bytes, rows - 1, stride);
      assert end == RowsEnd(address, bytes, rows, stride) by {
        MulNext(rows - 2, stride);
      }
      ApplyTwice(p, route, first, DeltaPower(other, rows - 1), address + bytes, end);
    }
  }

  // ---------------------------------------------------------------------------
  // The phase the estimator keeps, updated in place
  // ---------------------------------------------------------------------------

  function DivCeil(x: nat, d: nat): nat
    requires d > 0
  {
    if x % d == 0 then x / d else x / d + 1
  }

  lemma ChunkSizes(route: Route, bytes: nat, reset: bool)
    ensures Chunk(route, bytes, reset).bytes == 8 + 4 * Bit(reset)
    ensures Chunk(route, bytes, reset).patches == Bit(reset)
  {
  }

  lemma RestSizes(route: Route, remaining: nat)
    requires route.limit > 0
    ensures Rest(route, remaining).bytes == 8 * DivCeil(remaining, route.limit)
    ensures Rest(route, remaining).patches == 0
  {
    hide Chunk, Signature.Then, DeltaPower;
    ChunkSizes(route, route.limit, false);
    ChunkSizes(route, remaining % route.limit, false);
    DeltaPowerIs(Chunk(route, route.limit, false), remaining / route.limit);
  }

  lemma FirstOfCeil(bytes: nat, limit: nat)
    requires limit > 0 && bytes > 0
    ensures DivCeil(bytes, limit) == 1 + DivCeil(bytes - if bytes < limit then bytes else limit, limit)
  {
    if bytes < limit {
      QuotientIs(bytes, limit, 0, bytes);
      QuotientIs(0, limit, 0, 0);
    } else {
      OneDivisorLess(bytes, limit);
    }
  }

  lemma RowSizes(route: Route, bytes: nat, reset: bool)
    requires route.limit > 0 && bytes > 0
    ensures Row(route, bytes, reset).bytes == 8 * DivCeil(bytes, route.limit) + 4 * Bit(reset)
    ensures Row(route, bytes, reset).patches == Bit(reset)
  {
    hide Rest, Chunk, DivCeil, Signature.Then;
    var first := if bytes < route.limit then bytes else route.limit;
    FirstOfCeil(bytes, route.limit);
    RestSizes(route, bytes - first);
    ChunkSizes(route, first, reset);
  }

  lemma SizesOfRepetition(more: nat, chunks: nat, resets: nat)
    ensures more * (8 * chunks + 4 * resets) + 8 * chunks == (more + 1) * chunks * 8 + (more * resets) * 4
  {
    assert more * (8 * chunks + 4 * resets) == 8 * (more * chunks) + 4 * (more * resets);
    assert (more + 1) * chunks == more * chunks + chunks;
  }

  lemma RowsSizes(route: Route, bytes: nat, rows: nat, stride: nat, reset: bool)
    requires route.limit > 0 && bytes > 0 && rows > 0
    ensures var resets := Bit(reset) + (rows - 1) * Bit(stride != bytes);
      var all := Rows(route, bytes, rows, stride, reset);
      && all.bytes == rows * DivCeil(bytes, route.limit) * 8 + resets * 4
      && all.patches == resets
  {
    hide Row, DivCeil, Signature.Then, DeltaPower;
    var other := Row(route, bytes, stride != bytes);
    RowSizes(route, bytes, reset);
    RowSizes(route, bytes, stride != bytes);
    DeltaPowerIs(other, rows - 1);
    SizesOfRepetition(rows - 1, DivCeil(bytes, route.limit), Bit(stride != bytes));
  }

  lemma {:induction false} EmptyRows(p: Phase, route: Route, address: nat, rows: nat, stride: nat)
    requires route.Valid(|p.bytes|) && p.Valid(|p.bytes|)
    ensures EnumeratedRows(p, route, address, 0, rows, stride) == p
    decreases rows
  {
    if rows > 0 {
      EmptyRows(p, route, address + stride, rows - 1, stride);
    }
  }

  /** The two fingerprints of one row: first chunk, full chunks, remainder. */
  method BuildRow(route: Route, bytes: nat, reset: bool) returns (tx: Signature, rx: Signature)
    requires route.limit > 0 && bytes > 0
    ensures tx == Row(route, bytes, reset).tx && rx == Row(route, bytes, reset).rx
  {
    hide Signature.Then, Chunk;
    var firstBytes := if bytes < route.limit then bytes else route.limit;
    var first := Chunk(route, firstBytes, reset);
    tx, rx := first.tx, first.rx;
    var remaining := bytes - firstBytes;
    var full := remaining / route.limit;
    ghost var middle := DeltaPower(Chunk(route, route.limit, false), full);
    DeltaPowerIs(Chunk(route, route.limit, false), full);
    ChunksAreValid(route, firstBytes);
    ChunksAreValid(route, route.limit);
    ThenEmpty(tx);
    ThenEmpty(rx);
    if full != 0 {
      var chunk := Chunk(route, route.limit, false);
      var txs := Repeat(chunk.tx, full);
      var rxs := Repeat(chunk.rx, full);
      tx, rx := tx.Then(txs), rx.Then(rxs);
    }
    assert tx == first.tx.Then(middle.tx) && rx == first.rx.Then(middle.rx);
    ghost var last := LastChunk(route, remaining);
    ThenIsAssociative(first.tx, middle.tx, last.tx);
    ThenIsAssociative(first.rx, middle.rx, last.rx);
    DeltaPowerIsValid(Chunk(route, route.limit, false), full, route);
    ThenEmpty(middle.tx);
    ThenEmpty(middle.rx);
    if remaining % route.limit != 0 {
      var chunk := Chunk(route, remaining % route.limit, false);
      tx, rx := tx.Then(chunk.tx), rx.Then(chunk.rx);
    }
  }

  class ExchangeStoragePhase {
    var bytes: seq<nat>
    var receiveEnd: seq<Option<nat>>
    var signatures: seq<Signature>
    var patches: seq<nat>

    ghost function View(): Phase
      reads this
    {
      Phase(bytes, receiveEnd, signatures, patches)
    }

    ghost predicate Valid(tiles: nat)
      reads this
    {
      View().Valid(tiles)
    }

    constructor (tiles: nat)
      ensures Valid(tiles)
      ensures forall i :: 0 <= i < tiles ==>
                bytes[i] == 8 && receiveEnd[i] == None && signatures[i] == Empty && patches[i] == 0
    {
      bytes := seq(tiles, _ => 8);
      receiveEnd := seq(tiles, _ => None);
      signatures := seq(tiles, _ => Empty);
      patches := seq(tiles, _ => 0);
    }

    method AddConnection(route: Route, size: nat, paired: bool, ghost tiles: nat)
      requires Valid(tiles) && route.Valid(tiles)
      modifies this`signatures
      ensures Valid(tiles) && View() == Connection(old(View()), route, size, paired)
    {
      hide Signature.Then;
      var s, t := route.source, route.target;
      signatures := signatures[s := signatures[s].Then(
                                 EventSignature(route.hash, Sent(t, size, paired, route.receivers)))];
      signatures := signatures[t := signatures[t].Then(
                                 EventSignature(route.hash, Received(s, size, paired, route.receivers)))];
    }

    method AddReceive(tile: nat, address: nat, size: nat, hash: Event -> nat, ghost tiles: nat)
      requires Valid(tiles) && tile < tiles
      modifies this
      ensures Valid(tiles) && View() == Receive(old(View()), tile, address, size, hash)
    {
      hide Signature.Then;
      var reset := receiveEnd[tile] != Some(address);
      bytes := bytes[tile := bytes[tile] + 8 + 4 * Bit(reset)];
      patches := patches[tile := patches[tile] + Bit(reset)];
      signatures := signatures[tile := signatures[tile].Then(EventSignature(hash, Pointer(reset)))];
      receiveEnd := receiveEnd[tile := Some(address + size)];
    }

    /** Equal copy rows in closed form leave the state of every chunk added by itself. */
    method AddConnectionRows(route: Route, address: nat, size: nat, rows: nat, stride: nat, ghost tiles: nat)
      requires Valid(tiles) && route.Valid(tiles)
      modifies this
      ensures Valid(tiles) && View() == EnumeratedRows(old(View()), route, address, size, rows, stride)
    {
      hide Signature.Then, Rows, DivCeil;
      if size == 0 || rows == 0 {
        EmptyRows(View(), route, address, rows, stride);
      } else if rows == 1 && size <= route.limit {
        ghost var before := View();
        AddConnection(route, size, false, tiles);
        AddReceive(route.target, address, size, route.hash, tiles);
        OneChunk(before, route, address, size, stride);
      } else {
        AddManyRows(route, address, size, rows, stride, tiles);
      }
    }

    method AddManyRows(route: Route, address: nat, size: nat, rows: nat, stride: nat, ghost tiles: nat)
      requires Valid(tiles) && route.Valid(tiles) && size > 0 && rows > 0
      modifies this
      ensures Valid(tiles) && View() == EnumeratedRows(old(View()), route, address, size, rows, stride)
    {
      hide Signature.Then, Rows, DivCeil, EnumeratedRows;
      ghost var before := View();
      var s, t := route.source, route.target;
      var chunks := DivCeil(size, route.limit);
      var reset := receiveEnd[t] != Some(address);
      var resets := Bit(reset) + (rows - 1) * Bit(stride != size);
      RowsSizes(route, size, rows, stride, reset);
      RowsAreEnumerated(before, route, address, size, rows, stride);
      var tx, rx := BuildRows(route, size, rows, stride, reset);
      bytes := bytes[t := bytes[t] + (rows * chunks * 8 + resets * 4)];
      patches := patches[t := patches[t] + resets];
      signatures := signatures[s := signatures[s].Then(tx)];
      signatures := signatures[t := signatures[t].Then(rx)];
      receiveEnd := receiveEnd[t := Some(address + (rows - 1) * stride + size)];
    }
  }

  /** The two fingerprints of all rows: the first row, then the others by repetition. */
  method BuildRows(route: Route, size: nat, rows: nat, stride: nat, reset: bool) returns (tx: Signature, rx: Signature)
    requires route.limit > 0 && size > 0 && rows > 0
    ensures var all := Rows(route, size, rows, stride, reset); tx == all.tx && rx == all.rx
  {
    hide Signature.Then, Row;
    tx, rx := BuildRow(route, size, reset);
    var moreTx, moreRx := Empty, Empty;
    if rows > 1 {
      moreTx, moreRx := BuildRow(route, size, stride != size);
    }
    ghost var other := Row(route, size, stride != size);
    DeltaPowerIs(other, rows - 1);
    RowIsValid(route, size, stride != size);
    var txs := Repeat(moreTx, rows - 1);
    var rxs := Repeat(moreRx, rows - 1);
    tx, rx := tx.Then(txs), rx.Then(rxs);
  }

  lemma OneChunk(p: Phase, route: Route, address: nat, size: nat, stride: nat)
    requires route.Valid(|p.bytes|) && p.Valid(|p.bytes|) && 0 < size <= route.limit
    ensures EnumeratedRows(p, route, address, size, 1, stride)
         == Receive(Connection(p, route, size, false), route.target, address, size, route.hash)
  {
    hide Signature.Then;
    var done := Receive(Connection(p, route, size, false), route.target, address, size, route.hash);
    assert EnumeratedRow(done, route, address + size, 0) == done;
    assert EnumeratedRows(done, route, address + stride, size, 0, stride) == done;
  }
}
