/** Writing a profile report (crates/ipu-cli/src/profile_report.rs).

    Samples are stored as rows of indices into tables of distinct strings, metadata sets,
    steps and transfer streams. The metadata is flattened into one list; for a report with
    separate files the streams are reordered by phase, the rows renumbered, and the streams
    cut into chunks of bounded size. The module proves that reading the files gives the
    report back, except for the number that each step had in its tile's plan. */
module ProfileReport {
  import opened ProfileFiles

  // ---------------------------------------------------------------------------
  // Interning
  // ---------------------------------------------------------------------------

  /** Distinct values in order of first use, and where each is. */
  datatype Table<T> = Table(values: seq<T>, indices: map<T, int>)

  ghost predicate TableValid<T(!new)>(t: Table<T>) {
    && (forall i :: 0 <= i < |t.values| ==> t.values[i] in t.indices && t.indices[t.values[i]] == i)
    && (forall v :: v in t.indices ==> 0 <= t.indices[v] < |t.values| && t.values[t.indices[v]] == v)
  }

  /** Adds the value if it is new; its index reads back as the value. */
  method Intern<T(==, !new)>(t: Table<T>, value: T) returns (next: Table<T>, index: nat)
    requires TableValid(t)
    ensures TableValid(next) && t.values <= next.values
    ensures index < |next.values| && next.values[index] == value
    ensures next.values == t.values || (value !in t.values && next.values == t.values + [value])
  {
    if value in t.indices {
      return t, t.indices[value];
    }
    index := |t.values|;
    next := Table(t.values + [value], t.indices[value := index]);
  }

  /** Every value is stored once. */
  ghost predicate Distinct<T>(values: seq<T>) {
    forall i, j :: 0 <= i < j < |values| ==> values[i] != values[j]
  }

  lemma TableIsDistinct<T(!new)>(t: Table<T>)
    requires TableValid(t)
    ensures Distinct(t.values)
  {
  }

  /** The metadata sets are lists of pairs of string indices. */
  datatype Tables = Tables(strings: Table<string>, metadata: Table<seq<(nat, nat)>>, steps: Table<StepRow>,
                           streams: Table<seq<Activity>>)

  ghost predicate Valid(t: Tables) {
    TableValid(t.strings) && TableValid(t.metadata) && TableValid(t.steps) && TableValid(t.streams)
  }

  /** The later tables keep what the earlier ones hold. */
  ghost predicate Extends(before: Tables, after: Tables) {
    && before.strings.values <= after.strings.values && before.metadata.values <= after.metadata.values
    && before.steps.values <= after.steps.values && before.streams.values <= after.streams.values
  }

  // ---------------------------------------------------------------------------
  // Reading back from the tables
  // ---------------------------------------------------------------------------

  ghost predicate ReadsString(t: Tables, index: nat, text: string) {
    index < |t.strings.values| && t.strings.values[index] == text
  }

  ghost predicate ReadsEntries(t: Tables, pairs: seq<(nat, nat)>, entries: seq<Entry>) {
    |pairs| == |entries|
    && forall k :: 0 <= k < |pairs| ==> ReadsString(t, pairs[k].0, entries[k].name) && ReadsString(t, pairs[k].1, entries[k].value)
  }

  ghost predicate ReadsStep(t: Tables, row: StepRow, step: Step) {
    && row.phase == step.phase && row.epoch == step.epoch && row.kind == step.kind && row.eventCycles == step.eventCycles
    && ReadsString(t, row.operation, step.operation) && ReadsString(t, row.kernel, step.kernel)
    && row.metadata < |t.metadata.values| && ReadsEntries(t, t.metadata.values[row.metadata], step.metadata)
  }

  /** The row leads back to every field of the sample but the number of its step. */
  ghost predicate ReadsSample(t: Tables, base: nat, row: SampleRow, sample: Sample) {
    && base < U32 && row.start < U32 && row.duration < U32
    && row.step < |t.steps.values| && ReadsStep(t, t.steps.values[row.step], sample.step)
    && Plus(base, row.start) == sample.start && Plus(Plus(base, row.start), row.duration) == sample.end
    && row.stream < |t.streams.values| && t.streams.values[row.stream] == sample.step.activities
  }

  lemma ReadsPersist(before: Tables, after: Tables, base: nat, row: SampleRow, sample: Sample)
    requires Extends(before, after) && ReadsSample(before, base, row, sample)
    ensures ReadsSample(after, base, row, sample)
  {
    EntriesPersist(before, after, before.metadata.values[before.steps.values[row.step].metadata], sample.step.metadata);
  }

  lemma EntriesPersist(before: Tables, after: Tables, pairs: seq<(nat, nat)>, entries: seq<Entry>)
    requires Extends(before, after) && ReadsEntries(before, pairs, entries)
    ensures ReadsEntries(after, pairs, entries)
  {
  }

  // ---------------------------------------------------------------------------
  // Encoding
  // ---------------------------------------------------------------------------

  method EncodeEntries(t: Tables, entries: seq<Entry>) returns (next: Tables, pairs: seq<(nat, nat)>)
    requires Valid(t)
    ensures Valid(next) && Extends(t, next) && ReadsEntries(next, pairs, entries)
  {
    hide TableValid;
    next := t;
    pairs := [];
    for k := 0 to |entries|
      invariant Valid(next) && Extends(t, next) && ReadsEntries(next, pairs, entries[..k])
    {
      ghost var before := next;
      var strings, name := Intern(next.strings, entries[k].name);
      var more, value := Intern(strings, entries[k].value);
      next := next.(strings := more);
      EntriesPersist(before, next, pairs, entries[..k]);
      pairs := pairs + [(name, value)];
      assert entries[..k + 1] == entries[..k] + [entries[k]];
    }
    assert entries[..|entries|] == entries;
  }

  method EncodeStep(t: Tables, step: Step) returns (next: Tables, row: StepRow)
    requires Valid(t)
    ensures Valid(next) && Extends(t, next) && ReadsStep(next, row, step)
  {
    hide TableValid, ReadsEntries;
    var withEntries, pairs := EncodeEntries(t, step.metadata);
    var sets, metadata := Intern(withEntries.metadata, pairs);
    var strings, operation := Intern(withEntries.strings, step.operation);
    var more, kernel := Intern(strings, step.kernel);
    next := withEntries.(metadata := sets, strings := more);
    EntriesPersist(withEntries, next, pairs, step.metadata);
    row := StepRow(step.phase, step.epoch, operation, kernel, metadata, step.kind, step.eventCycles);
  }

  method EncodeSample(t: Tables, base: nat, sample: Sample) returns (next: Tables, row: SampleRow)
    requires Valid(t) && base < U32 && sample.Valid()
    ensures Valid(next) && Extends(t, next) && ReadsSample(next, base, row, sample)
  {
    hide TableValid, ReadsStep;
    var withStep, stepRow := EncodeStep(t, sample.step);
    var steps, step := Intern(withStep.steps, stepRow);
    var streams, stream := Intern(withStep.streams, sample.step.activities);
    next := withStep.(steps := steps, streams := streams);
    StepPersists(withStep, next, stepRow, sample.step);
    row := SampleRow(step, Minus(sample.start, base), Minus(sample.end, sample.start), stream);
  }

  lemma StepPersists(before: Tables, after: Tables, row: StepRow, step: Step)
    requires Extends(before, after) && ReadsStep(before, row, step)
    ensures ReadsStep(after, row, step)
  {
    EntriesPersist(before, after, before.metadata.values[row.metadata], step.metadata);
  }

  /** The rows of a tile lead back to its samples, one by one. */
  ghost predicate ReadsTile(t: Tables, base: nat, rows: TileRows, tile: TileProfile) {
    && rows.physicalTile == tile.physicalTile && |rows.samples| == |tile.samples|
    && forall i :: 0 <= i < |rows.samples| ==> ReadsSample(t, base, rows.samples[i], tile.samples[i])
  }

  ghost predicate ReadsTiles(t: Tables, base: nat, rows: seq<TileRows>, tiles: seq<TileProfile>) {
    |rows| == |tiles| && forall i :: 0 <= i < |rows| ==> ReadsTile(t, base, rows[i], tiles[i])
  }

  lemma TilePersists(before: Tables, after: Tables, base: nat, rows: TileRows, tile: TileProfile)
    requires Extends(before, after) && ReadsTile(before, base, rows, tile)
    ensures ReadsTile(after, base, rows, tile)
  {
    hide Extends, ReadsSample;
    forall i | 0 <= i < |rows.samples|
      ensures ReadsSample(after, base, rows.samples[i], tile.samples[i])
    {
      ReadsPersist(before, after, base, rows.samples[i], tile.samples[i]);
    }
  }

  lemma TilesPersist(before: Tables, after: Tables, base: nat, rows: seq<TileRows>, tiles: seq<TileProfile>)
    requires Extends(before, after) && ReadsTiles(before, base, rows, tiles)
    ensures ReadsTiles(after, base, rows, tiles)
  {
    hide Extends, ReadsTile;
    forall i | 0 <= i < |rows|
      ensures ReadsTile(after, base, rows[i], tiles[i])
    {
      TilePersists(before, after, base, rows[i], tiles[i]);
    }
  }

  lemma ExtendsTwice(a: Tables, b: Tables, c: Tables)
    requires Extends(a, b) && Extends(b, c)
    ensures Extends(a, c)
  {
  }

  method EncodeTile(t: Tables, base: nat, tile: TileProfile) returns (next: Tables, rows: TileRows)
    requires Valid(t) && base < U32 && tile.Valid()
    ensures Valid(next) && Extends(t, next) && ReadsTile(next, base, rows, tile)
  {
    hide Valid, Extends, ReadsSample, ReadsTile;
    next, rows := t, TileRows(tile.physicalTile, []);
    NothingRead(t, base, tile.physicalTile);
    for i := 0 to |tile.samples|
      invariant Valid(next) && Extends(t, next)
      invariant ReadsTile(next, base, rows, TileProfile(tile.physicalTile, tile.samples[..i]))
    {
      var part := TileProfile(tile.physicalTile, tile.samples[..i]);
      var more, row := EncodeSample(next, base, tile.samples[i]);
      TilePersists(next, more, base, rows, part);
      OneRead(more, base, rows, part, row, tile.samples[i]);
      ExtendsTwice(t, next, more);
      assert tile.samples[..i + 1] == tile.samples[..i] + [tile.samples[i]];
      next, rows := more, TileRows(tile.physicalTile, rows.samples + [row]);
    }
    assert tile.samples[..|tile.samples|] == tile.samples;
  }

  lemma NothingRead(t: Tables, base: nat, physicalTile: nat)
    ensures Extends(t, t) && ReadsTile(t, base, TileRows(physicalTile, []), TileProfile(physicalTile, []))
  {
  }

  lemma OneRead(t: Tables, base: nat, rows: TileRows, tile: TileProfile, row: SampleRow, sample: Sample)
    requires ReadsTile(t, base, rows, tile) && ReadsSample(t, base, row, sample)
    ensures rows.physicalTile == tile.physicalTile
    ensures ReadsTile(t, base, TileRows(tile.physicalTile, rows.samples + [row]), TileProfile(tile.physicalTile, tile.samples + [sample]))
  {
    hide ReadsSample;
  }

  /** The rows of all samples, tile by tile, and the tables that they index. */
  method EncodeSamples(base: nat, report: Report) returns (t: Tables, tiles: seq<TileRows>)
    requires base < U32 && report.Valid()
    ensures Valid(t) && ReadsTiles(t, base, tiles, report.tiles)
  {
    hide Valid, Extends, ReadsTile;
    t := Tables(Table([], map[]), Table([], map[]), Table([], map[]), Table([], map[]));
    tiles := [];
    NothingEncoded(t);
    for i := 0 to |report.tiles|
      invariant Valid(t) && ReadsTiles(t, base, tiles, report.tiles[..i])
    {
      var next, rows := EncodeTile(t, base, report.tiles[i]);
      TilesPersist(t, next, base, tiles, report.tiles[..i]);
      assert report.tiles[..i + 1] == report.tiles[..i] + [report.tiles[i]];
      t, tiles := next, tiles + [rows];
    }
    assert report.tiles[..|report.tiles|] == report.tiles;
  }

  lemma NothingEncoded(t: Tables)
    requires t == Tables(Table([], map[]), Table([], map[]), Table([], map[]), Table([], map[]))
    ensures Valid(t)
  {
  }

  // ---------------------------------------------------------------------------
  // Flattened metadata
  // ---------------------------------------------------------------------------

  /** The pairs of all sets in one list; each set is found by its start and count. */
  method FlattenMetadata(sets: seq<seq<(nat, nat)>>) returns (flat: seq<nat>, ranges: seq<(nat, nat)>)
    ensures |ranges| == |sets|
    ensures forall i :: 0 <= i < |sets| ==> ReadsSet(flat, ranges[i], sets[i])
  {
    hide ReadsSet;
    flat, ranges := [], [];
    for i := 0 to |sets|
      invariant |ranges| == i && forall j :: 0 <= j < i ==> ReadsSet(flat, ranges[j], sets[j])
    {
      var start := |flat|;
      ghost var before := flat;
      StartsSet(flat);
      for k := 0 to |sets[i]|
        invariant before <= flat && ReadsSet(flat, (start, k), sets[i][..k]) && |flat| == start + 2 * k
      {
        var (name, value) := sets[i][k];
        AddsPair(flat, start, sets[i], k);
        flat := flat + [name, value];
      }
      assert sets[i][..|sets[i]|] == sets[i];
      forall j | 0 <= j < i
        ensures ReadsSet(flat, ranges[j], sets[j])
      {
        SetPersists(before, flat, ranges[j], sets[j]);
      }
      ranges := ranges + [(start, |sets[i]|)];
    }
  }

  ghost predicate ReadsSet(flat: seq<nat>, range: (nat, nat), pairs: seq<(nat, nat)>) {
    && range.1 == |pairs| && range.0 + 2 * range.1 <= |flat|
    && forall k :: 0 <= k < |pairs| ==> flat[range.0 + 2 * k] == pairs[k].0 && flat[range.0 + 2 * k + 1] == pairs[k].1
  }

  lemma StartsSet(flat: seq<nat>)
    ensures ReadsSet(flat, (|flat|, 0), [])
  {
  }

  lemma AddsPair(flat: seq<nat>, start: nat, pairs: seq<(nat, nat)>, k: nat)
    requires k < |pairs| && ReadsSet(flat, (start, k), pairs[..k]) && |flat| == start + 2 * k
    ensures ReadsSet(flat + [pairs[k].0, pairs[k].1], (start, k + 1), pairs[..k + 1])
  {
  }

  lemma SetPersists(before: seq<nat>, after: seq<nat>, range: (nat, nat), pairs: seq<(nat, nat)>)
    requires before <= after && ReadsSet(before, range, pairs)
    ensures ReadsSet(after, range, pairs)
  {
  }

  // ---------------------------------------------------------------------------
  // Reordering by phase
  // ---------------------------------------------------------------------------

  /** A key of two words, ordered by the first. */
  datatype Key = Key(epoch: nat, phase: nat)

  function AtMost(a: Key, b: Key): bool {
    a.epoch < b.epoch || (a.epoch == b.epoch && a.phase <= b.phase)
  }

  const LAST_KEY := Key(0xFFFF_FFFF, 0xFFFF_FFFF)

  /** The step and stream of every row are in the tables. */
  ghost predicate RowsIndex(steps: seq<StepRow>, count: nat, rows: seq<SampleRow>) {
    forall i :: 0 <= i < |rows| ==> rows[i].step < |steps| && rows[i].stream < count
  }

  ghost predicate TilesIndex(steps: seq<StepRow>, count: nat, tiles: seq<TileRows>) {
    forall i :: 0 <= i < |tiles| ==> RowsIndex(steps, count, tiles[i].samples)
  }

  ghost predicate StepsIndex(steps: seq<StepRow>, rows: seq<SampleRow>) {
    forall i :: 0 <= i < |rows| ==> rows[i].step < |steps|
  }

  function KeyOf(steps: seq<StepRow>, row: SampleRow): Key
    requires row.step < |steps|
  {
    Key(steps[row.step].epoch, steps[row.step].phase)
  }

  /** The earliest phase of the rows that use a stream. */
  ghost function Earliest(steps: seq<StepRow>, rows: seq<SampleRow>, stream: nat): Key
    requires StepsIndex(steps, rows)
  {
    if rows == [] then LAST_KEY
    else
      var row := rows[|rows| - 1];
      var before := Earliest(steps, rows[..|rows| - 1], stream);
      if row.stream != stream || AtMost(before, KeyOf(steps, row)) then before else KeyOf(steps, row)
  }

  lemma {:induction false} EarliestBounds(steps: seq<StepRow>, rows: seq<SampleRow>, stream: nat, i: nat)
    requires StepsIndex(steps, rows) && i < |rows| && rows[i].stream == stream
    ensures AtMost(Earliest(steps, rows, stream), KeyOf(steps, rows[i]))
  {
    if i < |rows| - 1 {
      EarliestBounds(steps, rows[..|rows| - 1], stream, i);
    }
  }

  /** The earliest phase is the phase of a row, unless no row that uses the stream precedes
      the greatest key. */
  lemma {:induction false} EarliestIsUsed(steps: seq<StepRow>, rows: seq<SampleRow>, stream: nat) returns (i: nat)
    requires StepsIndex(steps, rows) && Earliest(steps, rows, stream) != LAST_KEY
    ensures i < |rows| && rows[i].stream == stream && KeyOf(steps, rows[i]) == Earliest(steps, rows, stream)
  {
    var row := rows[|rows| - 1];
    var before := Earliest(steps, rows[..|rows| - 1], stream);
    if row.stream != stream || AtMost(before, KeyOf(steps, row)) {
      i := EarliestIsUsed(steps, rows[..|rows| - 1], stream);
    } else {
      i := |rows| - 1;
    }
  }

  /** The row's step begins in no later epoch than the other's, within an epoch in no later
      phase. */
  ghost predicate NotLater(steps: seq<StepRow>, x: SampleRow, y: SampleRow)
    requires x.step < |steps| && y.step < |steps|
  {
    && steps[x.step].epoch <= steps[y.step].epoch
    && (steps[x.step].epoch == steps[y.step].epoch ==> steps[x.step].phase <= steps[y.step].phase)
  }

  ghost predicate HasWords(steps: seq<StepRow>) {
    forall i :: 0 <= i < |steps| ==> steps[i].epoch < 0x1_0000_0000 && steps[i].phase < 0x1_0000_0000
  }

  ghost predicate HasRow(tiles: seq<TileRows>, row: SampleRow) {
    exists i :: 0 <= i < |tiles| && row in tiles[i].samples
  }

  /** Some row with the stream of `x` is not later than `y`. */
  ghost predicate Precedes(steps: seq<StepRow>, tiles: seq<TileRows>, x: SampleRow, y: SampleRow)
    requires forall row :: HasRow(tiles, row) ==> row.step < |steps|
    requires y.step < |steps|
  {
    exists z :: HasRow(tiles, z) && z.stream == x.stream && NotLater(steps, z, y)
  }

  /** A stream with a lower number is used no later than one with a higher number. */
  ghost predicate InPhaseOrder(steps: seq<StepRow>, tiles: seq<TileRows>) {
    && (forall row :: HasRow(tiles, row) ==> row.step < |steps|)
    && forall x, y :: HasRow(tiles, x) && HasRow(tiles, y) && x.stream < y.stream ==> Precedes(steps, tiles, x, y)
  }

  /** Streams whose keys are in order are used in order. */
  lemma EarlierIsUsed(steps: seq<StepRow>, rows: seq<SampleRow>, x: SampleRow, y: SampleRow) returns (z: SampleRow)
    requires StepsIndex(steps, rows) && HasWords(steps) && x in rows && y in rows
    requires AtMost(Earliest(steps, rows, x.stream), Earliest(steps, rows, y.stream))
    ensures z in rows && z.stream == x.stream && NotLater(steps, z, y)
  {
    var i :| 0 <= i < |rows| && rows[i] == x;
    var j :| 0 <= j < |rows| && rows[j] == y;
    EarliestBounds(steps, rows, x.stream, i);
    EarliestBounds(steps, rows, y.stream, j);
    if Earliest(steps, rows, x.stream) == LAST_KEY {
      z := x;
    } else {
      var k := EarliestIsUsed(steps, rows, x.stream);
      z := rows[k];
    }
  }

  /** The rows of all tiles in one list. */
  ghost function AllRows(tiles: seq<TileRows>): seq<SampleRow> {
    if tiles == [] then [] else AllRows(tiles[..|tiles| - 1]) + tiles[|tiles| - 1].samples
  }

  lemma {:induction false} AllRowsAre(tiles: seq<TileRows>, row: SampleRow)
    ensures row in AllRows(tiles) <==> HasRow(tiles, row)
  {
    if tiles != [] {
      var last := |tiles| - 1;
      AllRowsAre(tiles[..last], row);
      assert forall i :: 0 <= i < last ==> tiles[..last][i] == tiles[i];
      if row in tiles[last].samples {
        assert HasRow(tiles, row);
      } else if HasRow(tiles[..last], row) {
        var i :| 0 <= i < last && row in tiles[..last][i].samples;
        assert row in tiles[i].samples;
      }
    }
  }

  ghost predicate KeysAre(steps: seq<StepRow>, rows: seq<SampleRow>, keys: seq<Key>) {
    && RowsIndex(steps, |keys|, rows) && StepsIndex(steps, rows)
    && forall s: nat :: s < |keys| ==> keys[s] == Earliest(steps, rows, s)
  }

  lemma OneKey(steps: seq<StepRow>, rows: seq<SampleRow>, keys: seq<Key>, row: SampleRow)
    requires KeysAre(steps, rows, keys) && RowsIndex(steps, |keys|, [row])
    ensures [row][0] == row && row.stream < |keys|
    ensures var key := if AtMost(keys[row.stream], KeyOf(steps, row)) then keys[row.stream] else KeyOf(steps, row);
      KeysAre(steps, rows + [row], keys[row.stream := key])
  {
    assert [row][0] == row;
    assert (rows + [row])[..|rows|] == rows;
  }

  method PhaseKeys(steps: seq<StepRow>, count: nat, tiles: seq<TileRows>) returns (keys: array<Key>)
    requires TilesIndex(steps, count, tiles)
    ensures fresh(keys) && keys.Length == count && KeysAre(steps, AllRows(tiles), keys[..])
  {
    hide KeysAre, Earliest;
    keys := new Key[count](_ => LAST_KEY);
    ghost var rows := [];
    NoKeys(steps, keys[..]);
    for i := 0 to |tiles|
      invariant rows == AllRows(tiles[..i]) && KeysAre(steps, rows, keys[..])
    {
      for k := 0 to |tiles[i].samples|
        invariant rows == AllRows(tiles[..i]) + tiles[i].samples[..k] && KeysAre(steps, rows, keys[..])
      {
        var row := tiles[i].samples[k];
        assert RowsIndex(steps, count, tiles[i].samples);
        OneKey(steps, rows, keys[..], row);
        var key := KeyOf(steps, row);
        keys[row.stream] := if AtMost(keys[row.stream], key) then keys[row.stream] else key;
        rows := rows + [row];
      }
      assert tiles[..i + 1][..i] == tiles[..i];
      assert tiles[i].samples[..|tiles[i].samples|] == tiles[i].samples;
    }
    assert tiles[..|tiles|] == tiles;
  }

  lemma NoKeys(steps: seq<StepRow>, keys: seq<Key>)
    requires forall s :: 0 <= s < |keys| ==> keys[s] == LAST_KEY
    ensures KeysAre(steps, [], keys)
  {
  }

  /** What sorting the streams 0 to n - 1 by key may give. */
  ghost predicate SortsStreams(order: seq<nat>, keys: seq<Key>) {
    && |order| == |keys|
    && (forall i :: 0 <= i < |order| ==> order[i] < |keys|)
    && (forall i, j :: 0 <= i < j < |order| ==> order[i] != order[j])
    && (forall s: nat :: s < |keys| ==> s in order)
    && (forall i, j :: 0 <= i < j < |order| ==> AtMost(keys[order[i]], keys[order[j]]))
  }

  /** The new number of each stream, and the streams in their new order. */
  method Reorder(streams: seq<seq<Activity>>, order: seq<nat>, ghost keys: seq<Key>)
    returns (remap: array<nat>, moved: seq<seq<Activity>>)
    requires |keys| == |streams| && SortsStreams(order, keys)
    ensures fresh(remap) && remap.Length == |streams| == |moved|
    ensures forall s: nat :: s < |streams| ==> remap[s] < |moved| && moved[remap[s]] == streams[s]
    ensures forall s: nat, u: nat :: s < |streams| && u < |streams| && remap[s] < remap[u] ==> AtMost(keys[s], keys[u])
    ensures Distinct(streams) ==> Distinct(moved)
  {
    remap := new nat[|order|](_ => 0);
    moved := [];
    for new_ := 0 to |order|
      invariant |moved| == new_ && forall i :: 0 <= i < new_ ==> moved[i] == streams[order[i]]
      invariant forall i :: 0 <= i < new_ ==> remap[order[i]] == i
    {
      remap[order[new_]] := new_;
      moved := moved + [streams[order[new_]]];
    }
    forall s: nat | s < |streams|
      ensures remap[s] < |moved| && moved[remap[s]] == streams[s] && order[remap[s]] == s
    {
      assert s in order;
      var i :| 0 <= i < |order| && order[i] == s;
    }
  }

  // ---------------------------------------------------------------------------
  // Chunks
  // ---------------------------------------------------------------------------

  const CHUNK_EVENTS: nat := 20_000

  ghost function Events(streams: seq<seq<Activity>>, begin: nat, end: nat): nat
    requires begin <= end <= |streams|
  {
    if begin == end then 0 else Events(streams, begin, end - 1) + |streams[end - 1]|
  }

  ghost predicate IsChunk(streams: seq<seq<Activity>>, c: Chunk) {
    && c.begin < c.end <= |streams| && c.streams == streams[c.begin..c.end]
    && c.events == Events(streams, c.begin, c.end)
    && Events(streams, c.begin, c.end - 1) < CHUNK_EVENTS
  }

  /** The chunks follow one another from the first stream up to `end`. */
  ghost predicate Chain(chunks: seq<Chunk>, end: nat) {
    && (chunks == [] ==> end == 0)
    && (chunks != [] ==> chunks[0].begin == 0 && chunks[|chunks| - 1].end == end)
    && forall k :: 0 <= k < |chunks| - 1 ==> chunks[k].end == chunks[k + 1].begin
  }

  lemma NoChain()
    ensures Chain([], 0)
  {
  }

  lemma ChainNext(chunks: seq<Chunk>, end: nat, next: Chunk)
    requires Chain(chunks, end) && next.begin == end
    ensures Chain(chunks + [next], next.end)
  {
  }

  lemma NextIsChunk(streams: seq<seq<Activity>>, c: Chunk)
    requires c.begin < c.end <= |streams| && c.streams == streams[c.begin..c.end] && c.events == Events(streams, c.begin, c.end)
    requires Events(streams, c.begin, c.end - 1) < CHUNK_EVENTS
    ensures IsChunk(streams, c)
  {
  }

  /** Cuts the streams into chunks; only a single stream can make one exceed the limit. */
  method CutChunks(streams: seq<seq<Activity>>) returns (chunks: seq<Chunk>)
    ensures forall k :: 0 <= k < |chunks| ==> IsChunk(streams, chunks[k])
    ensures Chain(chunks, |streams|)
    ensures forall k :: 0 <= k < |chunks| - 1 ==> chunks[k].events >= CHUNK_EVENTS
  {
    hide Chain, IsChunk;
    chunks := [];
    NoChain();
    var begin, events := 0, 0;
    for index := 0 to |streams|
      invariant begin <= index && events == Events(streams, begin, index)
      invariant events < CHUNK_EVENTS
      invariant Chain(chunks, begin) && (index == |streams| ==> begin == index)
      invariant forall k :: 0 <= k < |chunks| ==> IsChunk(streams, chunks[k])
      invariant index < |streams| ==> forall k :: 0 <= k < |chunks| ==> chunks[k].events >= CHUNK_EVENTS
      invariant forall k :: 0 <= k < |chunks| - 1 ==> chunks[k].events >= CHUNK_EVENTS
    {
      events := events + |streams[index]|;
      if events >= CHUNK_EVENTS || index + 1 == |streams| {
        var chunk := Chunk(begin, index + 1, events, streams[begin..index + 1]);
        ChainNext(chunks, begin, chunk);
        NextIsChunk(streams, chunk);
        chunks := chunks + [chunk];
        begin := index + 1;
        events := 0;
      }
    }
  }

  /** Every stream is in exactly one chunk, at its number minus the chunk's first. */
  lemma {:induction false} InOneChunk(streams: seq<seq<Activity>>, chunks: seq<Chunk>, end: nat, s: nat) returns (c: nat)
    requires (forall k :: 0 <= k < |chunks| ==> IsChunk(streams, chunks[k])) && Chain(chunks, end) && s < end
    ensures c < |chunks| && IsChunk(streams, chunks[c]) && chunks[c].begin <= s < chunks[c].end
    ensures chunks[c].streams[s - chunks[c].begin] == streams[s]
    decreases |chunks|
  {
    var last := |chunks| - 1;
    assert IsChunk(streams, chunks[last]);
    if chunks[last].begin <= s {
      c := last;
    } else {
      assert Chain(chunks[..last], chunks[last].begin);
      c := InOneChunk(streams, chunks[..last], chunks[last].begin, s);
    }
  }

  lemma {:induction false} ChunksApart(streams: seq<seq<Activity>>, chunks: seq<Chunk>, end: nat, a: nat, b: nat)
    requires (forall k :: 0 <= k < |chunks| ==> IsChunk(streams, chunks[k])) && Chain(chunks, end) && a < b < |chunks|
    ensures chunks[a].end <= chunks[b].begin
    decreases b
  {
    if a < b - 1 {
      ChunksApart(streams, chunks, end, a, b - 1);
      assert IsChunk(streams, chunks[b - 1]);
    }
  }

  /** A reader that goes through the chunks gets the stream with its number. */
  lemma {:induction false} ChunksRead(streams: seq<seq<Activity>>, chunks: seq<Chunk>, end: nat, s: nat)
    requires (forall k :: 0 <= k < |chunks| ==> IsChunk(streams, chunks[k])) && Chain(chunks, end) && s < end <= |streams|
    ensures ChunkedStream(chunks, s, |chunks|) == Some(streams[s])
  {
    var c := InOneChunk(streams, chunks, end, s);
    ChunkIsRead(streams, chunks, end, s, c, |chunks|);
  }

  lemma {:induction false} ChunkIsRead(streams: seq<seq<Activity>>, chunks: seq<Chunk>, end: nat, s: nat, c: nat, n: nat)
    requires (forall k :: 0 <= k < |chunks| ==> IsChunk(streams, chunks[k])) && Chain(chunks, end)
    requires c < n <= |chunks| && chunks[c].begin <= s < chunks[c].end <= |streams|
    ensures ChunkedStream(chunks, s, n) == Some(streams[s])
  {
    hide Chain;
    assert IsChunk(streams, chunks[c]);
    if c < n - 1 {
      ChunksApart(streams, chunks, end, c, n - 1);
      ChunkIsRead(streams, chunks, end, s, c, n - 1);
    }
  }

  /** The events of all streams in one list. */
  ghost function Joined(streams: seq<seq<Activity>>): seq<Activity> {
    if streams == [] then [] else Joined(streams[..|streams| - 1]) + streams[|streams| - 1]
  }

  /** The chunk holds and counts the streams in its bounds; without the last of them it is
      below the limit. */
  ghost predicate Small(c: Chunk) {
    && c.begin < c.end && |c.streams| == c.end - c.begin
    && c.events == |Joined(c.streams)| && |Joined(c.streams[..|c.streams| - 1])| < 20_000
  }

  /** The chunks take up the streams from the first one on, each but the last filled to the
      limit. */
  ghost predicate Cuts(chunks: seq<Chunk>) {
    && (forall k :: 0 <= k < |chunks| ==> Small(chunks[k]))
    && (forall k :: 0 <= k < |chunks| - 1 ==> chunks[k].events >= 20_000 && chunks[k].end == chunks[k + 1].begin)
    && (chunks != [] ==> chunks[0].begin == 0)
  }

  lemma {:induction false} EventsAreJoined(streams: seq<seq<Activity>>, n: nat)
    requires n <= |streams|
    ensures Events(streams, 0, n) == |Joined(streams[..n])|
  {
    if n > 0 {
      EventsAreJoined(streams, n - 1);
      assert streams[..n][..n - 1] == streams[..n - 1];
    }
  }

  lemma {:induction false} EventsOfSlice(streams: seq<seq<Activity>>, begin: nat, end: nat, n: nat)
    requires begin + n <= end <= |streams|
    ensures Events(streams[begin..end], 0, n) == Events(streams, begin, begin + n)
  {
    if n > 0 {
      EventsOfSlice(streams, begin, end, n - 1);
    }
  }

  lemma ChunkIsSmall(streams: seq<seq<Activity>>, c: Chunk)
    requires IsChunk(streams, c)
    ensures Small(c)
  {
    var n := c.end - c.begin;
    EventsOfSlice(streams, c.begin, c.end, n - 1);
    EventsOfSlice(streams, c.begin, c.end, n);
    EventsAreJoined(c.streams, n - 1);
    EventsAreJoined(c.streams, n);
    assert c.streams[..n] == c.streams;
  }

  // ---------------------------------------------------------------------------
  // Renumbered rows
  // ---------------------------------------------------------------------------

  /** The rows differ at most in the number of their stream, and lead to the same stream. */
  ghost predicate SameRow(t: Tables, f: Files, before: SampleRow, after: SampleRow) {
    && after == before.(stream := after.stream) && before.stream < |t.streams.values|
    && StreamOf(f, after.stream) == Some(t.streams.values[before.stream])
  }

  ghost predicate SameTile(t: Tables, f: Files, before: TileRows, after: TileRows) {
    && after.physicalTile == before.physicalTile && |after.samples| == |before.samples|
    && forall i :: 0 <= i < |before.samples| ==> SameRow(t, f, before.samples[i], after.samples[i])
  }

  ghost predicate SameTiles(t: Tables, f: Files, before: seq<TileRows>, after: seq<TileRows>) {
    |after| == |before| && forall i :: 0 <= i < |before| ==> SameTile(t, f, before[i], after[i])
  }

  ghost predicate Renumbers(remap: seq<nat>, before: TileRows, after: TileRows) {
    && after.physicalTile == before.physicalTile && |after.samples| == |before.samples|
    && forall i :: 0 <= i < |before.samples| ==>
         && before.samples[i].stream < |remap|
         && after.samples[i] == before.samples[i].(stream := remap[before.samples[i].stream])
  }

  method Renumber(ghost steps: seq<StepRow>, tiles: seq<TileRows>, remap: array<nat>) returns (moved: seq<TileRows>)
    requires TilesIndex(steps, remap.Length, tiles)
    ensures |moved| == |tiles| && forall i :: 0 <= i < |tiles| ==> Renumbers(remap[..], tiles[i], moved[i])
  {
    moved := [];
    for i := 0 to |tiles|
      invariant |moved| == i && forall j :: 0 <= j < i ==> Renumbers(remap[..], tiles[j], moved[j])
    {
      var rows: seq<SampleRow> := [];
      assert RowsIndex(steps, remap.Length, tiles[i].samples);
      for k := 0 to |tiles[i].samples|
        invariant |rows| == k && forall j :: 0 <= j < k ==>
                    rows[j] == tiles[i].samples[j].(stream := remap[tiles[i].samples[j].stream])
      {
        rows := rows + [tiles[i].samples[k].(stream := remap[tiles[i].samples[k].stream])];
      }
      moved := moved + [TileRows(tiles[i].physicalTile, rows)];
    }
  }

  lemma RowBefore(remap: seq<nat>, before: seq<TileRows>, after: seq<TileRows>, row: SampleRow) returns (old_: SampleRow)
    requires |after| == |before| && forall i :: 0 <= i < |before| ==> Renumbers(remap, before[i], after[i])
    requires HasRow(after, row)
    ensures HasRow(before, old_) && old_.stream < |remap| && row == old_.(stream := remap[old_.stream])
  {
    var i :| 0 <= i < |after| && row in after[i].samples;
    var k :| 0 <= k < |after[i].samples| && after[i].samples[k] == row;
    assert Renumbers(remap, before[i], after[i]);
    old_ := before[i].samples[k];
  }

  lemma RowAfter(remap: seq<nat>, before: seq<TileRows>, after: seq<TileRows>, row: SampleRow)
    requires |after| == |before| && forall i :: 0 <= i < |before| ==> Renumbers(remap, before[i], after[i])
    requires HasRow(before, row)
    ensures row.stream < |remap| && HasRow(after, row.(stream := remap[row.stream]))
  {
    var i :| 0 <= i < |before| && row in before[i].samples;
    var k :| 0 <= k < |before[i].samples| && before[i].samples[k] == row;
    assert Renumbers(remap, before[i], after[i]);
    assert after[i].samples[k] in after[i].samples;
  }

  /** Rows renumbered by the order of the keys use lower numbers no later. */
  lemma RenumberedInOrder(steps: seq<StepRow>, remap: seq<nat>, keys: seq<Key>, before: seq<TileRows>, after: seq<TileRows>)
    requires |after| == |before| && forall i :: 0 <= i < |before| ==> Renumbers(remap, before[i], after[i])
    requires KeysAre(steps, AllRows(before), keys) && HasWords(steps) && |keys| == |remap|
    requires forall s: nat, u: nat :: s < |remap| && u < |remap| && remap[s] < remap[u] ==> AtMost(keys[s], keys[u])
    ensures InPhaseOrder(steps, after)
  {
    hide Renumbers, HasRow, AtMost, NotLater, Earliest;
    var rows := AllRows(before);
    forall x | HasRow(after, x)
      ensures x.step < |steps|
    {
      var a := RowBefore(remap, before, after, x);
      AllRowsAre(before, a);
    }
    forall x, y | HasRow(after, x) && HasRow(after, y) && x.stream < y.stream
      ensures Precedes(steps, after, x, y)
    {
      var a := RowBefore(remap, before, after, x);
      var b := RowBefore(remap, before, after, y);
      AllRowsAre(before, a);
      AllRowsAre(before, b);
      var c := EarlierIsUsed(steps, rows, a, b);
      AllRowsAre(before, c);
      RowAfter(remap, before, after, c);
      SameSteps(steps, c, c.(stream := remap[c.stream]), b, y);
    }
  }

  lemma SameSteps(steps: seq<StepRow>, x: SampleRow, newX: SampleRow, y: SampleRow, newY: SampleRow)
    requires x.step < |steps| && y.step < |steps| && newX.step == x.step && newY.step == y.step && NotLater(steps, x, y)
    ensures NotLater(steps, newX, newY)
  {
  }

  lemma RenumberedTile(t: Tables, f: Files, remap: seq<nat>, before: TileRows, after: TileRows)
    requires RowsIndex(t.steps.values, |t.streams.values|, before.samples) && Renumbers(remap, before, after) && |remap| == |t.streams.values|
    requires forall s: nat :: s < |remap| ==> StreamOf(f, remap[s]) == Some(t.streams.values[s])
    ensures SameTile(t, f, before, after)
  {
    hide StreamOf;
  }

  // ---------------------------------------------------------------------------
  // The whole report
  // ---------------------------------------------------------------------------

  /** The files hold the tables, the metadata sets by their ranges in the flat list. */
  ghost predicate Holds(f: Files, t: Tables) {
    && f.strings == t.strings.values && f.steps == t.steps.values
    && |f.metadataSets| == |t.metadata.values|
    && forall i :: 0 <= i < |f.metadataSets| ==> ReadsSet(f.metadata, f.metadataSets[i], t.metadata.values[i])
  }

  lemma SetReads(f: Files, t: Tables, index: nat, entries: seq<Entry>)
    requires Holds(f, t) && index < |t.metadata.values| && ReadsEntries(t, t.metadata.values[index], entries)
    ensures SetInside(f, f.metadataSets[index]) && ReadEntries(f, f.metadataSets[index]) == entries
  {
    var range, pairs := f.metadataSets[index], t.metadata.values[index];
    assert ReadsSet(f.metadata, range, pairs);
    forall k | range.0 <= k < range.0 + 2 * range.1
      ensures f.metadata[k] < |f.strings|
    {
      var pair := (k - range.0) / 2;
      assert ReadsString(t, pairs[pair].0, entries[pair].name) && ReadsString(t, pairs[pair].1, entries[pair].value);
      assert k == range.0 + 2 * pair || k == range.0 + 2 * pair + 1;
    }
    forall k | 0 <= k < range.1
      ensures ReadEntries(f, range)[k] == entries[k]
    {
      assert ReadsString(t, pairs[k].0, entries[k].name) && ReadsString(t, pairs[k].1, entries[k].value);
    }
  }

  lemma SampleReads(f: Files, t: Tables, base: nat, before: SampleRow, after: SampleRow, sample: Sample, index: nat)
    requires Holds(f, t) && ReadsSample(t, base, before, sample) && SameRow(t, f, before, after)
    ensures RowInside(f, after) && ReadSample(f, base, after, index) == sample.Numbered(index)
  {
    hide Holds, SetInside, ReadsEntries, StreamOf, Minus, Plus, ReadEntries;
    HoldsTables(f, t);
    SetReads(f, t, t.steps.values[before.step].metadata, sample.step.metadata);
  }

  lemma HoldsTables(f: Files, t: Tables)
    requires Holds(f, t)
    ensures f.strings == t.strings.values && f.steps == t.steps.values && |f.metadataSets| == |t.metadata.values|
  {
  }

  lemma TileReads(f: Files, t: Tables, base: nat, before: TileRows, after: TileRows, tile: TileProfile)
    requires Holds(f, t) && base < U32 && ReadsTile(t, base, before, tile) && SameTile(t, f, before, after)
    ensures TileInside(f, after) && ReadTile(f, base, after) == tile.Numbered()
  {
    hide Holds, ReadsSample, SameRow, RowInside, ReadSample;
    forall i | 0 <= i < |after.samples|
      ensures RowInside(f, after.samples[i]) && ReadSample(f, base, after.samples[i], i) == tile.samples[i].Numbered(i)
    {
      SampleReads(f, t, base, before.samples[i], after.samples[i], tile.samples[i], i);
    }
  }

  lemma ReportReads(f: Files, t: Tables, base: nat, before: seq<TileRows>, report: Report)
    requires Holds(f, t) && base < U32 && f.clockHz == report.clockHz
    requires ReadsTiles(t, base, before, report.tiles) && SameTiles(t, f, before, f.tiles)
    ensures Inside(f) && ReadReport(f, base) == report.Numbered() && ShowReport(f, base) == report.Numbered().Shown()
  {
    hide Holds, ReadsTile, SameTile, TileInside, ReadTile, TileProfile.Numbered, TileProfile.Shown;
    forall i | 0 <= i < |f.tiles|
      ensures TileInside(f, f.tiles[i]) && ReadTile(f, base, f.tiles[i]) == report.tiles[i].Numbered()
    {
      TileReads(f, t, base, before[i], f.tiles[i], report.tiles[i]);
    }
  }

  lemma TilesAreIndexed(t: Tables, base: nat, rows: seq<TileRows>, tiles: seq<TileProfile>)
    requires ReadsTiles(t, base, rows, tiles)
    ensures |rows| == |tiles|
    ensures TilesIndex(t.steps.values, |t.streams.values|, rows)
  {
    forall i | 0 <= i < |rows|
      ensures RowsIndex(t.steps.values, |t.streams.values|, rows[i].samples)
    {
      assert ReadsTile(t, base, rows[i], tiles[i]);
      forall k | 0 <= k < |rows[i].samples|
        ensures rows[i].samples[k].step < |t.steps.values| && rows[i].samples[k].stream < |t.streams.values|
      {
        assert ReadsSample(t, base, rows[i].samples[k], tiles[i].samples[k]);
      }
    }
  }

  ghost function SampleCount(tiles: seq<TileProfile>): nat {
    if tiles == [] then 0 else SampleCount(tiles[..|tiles| - 1]) + |tiles[|tiles| - 1].samples|
  }

  method CountSamples(tiles: seq<TileProfile>) returns (count: nat)
    ensures count == SampleCount(tiles)
  {
    count := 0;
    for i := 0 to |tiles|
      invariant count == SampleCount(tiles[..i])
    {
      assert tiles[..i + 1][..i] == tiles[..i];
      count := count + |tiles[i].samples|;
    }
    assert tiles[..|tiles|] == tiles;
  }

  /** No string, step or stream is stored twice. */
  ghost predicate StoresOnce(f: Files) {
    && Distinct(f.strings) && Distinct(f.steps)
    && forall s, u :: 0 <= s < u && StreamOf(f, u).Some? ==> StreamOf(f, s) != StreamOf(f, u)
  }

  lemma ChunksHoldOnce(f: Files, moved: seq<seq<Activity>>)
    requires Distinct(f.strings) && Distinct(f.steps) && Distinct(moved) && f.streams == []
    requires (forall k :: 0 <= k < |f.chunks| ==> IsChunk(moved, f.chunks[k])) && Chain(f.chunks, |moved|)
    ensures StoresOnce(f)
  {
    hide IsChunk, Chain, ChunkedStream;
    forall s: nat, u: nat | s < u && StreamOf(f, u).Some?
      ensures StreamOf(f, s) != StreamOf(f, u)
    {
      if u >= |moved| {
        NothingBeyond(moved, f.chunks, u, |f.chunks|);
      } else {
        ChunksRead(moved, f.chunks, |moved|, s);
        ChunksRead(moved, f.chunks, |moved|, u);
      }
    }
  }

  lemma {:induction false} NothingBeyond(streams: seq<seq<Activity>>, chunks: seq<Chunk>, s: nat, n: nat)
    requires (forall k :: 0 <= k < |chunks| ==> IsChunk(streams, chunks[k])) && |streams| <= s && n <= |chunks|
    ensures ChunkedStream(chunks, s, n) == None
  {
    if n > 0 {
      assert IsChunk(streams, chunks[n - 1]);
      NothingBeyond(streams, chunks, s, n - 1);
    }
  }

  /** The report with everything in one file. */
  method Payload(base: nat, report: Report) returns (f: Files, ghost t: Tables)
    requires base < U32 && report.Valid()
    ensures Holds(f, t) && f.streams == t.streams.values && f.chunks == []
    ensures StoresOnce(f) && Distinct(f.streams)
    ensures ReadsTiles(t, base, f.tiles, report.tiles)
    ensures f.clockHz == report.clockHz && f.tileCount == |report.tiles| && f.sampleCount == SampleCount(report.tiles)
  {
    hide ReadsTiles, ReadsSet, TableValid, Distinct;
    var tables, tiles := EncodeSamples(base, report);
    var count := CountSamples(report.tiles);
    var metadata, sets := FlattenMetadata(tables.metadata.values);
    t := tables;
    f := Files(report.clockHz, |report.tiles|, count, tables.strings.values, metadata, sets, tables.steps.values,
               tables.streams.values, [], tiles);
    TableIsDistinct(tables.strings);
    TableIsDistinct(tables.steps);
    TableIsDistinct(tables.streams);
    OneFileHoldsOnce(f);
  }

  lemma OneFileHoldsOnce(f: Files)
    requires Distinct(f.strings) && Distinct(f.steps) && Distinct(f.streams) && f.chunks == []
    ensures StoresOnce(f)
  {
  }

  lemma OneFileReads(f: Files, t: Tables, base: nat, report: Report)
    requires base < U32 && f.streams == t.streams.values && ReadsTiles(t, base, f.tiles, report.tiles)
    ensures SameTiles(t, f, f.tiles, f.tiles)
  {
    hide ReadsTiles;
    TilesAreIndexed(t, base, f.tiles, report.tiles);
    forall i | 0 <= i < |f.tiles|
      ensures SameTile(t, f, f.tiles[i], f.tiles[i])
    {
      assert RowsIndex(t.steps.values, |t.streams.values|, f.tiles[i].samples);
    }
  }

  /** What the files hold does not depend on rows and chunks. */
  lemma SameHolds(a: Files, b: Files, t: Tables)
    requires Holds(a, t) && b == a.(streams := b.streams, chunks := b.chunks, tiles := b.tiles)
    ensures Holds(b, t)
  {
  }

  /** Streams in the order of their phases, rows renumbered to match, streams in chunks. */
  method SplitStreams(data: Files, ghost t: Tables, base: nat, ghost report: Report, sort: seq<Key> -> seq<nat>) returns (f: Files)
    requires base < U32 && Holds(data, t) && data.streams == t.streams.values
    requires ReadsTiles(t, base, data.tiles, report.tiles)
    requires forall keys :: SortsStreams(sort(keys), keys)
    requires StoresOnce(data) && Distinct(data.streams)
    ensures f == data.(streams := [], chunks := f.chunks, tiles := f.tiles) && SameTiles(t, f, data.tiles, f.tiles)
    ensures Cuts(f.chunks) && StoresOnce(f)
    ensures HasWords(f.steps) ==> InPhaseOrder(f.steps, f.tiles)
  {
    hide Distinct, HasWords, InPhaseOrder, AtMost, Small;
    hide Holds, ReadsTiles, KeysAre, SortsStreams, IsChunk, Chain, ChunkedStream, Renumbers, SameTile;
    TilesAreIndexed(t, base, data.tiles, report.tiles);
    HoldsTables(data, t);
    var keys := PhaseKeys(data.steps, |data.streams|, data.tiles);
    var remap, moved := Reorder(data.streams, sort(keys[..]), keys[..]);
    var tiles := Renumber(data.steps, data.tiles, remap);
    var chunks := CutChunks(moved);
    f := data.(streams := [], chunks := chunks, tiles := tiles);
    forall s: nat | s < |data.streams|
      ensures StreamOf(f, remap[s]) == Some(data.streams[s])
    {
      ChunksRead(moved, chunks, |moved|, remap[s]);
    }
    forall i | 0 <= i < |tiles|
      ensures SameTile(t, f, data.tiles[i], tiles[i])
    {
      RenumberedTile(t, f, remap[..], data.tiles[i], tiles[i]);
    }
    forall k | 0 <= k < |chunks|
      ensures Small(chunks[k])
    {
      ChunkIsSmall(moved, chunks[k]);
    }
    ChainIsCut(chunks, |moved|);
    ChunksHoldOnce(f, moved);
    if HasWords(f.steps) {
      RenumberedInOrder(f.steps, remap[..], keys[..], data.tiles, tiles);
    }
  }

  lemma ChainIsCut(chunks: seq<Chunk>, end: nat)
    requires Chain(chunks, end) && forall k :: 0 <= k < |chunks| ==> Small(chunks[k])
    requires forall k :: 0 <= k < |chunks| - 1 ==> chunks[k].events >= CHUNK_EVENTS
    ensures Cuts(chunks)
  {
    hide Small;
  }

  /** Whatever order the sort leaves among streams of one phase, reading the files gives the
      report with every step numbered by its sample's position: the report itself exactly
      when its samples are numbered so, and the page shows it so exactly when besides no
      compute step is inactive. Nothing is stored twice, each chunk ends with the stream
      that reaches the event limit, and streams are numbered in the order of their phases. */
  method WriteReport(base: nat, report: Report, singleFile: bool, sort: seq<Key> -> seq<nat>) returns (f: Files)
    requires base < U32 && report.Valid()
    requires forall keys :: SortsStreams(sort(keys), keys)
    ensures Inside(f) && ReadReport(f, base) == report.Numbered()
    ensures ReadReport(f, base) == report <==> report.InOrder()
    ensures ShowReport(f, base) == report <==> report.InOrder() && report.AllActive()
    ensures f.tileCount == |report.tiles| && f.sampleCount == SampleCount(report.tiles)
    ensures if singleFile then f.chunks == [] else f.streams == []
    ensures Cuts(f.chunks) && StoresOnce(f)
    ensures !singleFile && HasWords(f.steps) ==> InPhaseOrder(f.steps, f.tiles)
  {
    hide Distinct, StoresOnce, HasWords, InPhaseOrder;
    hide Holds, ReadsTiles, SameTiles, SortsStreams, Inside, ReadReport, Report.Valid, Report.InOrder, Report.Numbered, Report.Shown, Report.AllActive;
    ghost var t;
    f, t := Payload(base, report);
    ghost var data := f;
    if singleFile {
      OneFileReads(f, t, base, report);
    } else {
      f := SplitStreams(f, t, base, report, sort);
    }
    SameHolds(data, f, t);
    ReportReads(f, t, base, data.tiles, report);
    NumberedIff(report);
    ShownIff(report);
  }
}
