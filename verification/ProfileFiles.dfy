/** The files of a profile report and what a reader gets from them
    (crates/ipu-cli/src/profile_report.rs, profile_report.html, crates/ipu-package/src/profile.rs).

    The files hold tables of strings, metadata, steps and transfer streams, and per tile rows
    of indices into them. `ReadReport` follows the indices as the report page does; `ShowReport`
    also shows an inactive compute step as idle, as the page does. The files hold neither the
    origin of the cycles, which the reader is given, nor the number that a sample's step has in
    its tile's plan: the reader can only take the sample's position. */
module ProfileFiles {

  const U32: nat := 0x1_0000_0000

  // ---------------------------------------------------------------------------
  // The report
  // ---------------------------------------------------------------------------

  datatype Kind = Exchange | Compute | Synchronization | Idle

  datatype Activity = Activity(kind: nat, start: nat, end: nat, fanout: nat, paired: bool)

  datatype Entry = Entry(name: string, value: string)

  datatype Step = Step(localIndex: nat, phase: nat, epoch: nat, operation: string, kernel: string,
                       metadata: seq<Entry>, kind: Kind, eventCycles: nat, activities: seq<Activity>) {
    /** A compute step whose metadata says that it is not active. */
    predicate Inactive() {
      kind.Compute? && exists k :: 0 <= k < |metadata| && metadata[k] == Entry("active", "false")
    }
  }

  datatype Sample = Sample(step: Step, start: nat, end: nat) {
    ghost predicate Valid() {
      start < U32 && end < U32
    }

    /** The sample as the step with number `index` of its tile. */
    function Numbered(index: nat): Sample {
      this.(step := step.(localIndex := index))
    }

    /** The sample as the page shows it. */
    function Shown(): Sample {
      if step.Inactive() then this.(step := step.(kind := Idle)) else this
    }
  }

  datatype TileProfile = TileProfile(physicalTile: nat, samples: seq<Sample>) {
    ghost predicate Valid() {
      forall i :: 0 <= i < |samples| ==> samples[i].Valid()
    }

    /** Every sample is numbered by its position. */
    ghost predicate InOrder() {
      forall i :: 0 <= i < |samples| ==> samples[i].step.localIndex == i
    }

    function Numbered(): (r: TileProfile)
      ensures r.physicalTile == physicalTile && |r.samples| == |samples|
    {
      TileProfile(physicalTile, seq(|samples|, i requires 0 <= i < |samples| => samples[i].Numbered(i)))
    }

    ghost predicate AllActive() {
      forall i :: 0 <= i < |samples| ==> !samples[i].step.Inactive()
    }

    function Shown(): (r: TileProfile)
      ensures r.physicalTile == physicalTile && |r.samples| == |samples|
    {
      TileProfile(physicalTile, seq(|samples|, i requires 0 <= i < |samples| => samples[i].Shown()))
    }
  }

  datatype Report = Report(clockHz: nat, tiles: seq<TileProfile>) {
    ghost predicate Valid() {
      forall i :: 0 <= i < |tiles| ==> tiles[i].Valid()
    }

    /** What the package validator demands of every tile's steps. */
    ghost predicate InOrder() {
      forall i :: 0 <= i < |tiles| ==> tiles[i].InOrder()
    }

    /** The report with every sample numbered by its position in its tile. */
    function Numbered(): (r: Report)
      ensures r.clockHz == clockHz && |r.tiles| == |tiles|
    {
      Report(clockHz, seq(|tiles|, i requires 0 <= i < |tiles| => tiles[i].Numbered()))
    }

    /** No compute step is inactive. */
    ghost predicate AllActive() {
      forall i :: 0 <= i < |tiles| ==> tiles[i].AllActive()
    }

    function Shown(): (r: Report)
      ensures r.clockHz == clockHz && |r.tiles| == |tiles|
    {
      Report(clockHz, seq(|tiles|, i requires 0 <= i < |tiles| => tiles[i].Shown()))
    }
  }

  /** The page turns a compute step into an idle one exactly when an entry of its metadata is
      "active" with the value "false", and shows every other step as it is. */
  lemma ShownAsIdle(sample: Sample)
    ensures var idle := sample.step.kind == Compute && Entry("active", "false") in sample.step.metadata;
      sample.Shown() == Sample(if idle then sample.step.(kind := Idle) else sample.step, sample.start, sample.end)
  {
    var metadata := sample.step.metadata;
    if Entry("active", "false") in metadata {
      var k :| 0 <= k < |metadata| && metadata[k] == Entry("active", "false");
    }
  }

  /** Numbering by position changes nothing exactly when the samples are numbered so already. */
  lemma NumberedIff(report: Report)
    ensures report.Numbered() == report <==> report.InOrder()
  {
    forall i | 0 <= i < |report.tiles|
      ensures report.tiles[i].Numbered() == report.tiles[i] <==> report.tiles[i].InOrder()
    {
      TileNumberedIff(report.tiles[i]);
    }
    if report.Numbered() == report {
      forall i | 0 <= i < |report.tiles|
        ensures report.tiles[i].InOrder()
      {
        assert report.Numbered().tiles[i] == report.tiles[i];
      }
    }
  }

  lemma TileNumberedIff(tile: TileProfile)
    ensures tile.Numbered() == tile <==> tile.InOrder()
  {
    if tile.Numbered() == tile {
      forall i | 0 <= i < |tile.samples|
        ensures tile.samples[i].step.localIndex == i
      {
        assert tile.Numbered().samples[i] == tile.samples[i];
      }
    }
  }

  /** The page shows the report as it was recorded exactly when its samples are numbered by
      position and no compute step is inactive. */
  lemma ShownIff(report: Report)
    ensures report.Numbered().Shown() == report <==> report.InOrder() && report.AllActive()
  {
    var shown := report.Numbered().Shown();
    forall i | 0 <= i < |report.tiles|
      ensures shown.tiles[i] == report.tiles[i] <==> report.tiles[i].InOrder() && report.tiles[i].AllActive()
    {
      TileShownIff(report.tiles[i]);
    }
    if shown == report {
      forall i | 0 <= i < |report.tiles|
        ensures report.tiles[i].InOrder() && report.tiles[i].AllActive()
      {
        assert shown.tiles[i] == report.tiles[i];
      }
    }
  }

  lemma TileShownIff(tile: TileProfile)
    ensures tile.Numbered().Shown() == tile <==> tile.InOrder() && tile.AllActive()
  {
    var shown := tile.Numbered().Shown();
    forall i | 0 <= i < |tile.samples|
      ensures shown.samples[i] == tile.samples[i] <==> tile.samples[i].step.localIndex == i && !tile.samples[i].step.Inactive()
    {
      assert tile.Numbered().samples[i].step.Inactive() == tile.samples[i].step.Inactive();
    }
    if shown == tile {
      forall i | 0 <= i < |tile.samples|
        ensures tile.samples[i].step.localIndex == i && !tile.samples[i].step.Inactive()
      {
        assert shown.samples[i] == tile.samples[i];
      }
    }
  }

  /** A tile whose samples were recorded in reverse order of their steps. */
  lemma ReversedIsRenumbered(a: Sample, b: Sample)
    requires a.step.localIndex == 1 && b.step.localIndex == 0
    ensures var report := Report(1_500_000_000, [TileProfile(3, [a, b])]); report.Numbered() != report
  {
    var report := Report(1_500_000_000, [TileProfile(3, [a, b])]);
    NumberedIff(report);
    assert !report.tiles[0].InOrder() by {
      assert report.tiles[0].samples[0].step.localIndex != 0;
    }
  }

  // ---------------------------------------------------------------------------
  // The files
  // ---------------------------------------------------------------------------

  /** Operation, kernel and metadata are indices; the number of the step is not stored. */
  datatype StepRow = StepRow(phase: nat, epoch: nat, operation: nat, kernel: nat, metadata: nat, kind: Kind, eventCycles: nat)

  datatype SampleRow = SampleRow(step: nat, start: nat, duration: nat, stream: nat)

  datatype TileRows = TileRows(physicalTile: nat, samples: seq<SampleRow>)

  /** The streams from `begin` up to `end`, with the number of their events. */
  datatype Chunk = Chunk(begin: nat, end: nat, events: nat, streams: seq<seq<Activity>>)

  /** `streams` is used by a report in a single file, `chunks` by one with separate files. */
  datatype Files = Files(clockHz: nat, tileCount: nat, sampleCount: nat, strings: seq<string>,
                         metadata: seq<nat>, metadataSets: seq<(nat, nat)>, steps: seq<StepRow>,
                         streams: seq<seq<Activity>>, chunks: seq<Chunk>, tiles: seq<TileRows>)

  // ---------------------------------------------------------------------------
  // Reading
  // ---------------------------------------------------------------------------

  datatype Option<T> = None | Some(value: T)

  /** Wrapping subtraction of 32-bit cycle counters. */
  function Minus(a: nat, b: nat): (r: nat)
    requires a < U32 && b < U32
    ensures r < U32
  {
    if a >= b then a - b else a + U32 - b
  }

  function Plus(a: nat, b: nat): (r: nat)
    requires a < U32 && b < U32
    ensures r < U32
  {
    if a + b < U32 then a + b else a + b - U32
  }

  /** Differences and sums of counters wrap around at 32 bits. */
  lemma CountersWrap(a: nat, b: nat)
    requires a < U32 && b < U32
    ensures Minus(a, b) == (a - b) % 0x1_0000_0000 && Plus(a, b) == (a + b) % 0x1_0000_0000
  {
  }

  /** The stream with number `s` in the last of the first `n` chunks whose bounds hold it. */
  function ChunkedStream(chunks: seq<Chunk>, s: nat, n: nat): Option<seq<Activity>>
    requires n <= |chunks|
  {
    if n == 0 then None
    else
      var c := chunks[n - 1];
      if c.begin <= s < c.end then
        if s - c.begin < |c.streams| then Some(c.streams[s - c.begin]) else None
      else ChunkedStream(chunks, s, n - 1)
  }

  function StreamOf(f: Files, s: nat): Option<seq<Activity>> {
    if s < |f.streams| then Some(f.streams[s]) else ChunkedStream(f.chunks, s, |f.chunks|)
  }

  /** All indices of a metadata set lead to strings. */
  ghost predicate SetInside(f: Files, range: (nat, nat)) {
    && range.0 + 2 * range.1 <= |f.metadata|
    && forall k :: range.0 <= k < range.0 + 2 * range.1 ==> f.metadata[k] < |f.strings|
  }

  ghost predicate StepInside(f: Files, row: StepRow) {
    && row.operation < |f.strings| && row.kernel < |f.strings|
    && row.metadata < |f.metadataSets| && SetInside(f, f.metadataSets[row.metadata])
  }

  ghost predicate RowInside(f: Files, row: SampleRow) {
    && row.step < |f.steps| && StepInside(f, f.steps[row.step])
    && row.start < U32 && row.duration < U32 && StreamOf(f, row.stream).Some?
  }

  ghost predicate TileInside(f: Files, tile: TileRows) {
    forall i :: 0 <= i < |tile.samples| ==> RowInside(f, tile.samples[i])
  }

  /** Every index in the files leads to an entry. */
  ghost predicate Inside(f: Files) {
    forall i :: 0 <= i < |f.tiles| ==> TileInside(f, f.tiles[i])
  }

  ghost function ReadEntries(f: Files, range: (nat, nat)): (r: seq<Entry>)
    requires SetInside(f, range)
    ensures |r| == range.1
  {
    seq(range.1, k requires 0 <= k < range.1 =>
      Entry(f.strings[f.metadata[range.0 + 2 * k]], f.strings[f.metadata[range.0 + 2 * k + 1]]))
  }

  /** The sample of a row, taken as the step with number `index` of its tile. */
  ghost function ReadSample(f: Files, base: nat, row: SampleRow, index: nat): Sample
    requires base < U32 && RowInside(f, row)
  {
    var step := f.steps[row.step];
    var start := Plus(base, row.start);
    Sample(Step(index, step.phase, step.epoch, f.strings[step.operation], f.strings[step.kernel],
                ReadEntries(f, f.metadataSets[step.metadata]), step.kind, step.eventCycles, StreamOf(f, row.stream).value),
           start, Plus(start, row.duration))
  }

  ghost function ReadTile(f: Files, base: nat, tile: TileRows): (r: TileProfile)
    requires base < U32 && TileInside(f, tile)
    ensures |r.samples| == |tile.samples|
  {
    TileProfile(tile.physicalTile, seq(|tile.samples|, i requires 0 <= i < |tile.samples| => ReadSample(f, base, tile.samples[i], i)))
  }

  ghost function ReadReport(f: Files, base: nat): (r: Report)
    requires base < U32 && Inside(f)
    ensures |r.tiles| == |f.tiles|
  {
    Report(f.clockHz, seq(|f.tiles|, i requires 0 <= i < |f.tiles| => ReadTile(f, base, f.tiles[i])))
  }

  /** The report as the page shows it. */
  ghost function ShowReport(f: Files, base: nat): (r: Report)
    requires base < U32 && Inside(f)
  {
    ReadReport(f, base).Shown()
  }
}
