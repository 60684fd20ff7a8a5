/** Where the bytes of bindings lie in the host files (crates/ipu-codegen/src/host.rs,
    crates/ipu-package/src/lib.rs).

    Every binding has a region of the file of its own, as long as its furthest slice reaches, and
    the regions follow one another. The module states on bindings and slices alone which file byte
    a tile address receives, which tile bytes a file position may come from, and which bindings can
    be planned, and proves that the moves and pages of `HostPlan` do just that. */
module HostFiles {
  import opened HostPlan
  import opened HostBatches
  import opened HostCalls
  import opened HostArena
  import opened HostSession

  // ---------------------------------------------------------------------------
  // Regions
  // ---------------------------------------------------------------------------

  /** No slice ends beyond `n`, which is 0 or where some slice ends. */
  ghost predicate Reaches(slices: seq<RegionSlice>, n: nat) {
    && (forall s :: s in slices ==> s.fileOffset + s.size <= n)
    && (n > 0 ==> exists s :: s in slices && s.fileOffset + s.size == n)
  }

  /** The regions of the bindings begin at `starts`, one after the other from 0, and the last entry
      is where the last one ends. */
  ghost predicate Starts(bindings: seq<Binding>, starts: seq<nat>) {
    && |starts| == |bindings| + 1 && starts[0] == 0
    && forall b :: 0 <= b < |bindings| ==> RegionFrom(bindings[b], starts[b], starts[b + 1])
  }

  ghost predicate RegionFrom(binding: Binding, start: nat, end: nat) {
    start <= end && Reaches(binding.slices, end - start)
  }

  lemma ReachesOnce(slices: seq<RegionSlice>, m: nat, n: nat)
    requires Reaches(slices, m) && Reaches(slices, n)
    ensures m == n
  {
  }

  lemma {:induction false} LengthReaches(slices: seq<RegionSlice>)
    ensures Reaches(slices, ByteLen(slices))
  {
    if slices != [] {
      var before, last := slices[..|slices| - 1], slices[|slices| - 1];
      LengthReaches(before);
      assert slices == before + [last];
      assert last in slices && forall s :: s in before ==> s in slices;
    }
  }

  /** The starts of the regions are given by the bindings. */
  lemma {:induction false} CursorIsStart(bindings: seq<Binding>, starts: seq<nat>, b: nat)
    requires Starts(bindings, starts) && b <= |bindings|
    ensures Cursor(bindings[..b]) == starts[b]
  {
    if b > 0 {
      CursorIsStart(bindings, starts, b - 1);
      assert bindings[..b][..b - 1] == bindings[..b - 1];
      assert RegionFrom(bindings[b - 1], starts[b - 1], starts[b]);
      LengthReaches(bindings[b - 1].slices);
      ReachesOnce(bindings[b - 1].slices, ByteLen(bindings[b - 1].slices), starts[b] - starts[b - 1]);
    }
  }

  lemma StartsExist(bindings: seq<Binding>) returns (starts: seq<nat>)
    ensures Starts(bindings, starts)
  {
    starts := seq(|bindings| + 1, b requires 0 <= b <= |bindings| => Cursor(bindings[..b]));
    forall b | 0 <= b < |bindings|
      ensures RegionFrom(bindings[b], starts[b], starts[b + 1])
    {
      assert bindings[..b + 1][..b] == bindings[..b];
      LengthReaches(bindings[b].slices);
    }
  }

  /** There is one choice of starts only. */
  lemma StartsOnce(bindings: seq<Binding>, starts: seq<nat>, other: seq<nat>)
    requires Starts(bindings, starts) && Starts(bindings, other)
    ensures starts == other
  {
    forall b | 0 <= b <= |bindings|
      ensures starts[b] == other[b]
    {
      CursorIsStart(bindings, starts, b);
      CursorIsStart(bindings, other, b);
    }
  }

  lemma {:induction false} StartsGrow(bindings: seq<Binding>, starts: seq<nat>, a: nat, b: nat)
    requires Starts(bindings, starts) && a <= b <= |bindings|
    ensures starts[a] <= starts[b]
    decreases b
  {
    if a < b {
      StartsGrow(bindings, starts, a, b - 1);
      assert RegionFrom(bindings[b - 1], starts[b - 1], starts[b]);
    }
  }

  // ---------------------------------------------------------------------------
  // What is asked for
  // ---------------------------------------------------------------------------

  /** Slice `s`, in a region from `start`, pairs file position `p` with address `a` of tile `t`. */
  ghost predicate Pairs(s: RegionSlice, start: nat, p: nat, t: nat, a: nat) {
    && s.tile == t && s.tileAddress <= a < s.tileAddress + s.size
    && p == start + s.fileOffset + (a - s.tileAddress)
  }

  ghost predicate AsksOf(bindings: seq<Binding>, starts: seq<nat>, b: nat, p: nat, t: nat, a: nat)
    requires b < |bindings| < |starts|
  {
    exists s :: s in bindings[b].slices && Pairs(s, starts[b], p, t, a)
  }

  /** Some binding pairs the file position with the tile address. */
  ghost predicate Asks(bindings: seq<Binding>, starts: seq<nat>, p: nat, t: nat, a: nat)
    requires |bindings| < |starts|
  {
    exists b: nat :: b < |bindings| && AsksOf(bindings, starts, b, p, t, a)
  }

  /** No file position belongs to two bindings: each has its own region. */
  lemma RegionsApart(bindings: seq<Binding>, starts: seq<nat>, b: nat, p: nat, t: nat, a: nat)
    requires Starts(bindings, starts) && b < |bindings| && AsksOf(bindings, starts, b, p, t, a)
    ensures starts[b] <= p < starts[b + 1]
    ensures forall c: nat, u: nat, x: nat :: c < |bindings| && AsksOf(bindings, starts, c, p, u, x) ==> c == b
  {
    InRegion(bindings, starts, b, p, t, a);
    forall c: nat, u: nat, x: nat | c < |bindings| && AsksOf(bindings, starts, c, p, u, x)
      ensures c == b
    {
      InRegion(bindings, starts, c, p, u, x);
      if b < c {
        StartsGrow(bindings, starts, b + 1, c);
      } else if c < b {
        StartsGrow(bindings, starts, c + 1, b);
      }
    }
  }

  lemma InRegion(bindings: seq<Binding>, starts: seq<nat>, b: nat, p: nat, t: nat, a: nat)
    requires Starts(bindings, starts) && b < |bindings| && AsksOf(bindings, starts, b, p, t, a)
    ensures starts[b] <= p < starts[b + 1]
  {
    assert RegionFrom(bindings[b], starts[b], starts[b + 1]);
  }

  lemma {:induction false} MovesOfSlicesAre(slices: seq<RegionSlice>, base: nat, m: Move)
    ensures m in MovesOfSlices(slices, base) <==> exists s :: s in slices && m == MoveOf(s, base)
  {
    if slices != [] {
      var before, last := slices[..|slices| - 1], slices[|slices| - 1];
      MovesOfSlicesAre(before, base, m);
      assert slices == before + [last];
    }
  }

  ghost predicate MovedBy(bindings: seq<Binding>, b: nat, m: Move)
    requires b < |bindings|
  {
    m in MovesOfSlices(bindings[b].slices, Cursor(bindings[..b]))
  }

  lemma MovedByPrefix(bindings: seq<Binding>, n: nat, b: nat, m: Move)
    requires b < n <= |bindings|
    ensures MovedBy(bindings[..n], b, m) <==> MovedBy(bindings, b, m)
  {
    hide MovesOfSlices, Cursor;
    assert bindings[..n][..b] == bindings[..b];
  }

  lemma {:induction false} MovesAre(bindings: seq<Binding>, m: Move)
    ensures m in MovesOf(bindings) <==> exists b: nat :: b < |bindings| && MovedBy(bindings, b, m)
  {
    hide MovedBy;
    if bindings != [] {
      var n := |bindings| - 1;
      MovesAre(bindings[..n], m);
      LastMovedBy(bindings, m);
      forall b: nat | b < n
        ensures MovedBy(bindings[..n], b, m) <==> MovedBy(bindings, b, m)
      {
        MovedByPrefix(bindings, n, b, m);
      }
    }
  }

  lemma LastMovedBy(bindings: seq<Binding>, m: Move)
    requires bindings != []
    ensures var n := |bindings| - 1; m in MovesOf(bindings) <==> m in MovesOf(bindings[..n]) || MovedBy(bindings, n, m)
  {
    hide MovesOfSlices, Cursor;
  }

  /** The moves take a file position from exactly the tile addresses that the bindings pair with it. */
  lemma SourcesAreAsked(bindings: seq<Binding>, starts: seq<nat>, p: nat, t: nat, a: nat)
    requires Starts(bindings, starts)
    ensures IsSource(MovesOf(bindings), p, t, a) <==> Asks(bindings, starts, p, t, a)
  {
    hide MovesOf, MovesOfSlices, Cursor;
    if IsSource(MovesOf(bindings), p, t, a) {
      var m :| m in MovesOf(bindings) && m.CoversFile(p) && m.tile == t && m.AddressOf(p) == a;
      MovesAre(bindings, m);
      var b: nat :| b < |bindings| && MovedBy(bindings, b, m);
      CursorIsStart(bindings, starts, b);
      MovesOfSlicesAre(bindings[b].slices, starts[b], m);
      var s :| s in bindings[b].slices && m == MoveOf(s, starts[b]);
      assert Pairs(s, starts[b], p, t, a);
      assert AsksOf(bindings, starts, b, p, t, a);
    }
    if Asks(bindings, starts, p, t, a) {
      var b: nat :| b < |bindings| && AsksOf(bindings, starts, b, p, t, a);
      var s :| s in bindings[b].slices && Pairs(s, starts[b], p, t, a);
      var m := MoveOf(s, starts[b]);
      CursorIsStart(bindings, starts, b);
      MovesOfSlicesAre(bindings[b].slices, starts[b], m);
      assert MovedBy(bindings, b, m);
      MovesAre(bindings, m);
      assert m.CoversFile(p) && m.AddressOf(p) == a;
    }
  }

  // ---------------------------------------------------------------------------
  // What an address receives
  // ---------------------------------------------------------------------------

  ghost predicate Covers(s: RegionSlice, t: nat, a: nat) {
    s.tile == t && s.tileAddress <= a < s.tileAddress + s.size
  }

  ghost predicate Untouched(slices: seq<RegionSlice>, t: nat, a: nat) {
    forall s :: s in slices ==> !Covers(s, t, a)
  }

  /** Slice `j` of binding `b` is the last of all that covers the address. */
  ghost predicate Wins(bindings: seq<Binding>, b: nat, j: nat, t: nat, a: nat)
    requires b < |bindings| && j < |bindings[b].slices|
  {
    && Covers(bindings[b].slices[j], t, a)
    && Untouched(bindings[b].slices[j + 1..], t, a)
    && forall c :: b < c < |bindings| ==> Untouched(bindings[c].slices, t, a)
  }

  lemma {:induction false} NoSliceWrites(slices: seq<RegionSlice>, base: nat, t: nat, a: nat)
    requires Untouched(slices, t, a)
    ensures LastWrite(MovesOfSlices(slices, base), t, a) == None
  {
    if slices != [] {
      var n := |slices| - 1;
      NoSliceWrites(slices[..n], base, t, a);
      assert !Covers(slices[n], t, a);
      LastSlice(slices, base, t, a);
    }
  }

  lemma LastSlice(slices: seq<RegionSlice>, base: nat, t: nat, a: nat)
    requires slices != []
    ensures var last := slices[|slices| - 1];
      LastWrite(MovesOfSlices(slices, base), t, a) ==
      if Covers(last, t, a) then Some(base + last.fileOffset + (a - last.tileAddress))
      else LastWrite(MovesOfSlices(slices[..|slices| - 1], base), t, a)
  {
    var moves := MovesOfSlices(slices, base);
    assert moves[..|moves| - 1] == MovesOfSlices(slices[..|slices| - 1], base);
  }

  lemma {:induction false} SliceWrites(slices: seq<RegionSlice>, base: nat, j: nat, t: nat, a: nat)
    requires j < |slices| && Covers(slices[j], t, a) && Untouched(slices[j + 1..], t, a)
    ensures LastWrite(MovesOfSlices(slices, base), t, a) == Some(base + slices[j].fileOffset + (a - slices[j].tileAddress))
  {
    hide LastWrite, MovesOfSlices, Covers;
    var n := |slices| - 1;
    LastSlice(slices, base, t, a);
    if j < n {
      var later := slices[j + 1..];
      assert later[|later| - 1] == slices[n];
      assert slices[..n][j + 1..] == later[..|later| - 1];
      SliceWrites(slices[..n], base, j, t, a);
    }
  }

  lemma LastBinding(bindings: seq<Binding>, starts: seq<nat>, t: nat, a: nat)
    requires Starts(bindings, starts) && bindings != []
    ensures var n := |bindings| - 1;
      var last := LastWrite(MovesOfSlices(bindings[n].slices, starts[n]), t, a);
      LastWrite(MovesOf(bindings), t, a) == if last.Some? then last else LastWrite(MovesOf(bindings[..n]), t, a)
  {
    hide MovesOfSlices, Cursor, LastWrite, RegionFrom;
    var n := |bindings| - 1;
    CursorIsStart(bindings, starts, n);
    LastWriteAppend(MovesOf(bindings[..n]), MovesOfSlices(bindings[n].slices, starts[n]), t, a);
  }

  lemma {:induction false} NoBindingWrites(bindings: seq<Binding>, starts: seq<nat>, t: nat, a: nat)
    requires Starts(bindings, starts) && forall c :: 0 <= c < |bindings| ==> Untouched(bindings[c].slices, t, a)
    ensures LastWrite(MovesOf(bindings), t, a) == None
  {
    hide MovesOfSlices, Untouched, RegionFrom;
    if bindings != [] {
      var n := |bindings| - 1;
      PrefixStarts(bindings, starts, n);
      NoBindingWrites(bindings[..n], starts[..n + 1], t, a);
      NoSliceWrites(bindings[n].slices, starts[n], t, a);
      LastBinding(bindings, starts, t, a);
    }
  }

  /** An address receives the byte that the last slice over it gives. */
  lemma {:induction false} BindingWrites(bindings: seq<Binding>, starts: seq<nat>, b: nat, j: nat, t: nat, a: nat)
    requires Starts(bindings, starts) && b < |bindings| && j < |bindings[b].slices| && Wins(bindings, b, j, t, a)
    ensures LastWrite(MovesOf(bindings), t, a) ==
            Some(starts[b] + bindings[b].slices[j].fileOffset + (a - bindings[b].slices[j].tileAddress))
  {
    hide MovesOfSlices, MovesOf, LastWrite, RegionFrom, Untouched;
    var n := |bindings| - 1;
    LastBinding(bindings, starts, t, a);
    if b == n {
      SliceWrites(bindings[n].slices, starts[n], j, t, a);
    } else {
      PrefixStarts(bindings, starts, n);
      NoSliceWrites(bindings[n].slices, starts[n], t, a);
      assert Wins(bindings[..n], b, j, t, a);
      BindingWrites(bindings[..n], starts[..n + 1], b, j, t, a);
    }
  }

  lemma PrefixStarts(bindings: seq<Binding>, starts: seq<nat>, n: nat)
    requires Starts(bindings, starts) && n <= |bindings|
    ensures Starts(bindings[..n], starts[..n + 1])
  {
    hide RegionFrom;
  }

  /** Every tile address holds the file byte that the last slice over it gives, at the binding's
      start plus the slice's offset; an address that no slice covers keeps its byte. */
  ghost predicate Placed(bindings: seq<Binding>, starts: seq<nat>, file: seq<byte>, before: Memory, after: Memory)
    requires |bindings| < |starts|
  {
    forall t: nat, a: nat ::
      && ((forall c :: 0 <= c < |bindings| ==> Untouched(bindings[c].slices, t, a)) ==> after(t, a) == before(t, a))
      && (forall b: nat, j: nat :: b < |bindings| && j < |bindings[b].slices| && Wins(bindings, b, j, t, a) ==>
            var p := starts[b] + bindings[b].slices[j].fileOffset + (a - bindings[b].slices[j].tileAddress);
            p < |file| && after(t, a) == file[p])
  }

  /** Delivering the moves places the bindings, when the file reaches their end. */
  lemma DeliveredIsPlaced(bindings: seq<Binding>, starts: seq<nat>, file: seq<byte>, before: Memory, after: Memory)
    requires Starts(bindings, starts) && DeliversTo(MovesOf(bindings), file, before, after)
    requires forall p: nat, t: nat, a: nat :: Asks(bindings, starts, p, t, a) ==> p < |file|
    ensures Placed(bindings, starts, file, before, after)
  {
    hide MovesOf, LastWrite, Starts, Untouched, Asks;
    forall t: nat, a: nat | forall c :: 0 <= c < |bindings| ==> Untouched(bindings[c].slices, t, a)
      ensures after(t, a) == before(t, a)
    {
      NoBindingWrites(bindings, starts, t, a);
      assert after(t, a) == Delivered(MovesOf(bindings), file, before, t, a);
    }
    StartsCount(bindings, starts);
    forall t: nat, a: nat, b: nat, j: nat | b < |bindings| && j < |bindings[b].slices| && Wins(bindings, b, j, t, a)
      ensures var p := starts[b] + bindings[b].slices[j].fileOffset + (a - bindings[b].slices[j].tileAddress);
        p < |file| && after(t, a) == file[p]
    {
      BindingWrites(bindings, starts, b, j, t, a);
      WinnerAsks(bindings, starts, b, j, t, a);
      assert after(t, a) == Delivered(MovesOf(bindings), file, before, t, a);
    }
  }

  lemma StartsCount(bindings: seq<Binding>, starts: seq<nat>)
    requires Starts(bindings, starts)
    ensures |starts| == |bindings| + 1
  {
  }

  lemma WinnerAsks(bindings: seq<Binding>, starts: seq<nat>, b: nat, j: nat, t: nat, a: nat)
    requires |bindings| < |starts| && b < |bindings| && j < |bindings[b].slices| && Wins(bindings, b, j, t, a)
    ensures Asks(bindings, starts, starts[b] + bindings[b].slices[j].fileOffset + (a - bindings[b].slices[j].tileAddress), t, a)
  {
    var s := bindings[b].slices[j];
    assert s in bindings[b].slices && Pairs(s, starts[b], starts[b] + s.fileOffset + (a - s.tileAddress), t, a);
    assert AsksOf(bindings, starts, b, starts[b] + s.fileOffset + (a - s.tileAddress), t, a);
  }

  // ---------------------------------------------------------------------------
  // The length of a file
  // ---------------------------------------------------------------------------

  ghost predicate Asked(bindings: seq<Binding>, starts: seq<nat>, p: nat)
    requires |bindings| < |starts|
  {
    exists t: nat, a: nat :: Asks(bindings, starts, p, t, a)
  }

  /** The file has all bytes that are asked for and ends with one of them. */
  ghost predicate EndsFile(bindings: seq<Binding>, starts: seq<nat>, n: nat)
    requires |bindings| < |starts|
  {
    && (forall p: nat, t: nat, a: nat :: Asks(bindings, starts, p, t, a) ==> p < n)
    && (n > 0 ==> Asked(bindings, starts, n - 1))
  }

  lemma {:induction false} DataSizeIsReached(slices: seq<HostSlice>)
    ensures HostDataSize(slices) > 0 ==>
              exists i :: 0 <= i < |slices| && slices[i].fileOffset + slices[i].size == HostDataSize(slices)
  {
    if slices != [] {
      var n := |slices| - 1;
      DataSizeIsReached(slices[..n]);
      if HostDataSize(slices[..n]) == HostDataSize(slices) && HostDataSize(slices) > 0 {
        var i :| 0 <= i < n && slices[..n][i].fileOffset + slices[..n][i].size == HostDataSize(slices[..n]);
        assert slices[i] == slices[..n][i];
      }
    }
  }

  /** The slices of a schedule of the pages that the bindings ask for. */
  lemma ScheduleEndsFile(batches: seq<seq<Move>>, bindings: seq<Binding>, starts: seq<nat>, slots: Slots)
    requires Schedules(batches, Pages(MovesOf(bindings))) && Starts(bindings, starts)
    ensures EndsFile(bindings, starts, HostDataSize(SlicesOf(Flatten(batches), slots)))
  {
    hide Pages, MovesOf, Flatten, SlicesOf, HostDataSize, Starts, Asks, Schedules;
    var pages, moves := Flatten(batches), MovesOf(bindings);
    var slices := SlicesOf(pages, slots);
    StartsCount(bindings, starts);
    FileBounds(pages, slots);
    forall p: nat, t: nat, a: nat | Asks(bindings, starts, p, t, a)
      ensures p < HostDataSize(slices)
    {
      SourcesAreAsked(bindings, starts, p, t, a);
      SameSources(batches, bindings, p, t, a);
      var m :| m in pages && m.CoversFile(p) && m.tile == t && m.AddressOf(p) == a;
    }
    DataSizeIsReached(slices);
    if HostDataSize(slices) > 0 {
      var i :| 0 <= i < |slices| && slices[i].fileOffset + slices[i].size == HostDataSize(slices);
      SliceAt(pages, slots, i);
      PagesOfSchedule(batches, bindings, pages[i]);
      LastOfPage(batches, bindings, starts, pages[i]);
    }
  }

  lemma PagesOfSchedule(batches: seq<seq<Move>>, bindings: seq<Binding>, page: Move)
    requires Schedules(batches, Pages(MovesOf(bindings))) && page in Flatten(batches)
    ensures page.size > 0
  {
    hide MovesOf, Pages, OnTile;
    SameOnTiles(Flatten(batches), Pages(MovesOf(bindings)));
    PageSizes(MovesOf(bindings));
  }

  lemma LastOfPage(batches: seq<seq<Move>>, bindings: seq<Binding>, starts: seq<nat>, page: Move)
    requires Schedules(batches, Pages(MovesOf(bindings))) && Starts(bindings, starts)
    requires page in Flatten(batches) && page.size > 0
    ensures |bindings| < |starts| && Asked(bindings, starts, page.fileOffset + page.size - 1)
  {
    hide Pages, MovesOf, Flatten, Starts, Asks, Schedules;
    StartsCount(bindings, starts);
    var p := page.fileOffset + page.size - 1;
    var t, a := page.tile, page.AddressOf(p);
    assert IsSource(Flatten(batches), p, t, a);
    SameSources(batches, bindings, p, t, a);
    SourcesAreAsked(bindings, starts, p, t, a);
  }

  /** Every output byte is a byte that some binding pairs with its position; a position that no
      binding mentions is zero. */
  ghost predicate ReturnsAsked(bindings: seq<Binding>, starts: seq<nat>, output: seq<byte>, mem: Memory)
    requires |bindings| < |starts|
  {
    && (forall p: nat :: p < |output| && !Asked(bindings, starts, p) ==> output[p] == 0)
    && (forall p: nat :: p < |output| && Asked(bindings, starts, p) ==>
          exists t: nat, a: nat :: Asks(bindings, starts, p, t, a) && output[p] == mem(t, a))
  }

  lemma ReturnedIsAsked(bindings: seq<Binding>, starts: seq<nat>, output: seq<byte>, mem: Memory)
    requires Starts(bindings, starts) && Returns(output, MovesOf(bindings), mem)
    ensures |bindings| < |starts| && ReturnsAsked(bindings, starts, output, mem)
  {
    hide MovesOf, Starts, Asks, IsSource;
    StartsCount(bindings, starts);
    forall p: nat, t: nat, a: nat
      ensures IsSource(MovesOf(bindings), p, t, a) <==> Asks(bindings, starts, p, t, a)
    {
      SourcesAreAsked(bindings, starts, p, t, a);
    }
  }

  // ---------------------------------------------------------------------------
  // Whole calls
  // ---------------------------------------------------------------------------

  /** A file of `n` bytes is as long as the bindings need it. */
  ghost predicate Ends(bindings: seq<Binding>, n: nat) {
    forall starts :: Starts(bindings, starts) ==> |bindings| < |starts| && EndsFile(bindings, starts, n)
  }

  /** Every tile address holds what the bindings place there. */
  ghost predicate Places(bindings: seq<Binding>, file: seq<byte>, before: Memory, after: Memory) {
    forall starts :: Starts(bindings, starts) ==> |bindings| < |starts| && Placed(bindings, starts, file, before, after)
  }

  /** The output is as long as the bindings reach and holds what they ask for. */
  ghost predicate Gives(bindings: seq<Binding>, output: seq<byte>, mem: Memory) {
    && Ends(bindings, |output|)
    && forall starts :: Starts(bindings, starts) ==> |bindings| < |starts| && ReturnsAsked(bindings, starts, output, mem)
  }

  /** The bindings give the length of their file. */
  lemma EndsOnce(bindings: seq<Binding>, m: nat, n: nat)
    requires Ends(bindings, m) && Ends(bindings, n)
    ensures m == n
  {
    hide Starts, EndsFile;
    var starts := StartsExist(bindings);
    EndBelow(bindings, starts, m, n);
    EndBelow(bindings, starts, n, m);
  }

  lemma EndBelow(bindings: seq<Binding>, starts: seq<nat>, m: nat, n: nat)
    requires |bindings| < |starts| && EndsFile(bindings, starts, m) && EndsFile(bindings, starts, n)
    ensures m <= n
  {
    hide Asks;
    if m > 0 {
      var t: nat, a: nat :| Asks(bindings, starts, m - 1, t, a);
    }
  }

  lemma ScheduleEnds(batches: seq<seq<Move>>, bindings: seq<Binding>, slots: Slots)
    requires Schedules(batches, Pages(MovesOf(bindings)))
    ensures Ends(bindings, HostDataSize(SlicesOf(Flatten(batches), slots)))
  {
    hide Starts, Schedules, EndsFile, HostDataSize, SlicesOf, Flatten, Pages, MovesOf;
    forall starts | Starts(bindings, starts)
      ensures |bindings| < |starts| && EndsFile(bindings, starts, HostDataSize(SlicesOf(Flatten(batches), slots)))
    {
      StartsCount(bindings, starts);
      ScheduleEndsFile(batches, bindings, starts, slots);
    }
  }

  /** A planned call needs files as long as its bindings do. */
  lemma CallEnds(c: PlannedCall, s: Schedule, inputs: seq<Binding>, outputs: seq<Binding>, staging: nat)
    requires Realizes(c, s, inputs, outputs, staging)
    ensures Ends(inputs, HostDataSize(c.call.inputs)) && Ends(outputs, HostDataSize(c.call.outputs))
  {
    hide Schedules, Ends, HostDataSize, SlicesOf, Flatten, Pages, MovesOf, Plays, ValidSlots, EndsOf;
    ScheduleEnds(s.inputs, inputs, s.slots);
    ScheduleEnds(s.outputs, outputs, s.slots);
  }

  lemma NoPagesEnd(bindings: seq<Binding>)
    requires Schedules([], Pages(MovesOf(bindings)))
    ensures Ends(bindings, 0)
  {
    hide Schedules, Ends, Pages, MovesOf;
    ScheduleEnds([], bindings, map[]);
  }

  lemma DeliveredPlaces(bindings: seq<Binding>, file: seq<byte>, before: Memory, after: Memory, n: nat)
    requires Ends(bindings, n) && n <= |file| && DeliversTo(MovesOf(bindings), file, before, after)
    ensures Places(bindings, file, before, after)
  {
    hide Starts, Asks, Asked, DeliversTo, MovesOf, Placed;
    forall starts | Starts(bindings, starts)
      ensures |bindings| < |starts| && Placed(bindings, starts, file, before, after)
    {
      DeliveredIsPlaced(bindings, starts, file, before, after);
    }
  }

  lemma NoneAsked(bindings: seq<Binding>, starts: seq<nat>, output: seq<byte>, mem: Memory)
    requires |bindings| < |starts| && EndsFile(bindings, starts, |output|) && EndsFile(bindings, starts, 0)
    ensures ReturnsAsked(bindings, starts, output, mem)
  {
    hide EndsFile;
    EndBelow(bindings, starts, |output|, 0);
  }

  lemma ReturnedGives(batches: seq<seq<Move>>, bindings: seq<Binding>, output: seq<byte>, mem: Memory)
    requires Schedules(batches, Pages(MovesOf(bindings))) && Ends(bindings, |output|)
    requires batches != [] ==> Returns(output, MovesOf(bindings), mem)
    ensures Gives(bindings, output, mem)
  {
    hide Starts, EndsFile, ReturnsAsked, Returns, MovesOf, Pages, Schedules;
    if batches == [] {
      NoPagesEnd(bindings);
    }
    forall starts | Starts(bindings, starts)
      ensures |bindings| < |starts| && ReturnsAsked(bindings, starts, output, mem)
    {
      if batches == [] {
        NoneAsked(bindings, starts, output, mem);
      } else {
        ReturnedIsAsked(bindings, starts, output, mem);
      }
    }
  }

  // ---------------------------------------------------------------------------
  // What can be planned
  // ---------------------------------------------------------------------------

  /** The numbers of a slice fit their machine words: file positions 64 bits, the size and tile
      addresses 32, tiles 16. */
  ghost predicate SliceIsSmall(s: RegionSlice, start: nat) {
    && s.size <= 0xFFFF_FFFF
    && start + s.fileOffset <= 0xFFFF_FFFF_FFFF_FFFF && s.fileOffset + s.size <= 0xFFFF_FFFF_FFFF_FFFF
    && (s.size > 0 ==>
          && s.tile <= 0xFFFF && s.tileAddress + s.size <= 0xFFFF_FFFF
          && start + s.fileOffset + s.size <= 0xFFFF_FFFF_FFFF_FFFF)
  }

  /** Bindings can be collected exactly when all their numbers fit. */
  lemma {:induction false} BindingsFitIff(bindings: seq<Binding>, starts: seq<nat>)
    requires Starts(bindings, starts)
    ensures BindingsFit(bindings) <==>
            && (forall b, s :: 0 <= b < |bindings| && s in bindings[b].slices ==> SliceIsSmall(s, starts[b]))
            && (forall b :: 0 <= b <= |bindings| ==> starts[b] <= 0xFFFF_FFFF_FFFF_FFFF)
  {
    hide Cursor, RegionFrom;
    if bindings != [] {
      var n := |bindings| - 1;
      PrefixStarts(bindings, starts, n);
      BindingsFitIff(bindings[..n], starts[..n + 1]);
      CursorIsStart(bindings, starts, n);
      CursorIsStart(bindings, starts, n + 1);
      assert bindings[..n + 1] == bindings;
    }
  }

  /** A move is cut into as many pages of 4096 bytes as it needs, all full but the last. */
  lemma {:induction false} PagesAre(m: Move)
    ensures |PagesOf(m)| == (m.size + 4095) / 4096
    ensures forall k :: 0 <= k < |PagesOf(m)| ==>
              PagesOf(m)[k] == Move(m.tile, m.tileAddress + 4096 * k, m.fileOffset + 4096 * k,
                                    if 4096 * (k + 1) <= m.size then 4096 else m.size - 4096 * k)
    decreases m.size
  {
    if m.size > 0 {
      var bytes := if m.size < 4096 then m.size else 4096;
      PagesAre(Move(m.tile, m.tileAddress + bytes, m.fileOffset + bytes, m.size - bytes));
    }
  }

  /** Whole words; outgoing ones at aligned addresses, incoming ones through an aligned staging area. */
  ghost predicate InWords(size: nat, tileAddress: nat, toTile: bool, staging: nat) {
    size > 0 ==> size % 4 == 0 && if toTile then staging % 32 == 0 else tileAddress % 4 == 0
  }

  ghost predicate PagesInWords(m: Move, toTile: bool, staging: nat) {
    forall page :: page in PagesOf(m) ==> PageEncodable(page, toTile, staging)
  }

  lemma WholePages(size: nat, k: nat)
    requires 4096 * k <= size
    ensures (size - 4096 * k) % 4 == size % 4
  {
    assert size - 4096 * k == 4 * (size / 4 - 1024 * k) + size % 4;
  }

  lemma PageSize(m: Move, k: nat)
    requires k < |PagesOf(m)|
    ensures PagesOf(m)[k].size > 0
    ensures m.size % 4 == 0 || k + 1 == |PagesOf(m)| ==> PagesOf(m)[k].size % 4 == m.size % 4
    ensures PagesOf(m)[k].tileAddress % 4 == m.tileAddress % 4
  {
    hide PagesOf;
    PagesAre(m);
    assert 4096 * k < m.size;
    WholePages(m.size, k);
    assert (m.tileAddress + 4096 * k) % 4 == m.tileAddress % 4;
  }

  /** A move's pages are made of aligned words exactly when the move is, or is empty. */
  lemma MoveEncodableIff(m: Move, toTile: bool, staging: nat)
    ensures PagesInWords(m, toTile, staging) <==> InWords(m.size, m.tileAddress, toTile, staging)
  {
    hide PagesOf;
    PagesAre(m);
    if m.size > 0 {
      var last := |PagesOf(m)| - 1;
      PageSize(m, last);
      assert PagesOf(m)[last] in PagesOf(m);
      forall page | page in PagesOf(m) && m.size % 4 == 0
        ensures page.size > 0 && page.size % 4 == 0 && page.tileAddress % 4 == m.tileAddress % 4
      {
        var k: nat :| k < |PagesOf(m)| && PagesOf(m)[k] == page;
        PageSize(m, k);
      }
    }
  }

  lemma PagesEncodableIff(moves: seq<Move>, toTile: bool, staging: nat)
    ensures PagesEncodable(Pages(moves), toTile, staging) <==> forall m :: m in moves ==> PagesInWords(m, toTile, staging)
  {
    hide Pages, PagesOf, PageEncodable;
    forall m, page | m in moves && page in PagesOf(m)
      ensures page in Pages(moves)
    {
      PagesOfMember(moves, m, page);
    }
    forall page | page in Pages(moves)
      ensures exists m :: m in moves && page in PagesOf(m)
    {
      var m := PageComesFromMove(moves, page);
    }
  }

  /** The moves are the slices of the bindings, at other file positions. */
  lemma MoveIsSlice(bindings: seq<Binding>, m: Move) returns (b: nat, s: RegionSlice)
    requires m in MovesOf(bindings)
    ensures b < |bindings| && s in bindings[b].slices && s.tile == m.tile && s.tileAddress == m.tileAddress && s.size == m.size
  {
    hide MovesOf, Cursor;
    MovesAre(bindings, m);
    b :| b < |bindings| && MovedBy(bindings, b, m);
    MovesOfSlicesAre(bindings[b].slices, Cursor(bindings[..b]), m);
    s :| s in bindings[b].slices && m == MoveOf(s, Cursor(bindings[..b]));
  }

  lemma SliceIsMove(bindings: seq<Binding>, b: nat, s: RegionSlice) returns (m: Move)
    requires b < |bindings| && s in bindings[b].slices
    ensures m in MovesOf(bindings) && s.tile == m.tile && s.tileAddress == m.tileAddress && s.size == m.size
  {
    hide MovesOf, Cursor;
    m := MoveOf(s, Cursor(bindings[..b]));
    MovesOfSlicesAre(bindings[b].slices, Cursor(bindings[..b]), m);
    assert MovedBy(bindings, b, m);
    MovesAre(bindings, m);
  }

  /** Bindings can be encoded exactly when their slices are made of whole words, and outputs of
      word-aligned ones; inputs land in the staging area, aligned to 32 bytes. */
  lemma EncodableIff(bindings: seq<Binding>, toTile: bool, staging: nat)
    ensures PagesEncodable(Pages(MovesOf(bindings)), toTile, staging) <==>
            forall b, s :: 0 <= b < |bindings| && s in bindings[b].slices ==> InWords(s.size, s.tileAddress, toTile, staging)
  {
    hide Pages, MovesOf, PagesInWords, PagesEncodable, InWords;
    var moves := MovesOf(bindings);
    PagesEncodableIff(moves, toTile, staging);
    forall m | m in moves
      ensures PagesInWords(m, toTile, staging) <==> InWords(m.size, m.tileAddress, toTile, staging)
    {
      MoveEncodableIff(m, toTile, staging);
    }
    if forall b, s :: 0 <= b < |bindings| && s in bindings[b].slices ==> InWords(s.size, s.tileAddress, toTile, staging) {
      forall m | m in moves
        ensures PagesInWords(m, toTile, staging)
      {
        var b, s := MoveIsSlice(bindings, m);
      }
    }
    forall b, s | 0 <= b < |bindings| && s in bindings[b].slices && PagesEncodable(Pages(moves), toTile, staging)
      ensures InWords(s.size, s.tileAddress, toTile, staging)
    {
      var m := SliceIsMove(bindings, b, s);
      assert PagesInWords(m, toTile, staging);
    }
  }
}
