/** Where a link places the sections it keeps (crates/ipu-elf/src/lib.rs).

    One pass puts each section at the next aligned address that fits its region, moving to
    later regions and never back, and at the next byte of the image. Consecutive placements
    are then merged into segments. The module proves that no two sections share an image byte,
    that the segments give each placed address exactly the image bytes it was placed at, and
    that no two sections can share an address exactly when the regions do not overlap: then a
    failure also means that no remaining region has room. */
module LinkerPlacement {
  import opened Alignment

  datatype Section = Section(size: nat, alignment: nat)

  datatype Region = Region(start: nat, end: nat)

  datatype Placement = Placement(address: nat, offset: nat, size: nat) {
    function End(): nat {
      address + size
    }
  }

  datatype Result<T> = Ok(value: T) | BadAlignment | NoRoom | Overflow | TooLarge

  /** Non-empty regions, sorted by their starts. */
  ghost predicate Ordered(regions: seq<Region>) {
    && regions != []
    && (forall r :: 0 <= r < |regions| ==> regions[r].start < regions[r].end <= 0xFFFF_FFFF)
    && (forall r, q :: 0 <= r < q < |regions| ==> regions[r].start <= regions[q].start)
  }

  ghost predicate Disjoint(regions: seq<Region>) {
    forall r, q :: 0 <= r < q < |regions| ==> regions[r].end <= regions[q].start
  }

  function Max(a: nat, b: nat): nat {
    if a < b then b else a
  }

  /** Whether a section fits a region when nothing below `address` is free. */
  ghost predicate FitsFrom(section: Section, region: Region, address: nat, at: nat) {
    section.alignment > 0 && at % section.alignment == 0 && Max(address, region.start) <= at && at + section.size <= region.end
  }

  // ---------------------------------------------------------------------------
  // Placing one section
  // ---------------------------------------------------------------------------

  /** The first free region, the first free address in it and the image size so far. */
  datatype Cursor = Cursor(region: nat, address: nat, offset: nat)

  ghost predicate Stands(cursor: Cursor, regions: seq<Region>) {
    cursor.region < |regions| && regions[cursor.region].start <= cursor.address <= regions[cursor.region].end
  }

  /** Where the search in a region begins: at the cursor in its own region, else at the start. */
  function From(regions: seq<Region>, cursor: Cursor, region: nat): nat
    requires region < |regions|
  {
    if region == cursor.region then cursor.address else regions[region].start
  }

  /** The section goes to the lowest address that fits in the first region with room, and the
      image grows by the section and by the gap before it in its region. */
  ghost predicate Steps(section: Section, regions: seq<Region>, cursor: Cursor, p: Placement, next: Cursor) {
    && Stands(next, regions) && cursor.region <= next.region
    && p.size == section.size && p.offset + p.size == next.offset && p.End() == next.address
    && FitsFrom(section, regions[next.region], From(regions, cursor, next.region), p.address)
    && (forall at :: FitsFrom(section, regions[next.region], From(regions, cursor, next.region), at) ==> p.address <= at)
    && NoneBefore(section, regions, cursor, next.region)
    && p.offset == cursor.offset + if next.region == cursor.region then p.address - cursor.address else 0
  }

  /** No region from the cursor's up to, not including, `region` has room. */
  ghost predicate NoneBefore(section: Section, regions: seq<Region>, cursor: Cursor, region: nat)
    requires region <= |regions|
  {
    forall q, at :: cursor.region <= q < region ==> !FitsFrom(section, regions[q], From(regions, cursor, q), at)
  }

  ghost predicate HasNoPlace(section: Section, regions: seq<Region>, cursor: Cursor) {
    NoneBefore(section, regions, cursor, |regions|)
  }

  /** Aligning the start of the search leaves the 32-bit addresses in the first region that the
      search comes to without having found room. */
  ghost predicate Overflows(section: Section, regions: seq<Region>, cursor: Cursor) {
    section.alignment > 0
    && exists q :: cursor.region <= q < |regions| && NoneBefore(section, regions, cursor, q)
         && NextMultiple(Max(From(regions, cursor, q), regions[q].start), section.alignment) > 0xFFFF_FFFF
  }

  lemma StepFits(section: Section, regions: seq<Region>, cursor: Cursor, p: Placement, next: Cursor)
    requires Steps(section, regions, cursor, p, next)
    ensures cursor.region <= next.region < |regions|
    ensures FitsFrom(section, regions[next.region], From(regions, cursor, next.region), p.address)
    ensures forall q, at :: cursor.region <= q < next.region ==> !FitsFrom(section, regions[q], From(regions, cursor, q), at)
  {
  }

  lemma StepRegion(section: Section, regions: seq<Region>, cursor: Cursor, p: Placement, next: Cursor, q: Placement, other: Cursor)
    requires Steps(section, regions, cursor, p, next) && Steps(section, regions, cursor, q, other)
    ensures next.region == other.region
  {
    hide Steps, FitsFrom;
    StepFits(section, regions, cursor, p, next);
    StepFits(section, regions, cursor, q, other);
  }

  /** There is one such place at most. */
  lemma StepsOnce(section: Section, regions: seq<Region>, cursor: Cursor, p: Placement, next: Cursor, q: Placement, other: Cursor)
    requires Steps(section, regions, cursor, p, next) && Steps(section, regions, cursor, q, other)
    ensures p == q && next == other
  {
    StepRegion(section, regions, cursor, p, next, q, other);
  }

  lemma NoStep(section: Section, regions: seq<Region>, cursor: Cursor, p: Placement, next: Cursor)
    requires HasNoPlace(section, regions, cursor)
    ensures !Steps(section, regions, cursor, p, next)
  {
  }

  /** The lowest aligned address decides whether a region has room. */
  lemma LowestInRegion(section: Section, region: Region, low: nat, address: nat)
    requires section.alignment > 0 && region.end <= 0xFFFF_FFFF
    requires address == NextMultiple(Max(low, region.start), section.alignment)
    ensures Max(low, region.start) <= address
    ensures forall at :: FitsFrom(section, region, low, at) ==> address <= at
    ensures address + section.size <= region.end ==> FitsFrom(section, region, low, address)
    ensures address + section.size > region.end ==> forall at :: !FitsFrom(section, region, low, at)
  {
    hide NextMultiple;
    NextMultipleIsLeast(Max(low, region.start), section.alignment, 0);
    forall at | FitsFrom(section, region, low, at)
      ensures address <= at
    {
      NextMultipleIsLeast(Max(low, region.start), section.alignment, at);
    }
  }

  lemma LargeHasNoPlace(section: Section, regions: seq<Region>, cursor: Cursor)
    requires Ordered(regions) && section.size > 0xFFFF_FFFF
    ensures HasNoPlace(section, regions, cursor)
  {
  }

  lemma NothingBefore(section: Section, regions: seq<Region>, cursor: Cursor)
    requires cursor.region <= |regions|
    ensures NoneBefore(section, regions, cursor, cursor.region)
  {
  }

  lemma NoneBeforeNext(section: Section, regions: seq<Region>, cursor: Cursor, region: nat)
    requires region < |regions| && NoneBefore(section, regions, cursor, region)
    requires forall at :: !FitsFrom(section, regions[region], From(regions, cursor, region), at)
    ensures NoneBefore(section, regions, cursor, region + 1)
  {
    hide FitsFrom;
  }

  /** The section goes to the lowest aligned address that fits at or after the cursor; if
      there is none in any remaining region, the link fails. */
  method PlaceSection(section: Section, regions: seq<Region>, cursor: Cursor) returns (r: Result<(Placement, Cursor)>)
    requires Ordered(regions) && Stands(cursor, regions) && section.alignment > 0 && section.size > 0
    ensures r == BadAlignment <==> !IsPowerOfTwo(section.alignment)
    ensures r.Ok? ==> Steps(section, regions, cursor, r.value.0, r.value.1)
    ensures r == NoRoom ==> HasNoPlace(section, regions, cursor) && section.size <= 0xFFFF_FFFF
    ensures r == TooLarge ==> HasNoPlace(section, regions, cursor) && section.size > 0xFFFF_FFFF
    ensures r == Overflow ==> Overflows(section, regions, cursor)
  {
    hide IsPowerOfTwo, NextMultiple, FitsFrom, NoneBefore;
    if !IsPowerOfTwo(section.alignment) {
      return BadAlignment;
    }
    NothingBefore(section, regions, cursor);
    var address, region := cursor.address, cursor.region;
    while true
      invariant cursor.region <= region < |regions| && address <= regions[region].end
      invariant address == From(regions, cursor, region)
      invariant NoneBefore(section, regions, cursor, region)
      decreases |regions| - region
    {
      var from := Max(address, regions[region].start);
      address := NextMultiple(from, section.alignment);
      LowestInRegion(section, regions[region], From(regions, cursor, region), address);
      if address > U32_MAX {
        return Overflow;
      }
      if section.size > U32_MAX {
        LargeHasNoPlace(section, regions, cursor);
        return TooLarge;
      }
      if address + section.size <= U32_MAX && address + section.size <= regions[region].end {
        var offset := cursor.offset + if region == cursor.region then address - cursor.address else 0;
        var placement := Placement(address, offset, section.size);
        return Ok((placement, Cursor(region, address + section.size, offset + section.size)));
      }
      NoneBeforeNext(section, regions, cursor, region);
      region := region + 1;
      if region == |regions| {
        return NoRoom;
      }
      address := regions[region].start;
    }
  }

  /** Past the end of the address space no later region can have room, unless they overlap. */
  lemma OverflowHasNoPlace(section: Section, regions: seq<Region>, cursor: Cursor)
    requires Ordered(regions) && Disjoint(regions) && Stands(cursor, regions) && Overflows(section, regions, cursor)
    ensures HasNoPlace(section, regions, cursor)
  {
    var region :| cursor.region <= region < |regions| && NoneBefore(section, regions, cursor, region)
      && NextMultiple(Max(From(regions, cursor, region), regions[region].start), section.alignment) > 0xFFFF_FFFF;
    var from := Max(From(regions, cursor, region), regions[region].start);
    forall q, at | region <= q < |regions|
      ensures !FitsFrom(section, regions[q], From(regions, cursor, q), at)
    {
      NextMultipleIsLeast(from, section.alignment, at);
    }
  }

  // ---------------------------------------------------------------------------
  // Placing all sections
  // ---------------------------------------------------------------------------

  ghost predicate Inside(p: Placement, region: Region) {
    region.start <= p.address && p.End() <= region.end
  }

  /** Sections are aligned and in a region; later ones lie higher in the image, and also in memory
      if the regions do not overlap. */
  ghost predicate Placed(placements: seq<Placement>, sections: seq<Section>, regions: seq<Region>) {
    && |placements| == |sections|
    && (forall i :: 0 <= i < |placements| ==> placements[i].size == sections[i].size > 0)
    && (forall i :: 0 <= i < |placements| ==> sections[i].alignment > 0 && placements[i].address % sections[i].alignment == 0)
    && (forall i :: 0 <= i < |placements| ==> exists r :: 0 <= r < |regions| && Inside(placements[i], regions[r]))
    && InImageOrder(placements) && (Disjoint(regions) ==> Ascending(placements))
  }

  ghost predicate InImageOrder(placements: seq<Placement>) {
    forall i, j :: 0 <= i < j < |placements| ==> placements[i].offset + placements[i].size <= placements[j].offset
  }

  ghost predicate Ascending(placements: seq<Placement>) {
    forall i, j :: 0 <= i < j < |placements| ==>
      placements[i].End() <= placements[j].address && placements[i].offset + placements[i].size <= placements[j].offset
  }

  ghost predicate Behind(placements: seq<Placement>, regions: seq<Region>, cursor: Cursor) {
    forall i :: 0 <= i < |placements| ==>
      (Disjoint(regions) ==> placements[i].End() <= cursor.address) && placements[i].offset + placements[i].size <= cursor.offset
  }

  lemma PlacedNext(placements: seq<Placement>, sections: seq<Section>, regions: seq<Region>, cursor: Cursor,
                   section: Section, p: Placement, next: Cursor)
    requires Placed(placements, sections, regions) && Behind(placements, regions, cursor)
    requires section.size == p.size > 0 && section.alignment > 0 && p.address % section.alignment == 0
    requires (Disjoint(regions) ==> cursor.address <= p.address) && cursor.offset <= p.offset
    requires next.region < |regions| && Inside(p, regions[next.region])
    requires p.End() == next.address && p.offset + p.size == next.offset
    ensures Placed(placements + [p], sections + [section], regions) && Behind(placements + [p], regions, next)
  {
  }

  /** The pass over all sections, with the cursor before each and after the last. */
  ghost predicate Runs(sections: seq<Section>, regions: seq<Region>, placements: seq<Placement>, cursors: seq<Cursor>)
    requires regions != []
  {
    && |placements| == |sections| && |cursors| == |sections| + 1 && cursors[0] == Cursor(0, regions[0].start, 0)
    && forall i :: 0 <= i < |sections| ==> Steps(sections[i], regions, cursors[i], placements[i], cursors[i + 1])
  }

  /** The pass is stuck at a section: it has placed those before and there is no room left. */
  ghost predicate StuckAt(sections: seq<Section>, regions: seq<Region>, i: nat)
    requires regions != []
  {
    i < |sections|
    && exists placements: seq<Placement>, cursors: seq<Cursor> ::
         Runs(sections[..i], regions, placements, cursors) && HasNoPlace(sections[i], regions, cursors[i])
  }

  /** Aligning the next address for a section leaves the 32-bit addresses. */
  ghost predicate OverflowsAt(sections: seq<Section>, regions: seq<Region>, i: nat)
    requires regions != []
  {
    i < |sections|
    && exists placements: seq<Placement>, cursors: seq<Cursor> ::
         Runs(sections[..i], regions, placements, cursors) && Overflows(sections[i], regions, cursors[i])
  }

  lemma RunsStand(sections: seq<Section>, regions: seq<Region>, placements: seq<Placement>, cursors: seq<Cursor>)
    requires Ordered(regions) && Runs(sections, regions, placements, cursors)
    ensures Stands(cursors[|sections|], regions)
  {
    if sections != [] {
      assert Steps(sections[|sections| - 1], regions, cursors[|sections| - 1], placements[|sections| - 1], cursors[|sections|]);
    }
  }

  /** Unless regions overlap, an overflow leaves no room either. */
  lemma OverflowIsStuck(sections: seq<Section>, regions: seq<Region>, i: nat)
    requires Ordered(regions) && Disjoint(regions) && OverflowsAt(sections, regions, i)
    ensures StuckAt(sections, regions, i)
  {
    hide Steps, Overflows, HasNoPlace, Disjoint, Stands;
    var placements, cursors :| Runs(sections[..i], regions, placements, cursors) && Overflows(sections[i], regions, cursors[i]);
    RunsStand(sections[..i], regions, placements, cursors);
    OverflowHasNoPlace(sections[i], regions, cursors[i]);
  }

  lemma {:induction false} RunsOnce(sections: seq<Section>, more: seq<Section>, regions: seq<Region>,
                                    p: seq<Placement>, c: seq<Cursor>, q: seq<Placement>, d: seq<Cursor>)
    requires regions != [] && sections <= more && Runs(sections, regions, p, c) && Runs(more, regions, q, d)
    ensures p == q[..|p|] && c == d[..|c|]
  {
    hide Steps;
    if sections != [] {
      var last := |sections| - 1;
      RunsOnce(sections[..last], more, regions, p[..last], c[..last + 1], q, d);
      assert Steps(sections[last], regions, c[last], p[last], c[last + 1]);
      assert Steps(more[last], regions, d[last], q[last], d[last + 1]);
      StepsOnce(sections[last], regions, c[last], p[last], c[last + 1], q[last], d[last + 1]);
    }
  }

  /** A pass that gets stuck has no complete run. */
  lemma StuckNeverEnds(sections: seq<Section>, regions: seq<Region>, i: nat, placements: seq<Placement>, cursors: seq<Cursor>)
    requires regions != [] && StuckAt(sections, regions, i)
    ensures !Runs(sections, regions, placements, cursors)
  {
    hide Steps, HasNoPlace;
    if Runs(sections, regions, placements, cursors) {
      var p, c :| Runs(sections[..i], regions, p, c) && HasNoPlace(sections[i], regions, c[i]);
      RunsOnce(sections[..i], sections, regions, p, c, placements, cursors);
      NoStep(sections[i], regions, cursors[i], placements[i], cursors[i + 1]);
    }
  }

  lemma RunsNext(sections: seq<Section>, regions: seq<Region>, placements: seq<Placement>, cursors: seq<Cursor>,
                 section: Section, p: Placement, next: Cursor)
    requires regions != [] && Runs(sections, regions, placements, cursors)
    requires Steps(section, regions, cursors[|sections|], p, next)
    ensures Runs(sections + [section], regions, placements + [p], cursors + [next])
  {
    hide Steps;
  }

  /** The pass places every section, or fails exactly where it is stuck or an alignment is bad. */
  method PlaceAll(sections: seq<Section>, regions: seq<Region>) returns (r: Result<(seq<Placement>, nat)>)
    requires Ordered(regions)
    requires forall i :: 0 <= i < |sections| ==> sections[i].size > 0 && sections[i].alignment > 0
    ensures r.Ok? ==>
      var (placements, size) := r.value;
      Placed(placements, sections, regions)
      && forall i :: 0 <= i < |placements| ==> placements[i].offset + placements[i].size <= size
    ensures r.Ok? ==>
      exists cursors: seq<Cursor> :: Runs(sections, regions, r.value.0, cursors) && cursors[|sections|].offset == r.value.1
    ensures r.Ok? ==> forall i :: 0 <= i < |sections| ==> IsPowerOfTwo(sections[i].alignment)
    ensures r == BadAlignment ==> exists i :: 0 <= i < |sections| && !IsPowerOfTwo(sections[i].alignment)
    ensures r == NoRoom || r == TooLarge ==> exists i :: StuckAt(sections, regions, i)
    ensures r == TooLarge ==> exists i :: 0 <= i < |sections| && sections[i].size > 0xFFFF_FFFF
    ensures r == Overflow ==> exists i :: OverflowsAt(sections, regions, i)
  {
    hide Placed, Behind, FitsFrom, IsPowerOfTwo, Runs, Steps, HasNoPlace, Overflows;
    var placements: seq<Placement> := [];
    var cursor := Cursor(0, regions[0].start, 0);
    ghost var cursors := [cursor];
    NothingPlaced(regions, cursor);
    for i := 0 to |sections|
      invariant Stands(cursor, regions) && |placements| == i && |cursors| == i + 1 && cursors[i] == cursor
      invariant Placed(placements, sections[..i], regions) && Behind(placements, regions, cursor)
      invariant Runs(sections[..i], regions, placements, cursors)
      invariant forall k :: 0 <= k < i ==> IsPowerOfTwo(sections[k].alignment)
    {
      var one := PlaceSection(sections[i], regions, cursor);
      if !one.Ok? {
        assert one == NoRoom || one == TooLarge ==> StuckAt(sections, regions, i);
        assert one == Overflow ==> OverflowsAt(sections, regions, i);
        return match one
          case BadAlignment => BadAlignment
          case NoRoom => NoRoom
          case Overflow => Overflow
          case TooLarge => TooLarge;
      }
      var (placement, next) := one.value;
      StepIsInside(sections[i], regions, cursor, placement, next);
      PlacedNext(placements, sections[..i], regions, cursor, sections[i], placement, next);
      RunsNext(sections[..i], regions, placements, cursors, sections[i], placement, next);
      assert sections[..i + 1] == sections[..i] + [sections[i]];
      placements := placements + [placement];
      cursor := next;
      cursors := cursors + [next];
    }
    assert sections[..|sections|] == sections;
    BehindMeans(placements, regions, cursor);
    r := Ok((placements, cursor.offset));
  }

  lemma StepIsInside(section: Section, regions: seq<Region>, cursor: Cursor, p: Placement, next: Cursor)
    requires Ordered(regions) && Stands(cursor, regions) && Steps(section, regions, cursor, p, next) && section.size > 0
    ensures section.size == p.size > 0 && section.alignment > 0 && p.address % section.alignment == 0
    ensures (Disjoint(regions) ==> cursor.address <= p.address) && cursor.offset <= p.offset && Stands(next, regions)
    ensures Inside(p, regions[next.region]) && p.End() == next.address && p.offset + p.size == next.offset
  {
  }

  lemma NothingPlaced(regions: seq<Region>, cursor: Cursor)
    ensures Placed([], [], regions) && Behind([], regions, cursor)
    ensures regions != [] && cursor == Cursor(0, regions[0].start, 0) ==> Runs([], regions, [], [cursor])
  {
  }

  lemma BehindMeans(placements: seq<Placement>, regions: seq<Region>, cursor: Cursor)
    requires Behind(placements, regions, cursor)
    ensures forall i :: 0 <= i < |placements| ==> placements[i].offset + placements[i].size <= cursor.offset
  {
  }

  // ---------------------------------------------------------------------------
  // Image bytes
  // ---------------------------------------------------------------------------

  /** The image byte at which an address was placed. */
  ghost predicate PlacedAt(placements: seq<Placement>, address: nat, byte: nat) {
    exists i :: 0 <= i < |placements| && Holds(placements[i].address, placements[i].size, placements[i].offset, address, byte)
  }

  ghost predicate Holds(start: nat, size: nat, offset: nat, address: nat, byte: nat) {
    start <= address < start + size && byte == offset + (address - start)
  }

  /** No address is placed at two bytes and no byte holds two addresses. */
  lemma PlacedOnce(placements: seq<Placement>, a: nat, i: nat, b: nat, j: nat)
    requires Ascending(placements) && PlacedAt(placements, a, i) && PlacedAt(placements, b, j)
    ensures a == b <==> i == j
  {
    var k :| 0 <= k < |placements| && Holds(placements[k].address, placements[k].size, placements[k].offset, a, i);
    var l :| 0 <= l < |placements| && Holds(placements[l].address, placements[l].size, placements[l].offset, b, j);
    if k < l {
      assert placements[k].End() <= placements[l].address;
    } else if l < k {
      assert placements[l].End() <= placements[k].address;
    }
  }

  datatype Segment = Segment(start: nat, end: nat, offset: nat)

  ghost predicate SegmentHolds(segments: seq<Segment>, address: nat, byte: nat) {
    exists k :: 0 <= k < |segments| && segments[k].start <= segments[k].end
      && Holds(segments[k].start, segments[k].end - segments[k].start, segments[k].offset, address, byte)
  }

  /** Segments are well formed and each starts at or above the end of those before it. */
  ghost predicate SegmentsAscend(segments: seq<Segment>) {
    && (forall k :: 0 <= k < |segments| ==> segments[k].start < segments[k].end)
    && (forall k, l :: 0 <= k < l < |segments| ==> segments[k].end <= segments[l].start)
  }

  ghost predicate Covers(segments: seq<Segment>, placements: seq<Placement>) {
    forall address, byte :: SegmentHolds(segments, address, byte) <==> PlacedAt(placements, address, byte)
  }

  lemma AddSegment(segments: seq<Segment>, placements: seq<Placement>, p: Placement)
    requires Covers(segments, placements)
    ensures Covers(segments + [Segment(p.address, p.End(), p.offset)], placements + [p])
  {
    var more, longer := segments + [Segment(p.address, p.End(), p.offset)], placements + [p];
    forall address, byte
      ensures SegmentHolds(more, address, byte) <==> PlacedAt(longer, address, byte)
    {
      SegmentsSplit(segments, Segment(p.address, p.End(), p.offset), address, byte);
      PlacedSplits(placements, p, address, byte);
    }
  }

  lemma SegmentsSplit(segments: seq<Segment>, s: Segment, address: nat, byte: nat)
    requires s.start <= s.end
    ensures SegmentHolds(segments + [s], address, byte) <==>
            SegmentHolds(segments, address, byte) || Holds(s.start, s.end - s.start, s.offset, address, byte)
  {
    var more := segments + [s];
    if SegmentHolds(segments, address, byte) {
      var k :| 0 <= k < |segments| && segments[k].start <= segments[k].end
        && Holds(segments[k].start, segments[k].end - segments[k].start, segments[k].offset, address, byte);
      assert more[k] == segments[k];
    }
    if Holds(s.start, s.end - s.start, s.offset, address, byte) {
      assert more[|segments|] == s;
    }
    if SegmentHolds(more, address, byte) && !Holds(s.start, s.end - s.start, s.offset, address, byte) {
      var k :| 0 <= k < |more| && more[k].start <= more[k].end
        && Holds(more[k].start, more[k].end - more[k].start, more[k].offset, address, byte);
      assert segments[k] == more[k];
    }
  }

  lemma PlacedSplits(placements: seq<Placement>, p: Placement, address: nat, byte: nat)
    ensures PlacedAt(placements + [p], address, byte) <==>
            PlacedAt(placements, address, byte) || Holds(p.address, p.size, p.offset, address, byte)
  {
    var longer := placements + [p];
    if PlacedAt(placements, address, byte) {
      var i :| 0 <= i < |placements| && Holds(placements[i].address, placements[i].size, placements[i].offset, address, byte);
      assert longer[i] == placements[i];
    }
    if Holds(p.address, p.size, p.offset, address, byte) {
      assert longer[|placements|] == p;
    }
    if PlacedAt(longer, address, byte) && !Holds(p.address, p.size, p.offset, address, byte) {
      var i :| 0 <= i < |longer| && Holds(longer[i].address, longer[i].size, longer[i].offset, address, byte);
      assert placements[i] == longer[i];
    }
  }

  /** Extending the last segment over a section that follows it in memory and in the image. */
  lemma ExtendSegment(segments: seq<Segment>, last: Segment, placements: seq<Placement>, p: Placement)
    requires Covers(segments + [last], placements) && last.start <= last.end
    requires last.end == p.address && last.offset + (last.end - last.start) == p.offset
    ensures Covers(segments + [last.(end := p.End())], placements + [p])
  {
    hide SegmentHolds, PlacedAt;
    var longer := last.(end := p.End());
    forall address, byte
      ensures SegmentHolds(segments + [longer], address, byte) <==> PlacedAt(placements + [p], address, byte)
    {
      SegmentsSplit(segments, last, address, byte);
      SegmentsSplit(segments, longer, address, byte);
      PlacedSplits(placements, p, address, byte);
    }
  }

  /** Two segments that could have been one. */
  ghost predicate Meets(a: Segment, b: Segment) {
    a.end == b.start && a.offset + (a.end - a.start) == b.offset
  }

  /** Non-empty segments of which no two neighbours could be merged, ascending if the placements do. */
  ghost predicate Merged(segments: seq<Segment>, ascending: bool) {
    && (forall k :: 0 <= k < |segments| ==> segments[k].start < segments[k].end)
    && (forall k :: 0 <= k < |segments| - 1 ==> !Meets(segments[k], segments[k + 1]))
    && (ascending ==> SegmentsAscend(segments))
  }

  lemma MergedAppends(segments: seq<Segment>, s: Segment, ascending: bool)
    requires Merged(segments, ascending) && s.start < s.end
    requires segments != [] ==>
      var last := segments[|segments| - 1]; !Meets(last, s) && (ascending ==> last.end <= s.start)
    ensures Merged(segments + [s], ascending)
  {
    forall k | ascending && 0 <= k < |segments|
      ensures segments[k].end <= s.start
    {
      assert k < |segments| - 1 ==> segments[k].end <= segments[|segments| - 1].start;
    }
  }

  lemma MergedExtends(segments: seq<Segment>, last: Segment, end: nat, ascending: bool)
    requires Merged(segments + [last], ascending) && last.end <= end
    ensures Merged(segments + [last.(end := end)], ascending)
  {
    var before, after := segments + [last], segments + [last.(end := end)];
    assert before[|segments|] == last;
    forall k | 0 <= k < |after| - 1
      ensures !Meets(after[k], after[k + 1])
    {
      assert !Meets(before[k], before[k + 1]);
    }
    forall k | 0 <= k < |segments|
      ensures after[k] == before[k]
    {
    }
  }

  /** The segments hold exactly the placed addresses, at exactly the bytes of the placements. */
  method Coalesce(placements: seq<Placement>) returns (segments: seq<Segment>)
    requires forall i :: 0 <= i < |placements| ==> placements[i].size > 0
    ensures Covers(segments, placements) && Merged(segments, Ascending(placements))
  {
    hide Covers, Merged, Ascending;
    ghost var ascending := Ascending(placements);
    segments := [];
    NothingCovered();
    for i := 0 to |placements|
      invariant Covers(segments, placements[..i]) && Merged(segments, ascending)
      invariant i > 0 ==> segments != [] && segments[|segments| - 1].end == placements[i - 1].End()
      invariant i > 0 ==> segments[|segments| - 1].start <= segments[|segments| - 1].end
      invariant i == 0 ==> segments == []
    {
      var p := placements[i];
      assert placements[..i + 1] == placements[..i] + [p];
      if i > 0 {
        NextAscends(placements, i);
      }
      if segments != [] && segments[|segments| - 1].end == p.address
         && segments[|segments| - 1].offset + (segments[|segments| - 1].end - segments[|segments| - 1].start) == p.offset {
        var last := segments[|segments| - 1];
        assert segments == segments[..|segments| - 1] + [last];
        ExtendSegment(segments[..|segments| - 1], last, placements[..i], p);
        MergedExtends(segments[..|segments| - 1], last, p.End(), ascending);
        segments := segments[..|segments| - 1] + [last.(end := p.End())];
      } else {
        AddSegment(segments, placements[..i], p);
        MergedAppends(segments, Segment(p.address, p.End(), p.offset), ascending);
        segments := segments + [Segment(p.address, p.End(), p.offset)];
      }
    }
    assert placements[..|placements|] == placements;
  }

  lemma NextAscends(placements: seq<Placement>, i: nat)
    requires 0 < i < |placements|
    ensures Ascending(placements) ==> placements[i - 1].End() <= placements[i].address
  {
  }

  lemma NothingCovered()
    ensures Covers([], []) && forall ascending :: Merged([], ascending)
  {
  }

  /** In the linked image every address that a section occupies has its byte, one only unless
      regions overlap, and no other address has one. */
  method LinkLayout(sections: seq<Section>, regions: seq<Region>) returns (r: Result<(seq<Placement>, seq<Segment>, nat)>)
    requires Ordered(regions)
    requires forall i :: 0 <= i < |sections| ==> sections[i].size > 0 && sections[i].alignment > 0
    ensures r.Ok? ==>
      var (placements, segments, size) := r.value;
      && Placed(placements, sections, regions) && Covers(segments, placements)
      && Merged(segments, Ascending(placements)) && (Disjoint(regions) ==> Ascending(placements))
      && forall address: nat, byte: nat :: SegmentHolds(segments, address, byte) ==> byte < size
    ensures !r.Ok? ==> (exists i :: 0 <= i < |sections| && !IsPowerOfTwo(sections[i].alignment))
                       || exists i :: StuckAt(sections, regions, i) || OverflowsAt(sections, regions, i)
  {
    hide Covers, SegmentHolds, Inside, StuckAt, OverflowsAt, IsPowerOfTwo;
    var placed := PlaceAll(sections, regions);
    if !placed.Ok? {
      return match placed
        case BadAlignment => BadAlignment
        case NoRoom => NoRoom
        case Overflow => Overflow
        case TooLarge => TooLarge;
    }
    var (placements, size) := placed.value;
    var segments := Coalesce(placements);
    BytesBelow(segments, placements, size);
    r := Ok((placements, segments, size));
  }

  lemma BytesBelow(segments: seq<Segment>, placements: seq<Placement>, size: nat)
    requires Covers(segments, placements)
    requires forall i :: 0 <= i < |placements| ==> placements[i].offset + placements[i].size <= size
    ensures forall address: nat, byte: nat :: SegmentHolds(segments, address, byte) ==> byte < size
  {
  }

  // ---------------------------------------------------------------------------
  // Overlapping regions
  // ---------------------------------------------------------------------------

  /** No two sections share an address. */
  ghost predicate Apart(placements: seq<Placement>) {
    forall i, j :: 0 <= i < j < |placements| ==>
      placements[i].End() <= placements[j].address || placements[j].End() <= placements[i].address
  }

  ghost predicate NonEmpty(sections: seq<Section>) {
    forall i :: 0 <= i < |sections| ==> sections[i].size > 0
  }

  lemma {:induction false} RunsAreApart(sections: seq<Section>, regions: seq<Region>, placements: seq<Placement>, cursors: seq<Cursor>)
    requires Ordered(regions) && Disjoint(regions) && NonEmpty(sections) && Runs(sections, regions, placements, cursors)
    ensures Ascending(placements) && Behind(placements, regions, cursors[|sections|])
  {
    hide Steps, Disjoint, Ordered;
    if sections != [] {
      var n := |sections| - 1;
      RunsAreApart(sections[..n], regions, placements[..n], cursors[..n + 1]);
      RunsStand(sections[..n], regions, placements[..n], cursors[..n + 1]);
      assert Steps(sections[n], regions, cursors[n], placements[n], cursors[n + 1]);
      StepIsInside(sections[n], regions, cursors[n], placements[n], cursors[n + 1]);
    }
  }

  /** Sections that fill the first `n` regions completely, one each. */
  lemma {:induction false} Filled(regions: seq<Region>, n: nat)
    returns (sections: seq<Section>, placements: seq<Placement>, cursors: seq<Cursor>)
    requires Ordered(regions) && 0 < n <= |regions|
    ensures Runs(sections, regions, placements, cursors) && NonEmpty(sections) && |sections| == n
    ensures cursors[n].region == n - 1 && cursors[n].address == regions[n - 1].end
    ensures forall k :: 0 <= k < n ==> placements[k].address == regions[k].start && placements[k].End() == regions[k].end
  {
    var region := regions[n - 1];
    var section := Section(region.end - region.start, 1);
    if n == 1 {
      var p := Placement(region.start, 0, section.size);
      sections, placements, cursors := [section], [p], [Cursor(0, region.start, 0), Cursor(0, region.end, section.size)];
    } else {
      sections, placements, cursors := Filled(regions, n - 1);
      var cursor := cursors[n - 1];
      var p := Placement(region.start, cursor.offset, section.size);
      var next := Cursor(n - 1, region.end, cursor.offset + section.size);
      NextRegion(section, regions, cursor, p, next);
      RunsNext(sections, regions, placements, cursors, section, p, next);
      sections, placements, cursors := sections + [section], placements + [p], cursors + [next];
    }
  }

  /** From a full region a section goes to the start of the next one. */
  lemma NextRegion(section: Section, regions: seq<Region>, cursor: Cursor, p: Placement, next: Cursor)
    requires Ordered(regions) && section.alignment == 1 && section.size > 0
    requires cursor.region + 1 < |regions| && cursor.address == regions[cursor.region].end
    requires p == Placement(regions[cursor.region + 1].start, cursor.offset, section.size)
    requires p.End() <= regions[cursor.region + 1].end
    requires next == Cursor(cursor.region + 1, p.End(), cursor.offset + section.size)
    ensures Steps(section, regions, cursor, p, next)
  {
  }

  /** Filling all regions before one that overlaps an earlier one puts the next section over
      what is already placed. */
  lemma OverlapShares(regions: seq<Region>, r: nat, q: nat)
    returns (sections: seq<Section>, placements: seq<Placement>, cursors: seq<Cursor>)
    requires Ordered(regions) && r < q < |regions| && regions[r].end > regions[q].start
    ensures Runs(sections, regions, placements, cursors) && NonEmpty(sections) && !Apart(placements)
  {
    hide Steps, Runs;
    sections, placements, cursors := Filled(regions, q);
    var section, cursor := Section(1, 1), cursors[q];
    var p := Placement(regions[q].start, cursor.offset, 1);
    var next := Cursor(q, p.End(), cursor.offset + 1);
    NextRegion(section, regions, cursor, p, next);
    RunsNext(sections, regions, placements, cursors, section, p, next);
    assert placements[r].address == regions[r].start && placements[r].End() == regions[r].end;
    sections, placements, cursors := sections + [section], placements + [p], cursors + [next];
    assert placements[q] == p && !(placements[r].End() <= placements[q].address || placements[q].End() <= placements[r].address);
  }

  /** Sections never share an address, whatever their number, sizes and alignments, exactly when
      the regions do not overlap. */
  lemma ApartIff(regions: seq<Region>)
    requires Ordered(regions)
    ensures Disjoint(regions) <==>
            forall sections, placements, cursors ::
              NonEmpty(sections) && Runs(sections, regions, placements, cursors) ==> Apart(placements)
  {
    hide Runs, NonEmpty;
    if Disjoint(regions) {
      forall sections, placements, cursors | NonEmpty(sections) && Runs(sections, regions, placements, cursors)
        ensures Apart(placements)
      {
        RunsAreApart(sections, regions, placements, cursors);
      }
    } else {
      var r, q :| 0 <= r < q < |regions| && regions[r].end > regions[q].start;
      var sections, placements, cursors := OverlapShares(regions, r, q);
    }
  }
}
