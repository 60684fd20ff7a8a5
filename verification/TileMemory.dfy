/** The memory map of a tile (crates/ipu-codegen/src/memory.rs).

    The map keeps the free ranges of a tile and the allocations cut from them. The module
    proves that free ranges and reservations always tile the memory exactly once, that an
    allocation gets the lowest place that satisfies it and fails only when there is none, and
    that merging ranges and taking the uncovered rest give an exact union and complement. */
module TileMemory {
  import opened Alignment

  /** The addresses from `start` up to, not including, `end`. */
  datatype Range = Range(start: nat, end: nat) {
    predicate Has(x: nat) {
      start <= x < end
    }
  }

  /** The payload and everything reserved for it. */
  datatype Allocation = Allocation(range: Range, reserved: Range)

  datatype Request = Request(bytes: nat, alignment: nat, bounds: Range, endAlignment: nat, guardAfter: nat)

  datatype Result<T> = Ok(value: T) | Invalid | Overlap | OutOfMemory

  function Max(a: nat, b: nat): nat {
    if a < b then b else a
  }

  function Min(a: nat, b: nat): nat {
    if a < b then a else b
  }

  // ---------------------------------------------------------------------------
  // Free lists
  // ---------------------------------------------------------------------------

  /** Non-empty ranges in ascending order with a gap between any two. */
  ghost predicate Spaced(free: seq<Range>) {
    && (forall i :: 0 <= i < |free| ==> free[i].start < free[i].end)
    && (forall i, j :: 0 <= i < j < |free| ==> free[i].end < free[j].start)
  }

  ghost predicate Within(ranges: seq<Range>, x: nat) {
    exists i :: 0 <= i < |ranges| && ranges[i].Has(x)
  }

  function Reserved(allocations: seq<Allocation>): (r: seq<Range>)
    ensures |r| == |allocations|
  {
    seq(|allocations|, i requires 0 <= i < |allocations| => allocations[i].reserved)
  }

  /** Every address of the memory is free or reserved by exactly one allocation. */
  ghost predicate Tiles(memory: Range, free: seq<Range>, allocations: seq<Allocation>) {
    && (forall x: nat :: memory.Has(x) <==> Within(free, x) || Within(Reserved(allocations), x))
    && (forall x: nat :: !(Within(free, x) && Within(Reserved(allocations), x)))
    && (forall i, j, x: nat :: 0 <= i < j < |allocations| && allocations[i].reserved.Has(x) ==> !allocations[j].reserved.Has(x))
  }

  /** What cutting a range out of free range `index` leaves. */
  function Cut(free: seq<Range>, index: nat, range: Range): seq<Range>
    requires index < |free|
  {
    free[..index]
    + (if free[index].start < range.start then [Range(free[index].start, range.start)] else [])
    + (if range.end < free[index].end then [Range(range.end, free[index].end)] else [])
    + free[index + 1..]
  }

  lemma WithinJoin(a: seq<Range>, b: seq<Range>, x: nat)
    ensures Within(a + b, x) <==> Within(a, x) || Within(b, x)
  {
    if Within(a, x) {
      var i :| 0 <= i < |a| && a[i].Has(x);
      assert (a + b)[i].Has(x);
    }
    if Within(b, x) {
      var i :| 0 <= i < |b| && b[i].Has(x);
      assert (a + b)[|a| + i].Has(x);
    }
    if Within(a + b, x) {
      var i :| 0 <= i < |a + b| && (a + b)[i].Has(x);
      assert if i < |a| then a[i].Has(x) else b[i - |a|].Has(x);
    }
  }

  lemma WithinOne(range: Range, x: nat)
    ensures Within([range], x) <==> range.Has(x)
    ensures !Within([], x)
  {
    if range.Has(x) {
      assert [range][0].Has(x);
    }
  }

  /** Cutting removes exactly the addresses of the range. */
  lemma CutRemoves(free: seq<Range>, index: nat, range: Range, x: nat)
    requires Spaced(free) && index < |free|
    requires free[index].start <= range.start < range.end <= free[index].end
    ensures Within(Cut(free, index, range), x) <==> Within(free, x) && !range.Has(x)
  {
    hide Within;
    var before, after := free[..index], free[index + 1..];
    var left := if free[index].start < range.start then [Range(free[index].start, range.start)] else [];
    var right := if range.end < free[index].end then [Range(range.end, free[index].end)] else [];
    assert free == before + [free[index]] + after;
    WithinJoin(before + [free[index]], after, x);
    WithinJoin(before, [free[index]], x);
    WithinJoin(before + left + right, after, x);
    WithinJoin(before + left, right, x);
    WithinJoin(before, left, x);
    WithinOne(free[index], x);
    WithinOne(Range(free[index].start, range.start), x);
    WithinOne(Range(range.end, free[index].end), x);
    if free[index].Has(x) {
      OthersOutside(free, index, x);
    }
  }

  lemma SpacedOrder(free: seq<Range>, i: nat, j: nat)
    requires Spaced(free) && i < |free| && j < |free|
    ensures free[i].start < free[i].end && free[j].start < free[j].end
    ensures i < j ==> free[i].end < free[j].start
    ensures j < i ==> free[j].end < free[i].start
  {
  }

  lemma OthersOutside(free: seq<Range>, index: nat, x: nat)
    requires Spaced(free) && index < |free| && free[index].Has(x)
    ensures !Within(free[..index], x) && !Within(free[index + 1..], x)
  {
    hide Spaced;
    var before, after := free[..index], free[index + 1..];
    if Within(before, x) {
      var i :| 0 <= i < |before| && before[i].Has(x);
      SpacedOrder(free, i, index);
    }
    if Within(after, x) {
      var i :| 0 <= i < |after| && after[i].Has(x);
      SpacedOrder(free, index, index + 1 + i);
    }
  }

  lemma CutSpaced(free: seq<Range>, index: nat, range: Range)
    requires Spaced(free) && index < |free|
    requires free[index].start <= range.start < range.end <= free[index].end
    ensures Spaced(Cut(free, index, range))
  {
    hide Spaced;
    var left := if free[index].start < range.start then [Range(free[index].start, range.start)] else [];
    var right := if range.end < free[index].end then [Range(range.end, free[index].end)] else [];
    var before, after := free[..index], free[index + 1..];
    SpacedParts(free, index);
    SpacedJoin(before, left);
    SpacedJoin(before + left, right);
    SpacedJoin(before + left + right, after);
  }

  /** The ranges around one, which all keep their distance from it. */
  lemma SpacedParts(free: seq<Range>, index: nat)
    requires Spaced(free) && index < |free|
    ensures Spaced(free[..index]) && Spaced(free[index + 1..]) && free[index].start < free[index].end
    ensures forall i :: 0 <= i < index ==> free[i].end < free[index].start
    ensures index + 1 < |free| ==> free[index].end < free[index + 1].start < free[index + 1].end
    ensures index > 0 && index + 1 < |free| ==> free[index - 1].end < free[index + 1].start
  {
  }

  lemma SpacedJoin(a: seq<Range>, b: seq<Range>)
    requires Spaced(a) && (|b| <= 1 || Spaced(b)) && (b != [] ==> b[0].start < b[0].end)
    requires a != [] && b != [] ==> a[|a| - 1].end < b[0].start
    ensures Spaced(a + b)
  {
  }

  /** A range of free addresses lies in one free range: between two there is always a gap. */
  lemma {:induction false} RunInOne(free: seq<Range>, index: nat, range: Range, end: nat)
    requires Spaced(free) && index < |free| && free[index].Has(range.start) && range.start < end <= range.end
    requires forall x: nat :: range.Has(x) ==> Within(free, x)
    ensures end <= free[index].end
    decreases end
  {
    hide Spaced;
    if range.start < end - 1 {
      RunInOne(free, index, range, end - 1);
    }
    assert range.Has(end - 1);
    var i :| 0 <= i < |free| && free[i].Has(end - 1);
    SpacedOrder(free, i, index);
  }

  // ---------------------------------------------------------------------------
  // Requests
  // ---------------------------------------------------------------------------

  predicate WellFormed(request: Request) {
    request.bytes > 0 && IsPowerOfTwo(request.alignment) && IsPowerOfTwo(request.endAlignment)
    && request.bounds.start < request.bounds.end
  }

  /** Where the reservation of a payload at `start` ends. */
  function ReservedEnd(request: Request, start: nat): nat
    requires request.endAlignment > 0
  {
    NextMultiple(start + request.bytes + request.guardAfter, request.endAlignment)
  }

  /** A place that satisfies a request. */
  ghost predicate Feasible(free: seq<Range>, request: Request, start: nat) {
    && WellFormed(request) && request.alignment > 0 && request.endAlignment > 0
    && start % request.alignment == 0 && request.bounds.start <= start
    && ReservedEnd(request, start) <= request.bounds.end
    && forall x: nat :: start <= x < ReservedEnd(request, start) ==> Within(free, x)
  }

  /** A reservation of the payload and its guard, aligned at both ends, inside the bounds, with
      no room for another unit of the end alignment behind the guard. */
  ghost predicate IsReservation(request: Request, start: nat, end: nat) {
    && request.alignment > 0 && start % request.alignment == 0
    && request.endAlignment > 0 && end % request.endAlignment == 0
    && start + request.bytes + request.guardAfter <= end < start + request.bytes + request.guardAfter + request.endAlignment
    && request.bounds.start <= start && end <= request.bounds.end
  }

  ghost predicate IsRequest(request: Request) {
    && request.bytes > 0 && request.bounds.start < request.bounds.end
    && IsDoubled(request.alignment) && IsDoubled(request.endAlignment)
  }

  ghost predicate AllFree(free: seq<Range>, start: nat, end: nat) {
    forall x: nat :: start <= x < end ==> Within(free, x)
  }

  lemma RequestIff(request: Request)
    ensures WellFormed(request) <==> IsRequest(request)
  {
    hide IsPowerOfTwo, IsDoubled;
    PowersAreDoubled(request.alignment);
    PowersAreDoubled(request.endAlignment);
  }

  lemma ReservationIff(request: Request, start: nat, end: nat)
    requires request.alignment > 0 && request.endAlignment > 0
    ensures IsReservation(request, start, end) <==>
            && start % request.alignment == 0 && request.bounds.start <= start
            && ReservedEnd(request, start) <= request.bounds.end && end == ReservedEnd(request, start)
  {
    hide NextMultiple;
    var needed := start + request.bytes + request.guardAfter;
    var least := ReservedEnd(request, start);
    NextMultipleIsLeast(needed, request.endAlignment, end);
    assert least % request.endAlignment == 0 && needed <= least < needed + request.endAlignment;
    if IsReservation(request, start, end) {
      assert least <= end;
      if least < end {
        MultipleGap(least, end, request.endAlignment);
      }
      assert end == least;
    }
    if start % request.alignment == 0 && request.bounds.start <= start && least <= request.bounds.end && end == least {
      assert IsReservation(request, start, end);
    }
  }

  lemma MultipleGap(a: nat, b: nat, d: nat)
    requires d > 0 && a % d == 0 && b % d == 0 && a < b
    ensures a + d <= b
  {
    var k, l := a / d, b / d;
    assert a == k * d && b == l * d;
    if l <= k {
      DivMod.MulMonotone(l, k, d);
    } else {
      DivMod.MulMonotone(k + 1, l, d);
      DivMod.MulNext(k, d);
    }
  }

  /** A place is feasible for a proper request exactly when a reservation from there on is free. */
  lemma FeasibleIff(free: seq<Range>, request: Request, start: nat)
    ensures Feasible(free, request, start) <==>
            IsRequest(request) && exists end: nat :: IsReservation(request, start, end) && AllFree(free, start, end)
  {
    hide ReservedEnd, IsReservation, IsRequest, IsPowerOfTwo, Within;
    RequestIff(request);
    if WellFormed(request) {
      PowerIsPositive(request.alignment);
      PowerIsPositive(request.endAlignment);
      forall end: nat
        ensures IsReservation(request, start, end) <==>
                && start % request.alignment == 0 && request.bounds.start <= start
                && ReservedEnd(request, start) <= request.bounds.end && end == ReservedEnd(request, start)
      {
        ReservationIff(request, start, end);
      }
      assert AllFree(free, start, ReservedEnd(request, start)) <==>
             forall x: nat :: start <= x < ReservedEnd(request, start) ==> Within(free, x);
    }
  }

  /** A feasible place has its reservation in one free range. */
  lemma FeasibleInOne(free: seq<Range>, request: Request, start: nat) returns (index: nat)
    requires Spaced(free) && Feasible(free, request, start)
    ensures index < |free| && free[index].Has(start) && ReservedEnd(request, start) <= free[index].end
  {
    hide ReservedEnd;
    AfterPayload(request, start);
    assert Within(free, start);
    index :| 0 <= index < |free| && free[index].Has(start);
    RunInOne(free, index, Range(start, ReservedEnd(request, start)), ReservedEnd(request, start));
  }

  lemma AfterPayload(request: Request, start: nat)
    requires WellFormed(request) && request.endAlignment > 0
    ensures start + request.bytes + request.guardAfter <= ReservedEnd(request, start)
  {
    NextMultipleIsLeast(start + request.bytes + request.guardAfter, request.endAlignment, 0);
  }

  /** The lowest aligned start in a free range decides whether the range satisfies the request. */
  lemma LowestDecides(free: seq<Range>, index: nat, request: Request, lowest: nat, start: nat)
    requires Spaced(free) && index < |free| && Feasible(free, request, start)
    requires free[index].start <= start && ReservedEnd(request, start) <= free[index].end
    requires lowest == NextMultiple(Max(free[index].start, request.bounds.start), request.alignment)
    ensures lowest <= start && lowest + request.bytes + request.guardAfter <= ReservedEnd(request, lowest)
    ensures ReservedEnd(request, lowest) <= Min(free[index].end, request.bounds.end)
  {
    hide NextMultiple;
    NextMultipleIsLeast(Max(free[index].start, request.bounds.start), request.alignment, start);
    NextMultipleGrows(lowest + request.bytes + request.guardAfter, start + request.bytes + request.guardAfter, request.endAlignment);
    AfterPayload(request, lowest);
  }

  /** Looking for a place in `range` leaves the 32-bit addresses: the lowest aligned start lies
      beyond them, or the payload and its guard end inside and the reservation ends beyond. */
  predicate LeavesFrom(range: Range, request: Request)
    requires request.alignment > 0 && request.endAlignment > 0
  {
    var start := NextMultiple(Max(range.start, request.bounds.start), request.alignment);
    start > 0xFFFF_FFFF
    || (start + request.bytes + request.guardAfter <= 0xFFFF_FFFF && ReservedEnd(request, start) > 0xFFFF_FFFF)
  }

  ghost predicate LeavesAddresses(free: seq<Range>, request: Request) {
    request.alignment > 0 && request.endAlignment > 0 && exists i :: 0 <= i < |free| && LeavesFrom(free[i], request)
  }

  /** Room for the request and both alignments above the memory and the lower bound keeps
      every search inside the addresses. */
  lemma RoomKeepsAddresses(free: seq<Range>, limit: nat, request: Request)
    requires forall i :: 0 <= i < |free| ==> free[i].start <= limit
    requires Max(limit, request.bounds.start) + request.alignment + request.bytes + request.guardAfter + request.endAlignment
             <= 0xFFFF_FFFF
    ensures !LeavesAddresses(free, request)
  {
    hide NextMultiple;
    forall i | 0 <= i < |free| && request.alignment > 0 && request.endAlignment > 0
      ensures !LeavesFrom(free[i], request)
    {
      NextMultipleIsLeast(Max(free[i].start, request.bounds.start), request.alignment, 0);
      var start := NextMultiple(Max(free[i].start, request.bounds.start), request.alignment);
      NextMultipleIsLeast(start + request.bytes + request.guardAfter, request.endAlignment, 0);
    }
  }

  /** A page of 4 KiB cannot hold 8 KiB. The failure is out of memory; with a guard that ends just
      below the end of the addresses the same failure is invalid. */
  method SameFailureTwoErrors() returns (plain: Result<Allocation>, guarded: Result<Allocation>)
    ensures plain == OutOfMemory && guarded == Invalid
  {
    hide IsPowerOfTwo;
    EightIsPower();
    var free := [Range(0, 0x1000)];
    var map_ := new TileMemoryMap(Range(0, 0x1000));
    var request := Request(0x2000, 8, Range(0, 0x1000), 8, 0);
    RoomKeepsAddresses(free, 0, request);
    NotInPage(request);
    plain := map_.Allocate(request);
    var wide := request.(guardAfter := 0xFFFF_FFFF - 0x2000);
    assert LeavesFrom(free[0], wide);
    NotInPage(wide);
    guarded := map_.Allocate(wide);
  }

  lemma EightIsPower()
    ensures IsPowerOfTwo(8)
  {
    assert IsPowerOfTwo(2) && IsPowerOfTwo(4);
  }

  lemma NotInPage(request: Request)
    requires request.bytes >= 0x2000
    ensures forall start: nat :: !Feasible([Range(0, 0x1000)], request, start)
  {
    var free := [Range(0, 0x1000)];
    forall start: nat | Feasible(free, request, start)
      ensures false
    {
      var i := FeasibleInOne(free, request, start);
      AfterPayload(request, start);
    }
  }

  // ---------------------------------------------------------------------------
  // The map
  // ---------------------------------------------------------------------------

  class TileMemoryMap {
    const memory: Range
    var free: seq<Range>
    var allocations: seq<Allocation>

    ghost predicate Valid()
      reads this
    {
      && memory.start < memory.end <= 0xFFFF_FFFF
      && Spaced(free) && Tiles(memory, free, allocations)
      && forall i :: 0 <= i < |free| ==> free[i].end <= memory.end
    }

    constructor (memory: Range)
      requires memory.start < memory.end <= 0xFFFF_FFFF
      ensures Valid() && this.memory == memory && free == [memory] && allocations == []
    {
      this.memory := memory;
      free := [memory];
      allocations := [];
      new;
      forall x: nat
        ensures Within([memory], x) <==> memory.Has(x)
        ensures !Within(Reserved([]), x)
      {
        WithinOne(memory, x);
      }
    }

    /** Succeeds exactly when every address of the range is free, and takes exactly those. */
    method Reserve(range: Range) returns (r: Result<Allocation>)
      requires Valid()
      modifies this
      ensures Valid()
      ensures r == Invalid <==> range.start >= range.end
      ensures r.Ok? <==> range.start < range.end && forall x: nat :: range.Has(x) ==> Within(old(free), x)
      ensures r.Ok? || r == Invalid || r == Overlap
      ensures !r.Ok? ==> free == old(free) && allocations == old(allocations)
      ensures r.Ok? ==> r.value == Allocation(range, range) && allocations == old(allocations) + [r.value]
      ensures r.Ok? ==> forall x: nat :: Within(free, x) <==> Within(old(free), x) && !range.Has(x)
    {
      hide Tiles, Cut, Within, Spaced;
      if range.start >= range.end {
        return Invalid;
      }
      for index := 0 to |free|
        invariant forall i :: 0 <= i < index ==> !(free[i].start <= range.start && range.end <= free[i].end)
        invariant free == old(free) && allocations == old(allocations)
      {
        if free[index].start <= range.start && range.end <= free[index].end {
          CutSpaced(free, index, range);
          CutTiles(memory, free, index, range, allocations);
          InsideIsFree(free, index, range);
          assert forall x: nat :: Within(Cut(free, index, range), x) <==> Within(free, x) && !range.Has(x) by {
            forall x: nat
              ensures Within(Cut(free, index, range), x) <==> Within(free, x) && !range.Has(x)
            {
              CutRemoves(free, index, range, x);
            }
          }
          CutBelow(free, index, range, memory.end);
          free := Cut(free, index, range);
          allocations := allocations + [Allocation(range, range)];
          return Ok(Allocation(range, range));
        }
      }
      NotFree(free, range);
      r := Overlap;
    }

    /** The lowest feasible place is allocated; the request fails exactly when none is feasible. */
    method Allocate(request: Request) returns (r: Result<Allocation>)
      requires Valid()
      modifies this
      ensures Valid()
      ensures !WellFormed(request) ==> r == Invalid
      ensures !r.Ok? ==> free == old(free) && allocations == old(allocations)
      ensures !r.Ok? ==> forall start: nat :: !Feasible(old(free), request, start)
      // What a failure is called depends on whether the search left the address space.
      ensures !r.Ok? && WellFormed(request) ==>
                r == if LeavesAddresses(old(free), request) then Invalid else OutOfMemory
      ensures r.Ok? ==>
        var start := r.value.range.start;
        && Feasible(old(free), request, start)
        && r.value == Allocation(Range(start, start + request.bytes), Range(start, ReservedEnd(request, start)))
        && allocations == old(allocations) + [r.value]
        && (forall x: nat :: Within(free, x) <==> Within(old(free), x) && !r.value.reserved.Has(x))
        && (forall other: nat :: Feasible(old(free), request, other) ==> start <= other)
    {
      hide Tiles, Within, NextMultiple, Feasible, Spaced, ReservedEnd, IsPowerOfTwo;
      if !WellFormed(request) {
        NotFeasible(free, request);
        return Invalid;
      }
      PowerIsPositive(request.alignment);
      PowerIsPositive(request.endAlignment);
      for index := 0 to |free|
        invariant Valid() && free == old(free) && allocations == old(allocations)
        invariant NoneBefore(free, request, index)
        invariant forall i :: 0 <= i < index ==> !LeavesFrom(free[i], request)
      {
        var start := NextMultiple(Max(free[index].start, request.bounds.start), request.alignment);
        if start > U32_MAX {
          NoneFrom(memory.end, free, request, index, start);
          return Invalid;
        }
        var payloadEnd := start + request.bytes;
        if payloadEnd > U32_MAX || payloadEnd + request.guardAfter > U32_MAX {
          NoneIn(free, request, index, start);
          continue;
        }
        var reservedEnd := ReservedEnd(request, start);
        if reservedEnd > U32_MAX {
          NoneFrom(memory.end, free, request, index, start);
          return Invalid;
        }
        if reservedEnd <= Min(free[index].end, request.bounds.end) {
          FoundIsLowest(free, request, index, start);
          var reserved := Reserve(Range(start, reservedEnd));
          var allocation := reserved.value.(range := Range(start, payloadEnd));
          SameReserved(memory, free, old(allocations), reserved.value, allocation);
          allocations := allocations[|allocations| - 1 := allocation];
          return Ok(allocation);
        }
        NoneIn(free, request, index, start);
      }
      NoneAtAll(free, request);
      r := OutOfMemory;
    }

    /** The first free address at or above `start` in the bounds that is aligned; an error
        means that there is none. */
    method NextFree(start: nat, bounds: Range, alignment: nat) returns (r: Result<nat>)
      requires Valid()
      ensures r == Invalid <==> !IsPowerOfTwo(alignment)
      ensures r.Ok? || r == Invalid || r == OutOfMemory
      ensures r.Ok? ==> IsPlace(free, start, bounds, alignment, r.value)
      ensures r.Ok? ==> forall x: nat :: IsPlace(free, start, bounds, alignment, x) ==> r.value <= x
      ensures r == OutOfMemory ==> forall x: nat :: !IsPlace(free, start, bounds, alignment, x)
    {
      if !IsPowerOfTwo(alignment) {
        return Invalid;
      }
      for index := 0 to |free|
        invariant forall x: nat :: IsPlace(free, start, bounds, alignment, x) ==> index < |free| && free[index].start <= x
      {
        var freeStart, freeEnd := Max(free[index].start, bounds.start), Min(free[index].end, bounds.end);
        if freeStart < freeEnd {
          var address := NextMultiple(Max(freeStart, start), alignment);
          forall x: nat | IsPlace(free, start, bounds, alignment, x)
            ensures free[index].Has(x) ==> address <= x
          {
            NextMultipleIsLeast(Max(freeStart, start), alignment, x);
          }
          NextMultipleIsLeast(Max(freeStart, start), alignment, 0);
          if address <= U32_MAX && address < freeEnd {
            assert free[index].Has(address);
            return Ok(address);
          }
        }
        forall x: nat | IsPlace(free, start, bounds, alignment, x)
          ensures index + 1 < |free| && free[index + 1].start <= x
        {
          AboveNext(free, index, x);
        }
      }
      r := OutOfMemory;
    }
  }

  ghost predicate IsPlace(free: seq<Range>, start: nat, bounds: Range, alignment: nat, x: nat) {
    alignment > 0 && x % alignment == 0 && start <= x && bounds.Has(x) && Within(free, x)
  }

  lemma AboveNext(free: seq<Range>, index: nat, x: nat)
    requires Spaced(free) && index < |free| && Within(free, x) && free[index].start <= x && !free[index].Has(x)
    ensures index + 1 < |free| && free[index + 1].start <= x
  {
    hide Spaced;
    var i :| 0 <= i < |free| && free[i].Has(x);
    SpacedOrder(free, i, index);
    if index + 1 < |free| {
      SpacedOrder(free, index + 1, i);
    }
  }

  lemma InsideIsFree(free: seq<Range>, index: nat, range: Range)
    requires index < |free| && free[index].start <= range.start && range.end <= free[index].end
    ensures forall x: nat :: range.Has(x) ==> Within(free, x)
  {
    forall x: nat | range.Has(x)
      ensures Within(free, x)
    {
      assert free[index].Has(x);
    }
  }

  lemma CutBelow(free: seq<Range>, index: nat, range: Range, end: nat)
    requires index < |free| && range.start <= free[index].end && forall i :: 0 <= i < |free| ==> free[i].end <= end
    ensures forall i :: 0 <= i < |Cut(free, index, range)| ==> Cut(free, index, range)[i].end <= end
  {
  }

  /** A range that lies in no single free range has an address that is not free. */
  lemma NotFree(free: seq<Range>, range: Range)
    requires Spaced(free) && range.start < range.end
    requires forall i :: 0 <= i < |free| ==> !(free[i].start <= range.start && range.end <= free[i].end)
    ensures !forall x: nat :: range.Has(x) ==> Within(free, x)
  {
    if forall x: nat :: range.Has(x) ==> Within(free, x) {
      assert range.Has(range.start);
      var i :| 0 <= i < |free| && free[i].Has(range.start);
      RunInOne(free, i, range, range.end);
    }
  }

  lemma CutTiles(memory: Range, free: seq<Range>, index: nat, range: Range, allocations: seq<Allocation>)
    requires Spaced(free) && index < |free| && Tiles(memory, free, allocations)
    requires free[index].start <= range.start < range.end <= free[index].end
    ensures Tiles(memory, Cut(free, index, range), allocations + [Allocation(range, range)])
  {
    hide Cut, Within;
    var more := allocations + [Allocation(range, range)];
    assert Reserved(more) == Reserved(allocations) + [range];
    InsideIsFree(free, index, range);
    forall x: nat
      ensures Within(Cut(free, index, range), x) <==> Within(free, x) && !range.Has(x)
      ensures Within(Reserved(more), x) <==> Within(Reserved(allocations), x) || range.Has(x)
    {
      CutRemoves(free, index, range, x);
      WithinJoin(Reserved(allocations), [range], x);
      WithinOne(range, x);
    }
    forall i, j, x: nat | 0 <= i < j < |more| && more[i].reserved.Has(x)
      ensures !more[j].reserved.Has(x)
    {
      if j == |allocations| {
        IsReserved(allocations, i, x);
      }
    }
  }

  lemma IsReserved(allocations: seq<Allocation>, i: nat, x: nat)
    requires i < |allocations| && allocations[i].reserved.Has(x)
    ensures Within(Reserved(allocations), x)
  {
    assert Reserved(allocations)[i].Has(x);
  }

  /** Shortening the payload of the last allocation keeps what is reserved. */
  lemma SameReserved(memory: Range, free: seq<Range>, allocations: seq<Allocation>, whole: Allocation, shorter: Allocation)
    requires Tiles(memory, free, allocations + [whole]) && shorter.reserved == whole.reserved
    ensures Tiles(memory, free, allocations + [shorter])
    ensures (allocations + [whole])[|allocations| := shorter] == allocations + [shorter]
  {
    hide Within;
    var a, b := allocations + [whole], allocations + [shorter];
    assert Reserved(b) == Reserved(a);
    assert forall i :: 0 <= i < |a| ==> b[i].reserved == a[i].reserved;
  }

  // ---------------------------------------------------------------------------
  // Searching for a place
  // ---------------------------------------------------------------------------

  lemma NotFeasible(free: seq<Range>, request: Request)
    requires !WellFormed(request)
    ensures forall start: nat :: !Feasible(free, request, start)
  {
  }

  /** No feasible place starts in the first `index` free ranges. */
  ghost predicate NoneBefore(free: seq<Range>, request: Request, index: nat)
    requires index <= |free|
  {
    forall i, start: nat :: 0 <= i < index && free[i].Has(start) ==> !Feasible(free, request, start)
  }

  lemma FeasibleStart(free: seq<Range>, request: Request, index: nat, start: nat)
    requires Spaced(free) && Feasible(free, request, start) && index < |free| && free[index].Has(start)
    ensures ReservedEnd(request, start) <= free[index].end
  {
    hide ReservedEnd, Spaced, Feasible;
    var i := FeasibleInOne(free, request, start);
    SpacedOrder(free, i, index);
  }

  /** A free range whose lowest aligned start does not fit holds no feasible place. */
  lemma NoneIn(free: seq<Range>, request: Request, index: nat, lowest: nat)
    requires Spaced(free) && index < |free| && NoneBefore(free, request, index) && WellFormed(request)
    requires request.alignment > 0 && request.endAlignment > 0
    requires lowest == NextMultiple(Max(free[index].start, request.bounds.start), request.alignment)
    requires ReservedEnd(request, lowest) > Min(free[index].end, request.bounds.end)
             || lowest + request.bytes + request.guardAfter > free[index].end
    ensures NoneBefore(free, request, index + 1)
  {
    hide ReservedEnd, NextMultiple, Feasible;
    forall start: nat | free[index].Has(start) && Feasible(free, request, start)
      ensures false
    {
      FeasibleStart(free, request, index, start);
      LowestDecides(free, index, request, lowest, start);
    }
  }

  /** Past the address space no later range can hold a feasible place either. */
  lemma NoneFrom(limit: nat, free: seq<Range>, request: Request, index: nat, lowest: nat)
    requires Spaced(free) && index < |free| && NoneBefore(free, request, index) && WellFormed(request)
    requires limit <= 0xFFFF_FFFF && forall i :: 0 <= i < |free| ==> free[i].end <= limit
    requires request.alignment > 0 && request.endAlignment > 0
    requires lowest == NextMultiple(Max(free[index].start, request.bounds.start), request.alignment)
    requires lowest > 0xFFFF_FFFF || ReservedEnd(request, lowest) > 0xFFFF_FFFF
    ensures forall start: nat :: !Feasible(free, request, start)
  {
    hide ReservedEnd, NextMultiple, Feasible, Spaced;
    forall start: nat | Feasible(free, request, start)
      ensures false
    {
      var i := FeasibleInOne(free, request, start);
      StartBounds(free, request, start);
      SpacedOrder(free, index, i);
      NextMultipleIsLeast(Max(free[index].start, request.bounds.start), request.alignment, start);
      ReservedEndGrows(request, lowest, start);
    }
  }

  lemma StartBounds(free: seq<Range>, request: Request, start: nat)
    requires Feasible(free, request, start)
    ensures request.bounds.start <= start && start % request.alignment == 0
  {
  }

  lemma ReservedEndGrows(request: Request, a: nat, b: nat)
    requires a <= b && request.endAlignment > 0
    ensures ReservedEnd(request, a) <= ReservedEnd(request, b)
  {
    NextMultipleGrows(a + request.bytes + request.guardAfter, b + request.bytes + request.guardAfter, request.endAlignment);
  }

  lemma NoneAtAll(free: seq<Range>, request: Request)
    requires Spaced(free) && NoneBefore(free, request, |free|)
    ensures forall start: nat :: !Feasible(free, request, start)
  {
    hide Feasible;
    forall start: nat | Feasible(free, request, start)
      ensures false
    {
      var i := FeasibleInOne(free, request, start);
    }
  }

  /** The first free range that fits gives the lowest feasible place. */
  lemma FoundIsLowest(free: seq<Range>, request: Request, index: nat, lowest: nat)
    requires Spaced(free) && index < |free| && NoneBefore(free, request, index) && WellFormed(request)
    requires request.alignment > 0 && request.endAlignment > 0
    requires lowest == NextMultiple(Max(free[index].start, request.bounds.start), request.alignment)
    requires ReservedEnd(request, lowest) <= Min(free[index].end, request.bounds.end)
    ensures Feasible(free, request, lowest) && lowest < ReservedEnd(request, lowest)
    ensures forall x: nat :: Range(lowest, ReservedEnd(request, lowest)).Has(x) ==> Within(free, x)
    ensures forall start: nat :: Feasible(free, request, start) ==> lowest <= start
  {
    hide ReservedEnd, NextMultiple, Within;
    AfterPayload(request, lowest);
    NextMultipleIsLeast(Max(free[index].start, request.bounds.start), request.alignment, 0);
    InsideIsFree(free, index, Range(lowest, ReservedEnd(request, lowest)));
    assert forall x: nat :: Range(lowest, ReservedEnd(request, lowest)).Has(x) <==> lowest <= x < ReservedEnd(request, lowest);
    forall start: nat | Feasible(free, request, start)
      ensures lowest <= start
    {
      var i := FeasibleInOne(free, request, start);
      SpacedOrder(free, index, i);
      NextMultipleIsLeast(Max(free[index].start, request.bounds.start), request.alignment, start);
    }
  }

  // ---------------------------------------------------------------------------
  // Union and complement
  // ---------------------------------------------------------------------------

  ghost predicate AllOrdered(ranges: seq<Range>) {
    forall i :: 0 <= i < |ranges| ==> ranges[i].start <= ranges[i].end
  }

  ghost predicate ByStart(ranges: seq<Range>) {
    forall i, j :: 0 <= i < j < |ranges| ==> ranges[i].start <= ranges[j].start
  }

  /** Ascending ranges with a gap between any two. */
  ghost predicate Gapped(ranges: seq<Range>) {
    forall i, j :: 0 <= i < j < |ranges| ==> ranges[i].end < ranges[j].start && ranges[i].start <= ranges[j].start
  }

  /** `after` holds what `before` and a range hold together. */
  ghost predicate Adds(before: seq<Range>, range: Range, after: seq<Range>) {
    forall x: nat :: Within(after, x) <==> Within(before, x) || range.Has(x)
  }

  lemma Appends(merged: seq<Range>, range: Range)
    requires Gapped(merged)
    requires merged != [] ==> merged[|merged| - 1].start <= range.start && merged[|merged| - 1].end < range.start
    ensures Gapped(merged + [range]) && Adds(merged, range, merged + [range])
    ensures AllOrdered(merged) && range.start <= range.end ==> AllOrdered(merged + [range])
  {
    hide Within;
    forall x: nat
      ensures Within(merged + [range], x) <==> Within(merged, x) || range.Has(x)
    {
      WithinJoin(merged, [range], x);
      WithinOne(range, x);
    }
    forall k | 0 <= k < |merged|
      ensures merged[k].end < range.start && merged[k].start <= range.start
    {
      assert k < |merged| - 1 ==> merged[k].end < merged[|merged| - 1].start;
    }
  }

  /** Widening the last range over one that starts within or at its end. */
  lemma Extends(merged: seq<Range>, last: Range, range: Range)
    requires Gapped(merged + [last]) && last.start <= range.start <= last.end
    ensures var wider := merged + [Range(last.start, Max(last.end, range.end))];
      && Gapped(wider) && Adds(merged + [last], range, wider)
      && (AllOrdered(merged + [last]) ==> AllOrdered(wider))
  {
    hide Within;
    var longer := Range(last.start, Max(last.end, range.end));
    forall x: nat
      ensures Within(merged + [longer], x) <==> Within(merged + [last], x) || range.Has(x)
    {
      WithinJoin(merged, [last], x);
      WithinJoin(merged, [longer], x);
      WithinOne(last, x);
      WithinOne(longer, x);
    }
    assert forall i :: 0 <= i < |merged| ==> (merged + [longer])[i] == (merged + [last])[i];
    assert (merged + [last])[|merged|] == last;
  }

  /** Merging what sorting the ranges gives leaves ranges with gaps that cover the same addresses. */
  method MergeRanges(ranges: seq<Range>, sorted: seq<Range>) returns (merged: seq<Range>)
    requires ByStart(sorted) && multiset(sorted) == multiset(ranges)
    ensures forall x: nat :: Within(merged, x) <==> Within(ranges, x)
    ensures Gapped(merged) && (AllOrdered(ranges) ==> AllOrdered(merged))
  {
    hide Within, Gapped, AllOrdered;
    merged := [];
    NothingMerged();
    for i := 0 to |sorted|
      invariant forall x: nat :: Within(merged, x) <==> Within(sorted[..i], x)
      invariant Gapped(merged) && (AllOrdered(sorted[..i]) ==> AllOrdered(merged))
      invariant i > 0 ==> merged != [] && merged[|merged| - 1].start <= sorted[i - 1].start
      invariant i == 0 ==> merged == []
    {
      var range := sorted[i];
      TakesNext(sorted, i);
      if merged != [] && range.start <= merged[|merged| - 1].end {
        var last := merged[|merged| - 1];
        assert merged == merged[..|merged| - 1] + [last];
        Extends(merged[..|merged| - 1], last, range);
        merged := merged[..|merged| - 1] + [Range(last.start, Max(last.end, range.end))];
      } else {
        Appends(merged, range);
        merged := merged + [range];
      }
    }
    assert sorted[..|sorted|] == sorted;
    SameMembers(sorted, ranges);
  }

  lemma NothingMerged()
    ensures Gapped([]) && AllOrdered([])
  {
  }

  lemma TakesNext(sorted: seq<Range>, i: nat)
    requires i < |sorted|
    ensures Adds(sorted[..i], sorted[i], sorted[..i + 1])
    ensures AllOrdered(sorted[..i + 1]) ==> AllOrdered(sorted[..i]) && sorted[i].start <= sorted[i].end
  {
    var longer := sorted[..i + 1];
    assert longer == sorted[..i] + [sorted[i]];
    forall x: nat
      ensures Within(longer, x) <==> Within(sorted[..i], x) || sorted[i].Has(x)
    {
      WithinJoin(sorted[..i], [sorted[i]], x);
      WithinOne(sorted[i], x);
    }
    assert longer[i] == sorted[i] && forall k :: 0 <= k < i ==> longer[k] == sorted[..i][k];
  }

  lemma GappedAscends(ranges: seq<Range>)
    requires Gapped(ranges)
    ensures ByStart(ranges)
  {
  }

  lemma SameMembers(a: seq<Range>, b: seq<Range>)
    requires multiset(a) == multiset(b)
    ensures forall x: nat :: Within(a, x) <==> Within(b, x)
    ensures AllOrdered(b) ==> AllOrdered(a)
  {
    forall x: nat
      ensures Within(a, x) <==> Within(b, x)
    {
      if Within(a, x) {
        var i :| 0 <= i < |a| && a[i].Has(x);
        assert a[i] in multiset(b);
        var j :| 0 <= j < |b| && b[j] == a[i];
      }
      if Within(b, x) {
        var i :| 0 <= i < |b| && b[i].Has(x);
        assert b[i] in multiset(a);
        var j :| 0 <= j < |a| && a[j] == b[i];
      }
    }
    forall i | 0 <= i < |a|
      ensures exists j :: 0 <= j < |b| && b[j] == a[i]
    {
      assert a[i] in multiset(b);
    }
  }

  /** The result is exactly what the occupied ranges leave uncovered, in ascending order. */
  method UncoveredRanges(start: nat, end: nat, occupied: seq<Range>) returns (result: seq<Range>)
    requires ByStart(occupied)
    ensures forall x: nat :: Within(result, x) <==> start <= x < end && !Within(occupied, x)
    ensures forall i :: 0 <= i < |result| ==> result[i].start < result[i].end
    ensures AllOrdered(occupied) ==> forall i, j :: 0 <= i < j < |result| ==> result[i].end <= result[j].start
  {
    hide Within;
    var cursor := start;
    result := [];
    var i := 0;
    // A range that ends before it starts sets the cursor back below what is already found.
    ghost var found := start;
    NothingWithin();
    while i < |occupied|
      invariant 0 <= i <= |occupied| && start <= cursor <= found
      invariant found > cursor ==> i > 0 && found <= occupied[i - 1].start
      invariant forall k :: 0 <= k < |result| ==> result[k].start < result[k].end
      invariant AllOrdered(occupied) ==> forall k :: 0 <= k < |result| ==> result[k].end <= cursor
      invariant AllOrdered(occupied) ==> forall k, l :: 0 <= k < l < |result| ==> result[k].end <= result[l].start
      invariant forall k :: 0 <= k < |result| ==> i > 0 && result[k].end <= occupied[i - 1].start
      invariant forall x: nat :: Within(result, x) <==> start <= x < found && x < end && !Within(occupied[..i], x)
      invariant forall x: nat :: Within(occupied[..i], x) ==> x < cursor
    {
      var range := occupied[i];
      if range.start >= end {
        break;
      }
      ghost var before, was := result, cursor;
      if range.end > cursor {
        if cursor < range.start {
          result := result + [Range(cursor, range.start)];
          found := range.start;
        }
        cursor := Max(cursor, range.end);
        found := Max(found, cursor);
      }
      forall x: nat
        ensures Within(occupied[..i + 1], x) <==> Within(occupied[..i], x) || range.Has(x)
        ensures was < range.start && range.end > was ==> (Within(result, x) <==> Within(before, x) || Range(was, range.start).Has(x))
        ensures Within(before, x) ==> x < range.start
      {
        BelowAll(before, range.start, x);
        assert occupied[..i + 1] == occupied[..i] + [range];
        WithinJoin(occupied[..i], [range], x);
        WithinOne(range, x);
        WithinJoin(before, [Range(was, range.start)], x);
        WithinOne(Range(was, range.start), x);
      }
      i := i + 1;
    }
    ghost var before := result;
    if cursor < end {
      result := result + [Range(cursor, end)];
    }
    forall x: nat
      ensures cursor < end ==> (Within(result, x) <==> Within(before, x) || Range(cursor, end).Has(x))
      ensures x < end ==> (Within(occupied, x) <==> Within(occupied[..i], x))
    {
      WithinJoin(before, [Range(cursor, end)], x);
      WithinOne(Range(cursor, end), x);
      LaterAbove(occupied, i, end, x);
    }
  }

  lemma BelowAll(ranges: seq<Range>, end: nat, x: nat)
    requires forall k :: 0 <= k < |ranges| ==> ranges[k].end <= end
    ensures Within(ranges, x) ==> x < end
  {
  }

  lemma NothingWithin()
    ensures forall x: nat :: !Within([], x)
  {
  }

  /** The ranges after one that starts at or above the end hold nothing below it. */
  lemma LaterAbove(occupied: seq<Range>, i: nat, end: nat, x: nat)
    requires ByStart(occupied) && i <= |occupied| && (i < |occupied| ==> occupied[i].start >= end)
    ensures x < end ==> (Within(occupied, x) <==> Within(occupied[..i], x))
  {
    assert occupied == occupied[..i] + occupied[i..];
    WithinJoin(occupied[..i], occupied[i..], x);
    var later := occupied[i..];
    forall k | 0 <= k < |later|
      ensures later[k].start >= end
    {
      assert later[k] == occupied[i + k];
    }
  }

  /** The uncovered part of merged ranges is the exact complement of the ranges. */
  method FreeBetween(start: nat, end: nat, ranges: seq<Range>, sorted: seq<Range>) returns (result: seq<Range>)
    requires ByStart(sorted) && multiset(sorted) == multiset(ranges)
    ensures forall x: nat :: Within(result, x) <==> start <= x < end && !Within(ranges, x)
  {
    var merged := MergeRanges(ranges, sorted);
    GappedAscends(merged);
    result := UncoveredRanges(start, end, merged);
  }
}
