/** Interval queries per memory element (crates/ipu-codegen/src/exchange/hazards.rs).

    Each element keeps its recorded intervals by start, with the latest end of every prefix,
    so a query looks at one prefix only. The module proves that after any recordings, in any
    order and with overlapping or nested intervals, a query gives the latest end over all
    recorded intervals that overlap it in time and share an element. */
module MemoryHistory {

  datatype Option<T> = None | Some(value: T)

  datatype Interval = Interval(start: nat, end: nat, prefixEnd: nat)

  /** One call of `Record`. */
  datatype Entry = Entry(elements: seq<nat>, start: nat, end: nat)

  function Max(a: nat, b: nat): nat {
    if a < b then b else a
  }

  // ---------------------------------------------------------------------------
  // One element
  // ---------------------------------------------------------------------------

  /** The latest end of the first `n` intervals. */
  ghost function LatestEnd(intervals: seq<Interval>, n: nat): nat
    requires n <= |intervals|
  {
    if n == 0 then 0 else Max(LatestEnd(intervals, n - 1), intervals[n - 1].end)
  }

  ghost predicate ByStart(intervals: seq<Interval>) {
    forall i, j :: 0 <= i < j < |intervals| ==> intervals[i].start <= intervals[j].start
  }

  /** The first `n` prefix ends are right. */
  ghost predicate Indexed(intervals: seq<Interval>, n: nat) {
    n <= |intervals| && forall i :: 0 <= i < n ==> intervals[i].prefixEnd == LatestEnd(intervals, i + 1)
  }

  ghost predicate Holds(intervals: seq<Interval>, start: nat, end: nat) {
    exists i :: 0 <= i < |intervals| && intervals[i].start == start && intervals[i].end == end
  }

  lemma {:induction false} LatestEndBounds(intervals: seq<Interval>, n: nat)
    requires n <= |intervals|
    ensures forall i :: 0 <= i < n ==> intervals[i].end <= LatestEnd(intervals, n)
    ensures n > 0 ==> exists i :: 0 <= i < n && intervals[i].end == LatestEnd(intervals, n)
  {
    if n > 1 {
      LatestEndBounds(intervals, n - 1);
    } else if n == 1 {
      assert LatestEnd(intervals, 0) == 0 && intervals[0].end == LatestEnd(intervals, 1);
    }
  }

  lemma {:induction false} LatestEndSame(a: seq<Interval>, b: seq<Interval>, n: nat)
    requires n <= |a| && n <= |b| && forall i :: 0 <= i < n ==> a[i].end == b[i].end
    ensures LatestEnd(a, n) == LatestEnd(b, n)
  {
    if n > 0 {
      LatestEndSame(a, b, n - 1);
    }
  }

  /** The number of intervals that start at or before `limit`; they come first. */
  method StartsUpTo(intervals: seq<Interval>, limit: int) returns (count: nat)
    requires ByStart(intervals)
    ensures count <= |intervals|
    ensures forall i :: 0 <= i < count ==> intervals[i].start <= limit
    ensures forall i :: count <= i < |intervals| ==> intervals[i].start > limit
  {
    count := 0;
    while count < |intervals| && intervals[count].start <= limit
      invariant count <= |intervals|
      invariant forall i :: 0 <= i < count ==> intervals[i].start <= limit
    {
      count := count + 1;
    }
  }

  /** Inserts an interval in order and repairs the prefix ends from there on. */
  method InsertInterval(intervals: seq<Interval>, start: nat, end: nat) returns (result: seq<Interval>)
    requires ByStart(intervals) && Indexed(intervals, |intervals|)
    ensures ByStart(result) && Indexed(result, |result|)
    ensures forall s, e: nat :: Holds(result, s, e) <==> Holds(intervals, s, e) || (s == start && e == end)
  {
    hide Holds, Indexed, LatestEnd;
    var index := StartsUpTo(intervals, start);
    var prefixEnd := if index > 0 then intervals[index - 1].prefixEnd else 0;
    result := intervals[..index] + [Interval(start, end, 0)] + intervals[index..];
    InsertHolds(intervals, index, start, end);
    InsertIndexed(intervals, index, start, end);
    ghost var inserted := result;
    for k := index to |result|
      invariant |result| == |inserted| && ByStart(result)
      invariant SameTimes(inserted, result)
      invariant Indexed(result, k) && prefixEnd == LatestEnd(result, k)
    {
      prefixEnd := Max(prefixEnd, result[k].end);
      ghost var before := result;
      result := result[k := result[k].(prefixEnd := prefixEnd)];
      RepairNext(before, result, k, prefixEnd);
    }
    SameHolds(inserted, result);
  }

  ghost predicate SameTimes(a: seq<Interval>, b: seq<Interval>) {
    |a| == |b| && forall i :: 0 <= i < |a| ==> a[i].start == b[i].start && a[i].end == b[i].end
  }

  lemma SameHolds(a: seq<Interval>, b: seq<Interval>)
    requires SameTimes(a, b)
    ensures forall s, e: nat :: Holds(a, s, e) <==> Holds(b, s, e)
  {
    forall s: nat, e: nat
      ensures Holds(a, s, e) <==> Holds(b, s, e)
    {
      if Holds(a, s, e) {
        var i :| 0 <= i < |a| && a[i].start == s && a[i].end == e;
        assert b[i].start == s && b[i].end == e;
      }
      if Holds(b, s, e) {
        var i :| 0 <= i < |b| && b[i].start == s && b[i].end == e;
        assert a[i].start == s && a[i].end == e;
      }
    }
  }

  lemma InsertHolds(intervals: seq<Interval>, index: nat, start: nat, end: nat)
    requires index <= |intervals|
    ensures var result := intervals[..index] + [Interval(start, end, 0)] + intervals[index..];
      forall s, e: nat :: Holds(result, s, e) <==> Holds(intervals, s, e) || (s == start && e == end)
  {
    var result := intervals[..index] + [Interval(start, end, 0)] + intervals[index..];
    forall s: nat, e: nat
      ensures Holds(result, s, e) <==> Holds(intervals, s, e) || (s == start && e == end)
    {
      if Holds(intervals, s, e) {
        var i :| 0 <= i < |intervals| && intervals[i].start == s && intervals[i].end == e;
        assert result[if i < index then i else i + 1] == intervals[i];
      }
      if s == start && e == end {
        assert result[index] == Interval(start, end, 0);
      }
      if Holds(result, s, e) && !(s == start && e == end) {
        var i :| 0 <= i < |result| && result[i].start == s && result[i].end == e;
        assert i != index;
        assert intervals[if i < index then i else i - 1] == result[i];
      }
    }
  }

  lemma InsertIndexed(intervals: seq<Interval>, index: nat, start: nat, end: nat)
    requires index <= |intervals| && Indexed(intervals, |intervals|)
    ensures var result := intervals[..index] + [Interval(start, end, 0)] + intervals[index..];
      Indexed(result, index) && LatestEnd(result, index) == if index > 0 then intervals[index - 1].prefixEnd else 0
  {
    var result := intervals[..index] + [Interval(start, end, 0)] + intervals[index..];
    forall i | 0 <= i < index
      ensures result[i].prefixEnd == LatestEnd(result, i + 1)
    {
      LatestEndSame(intervals, result, i + 1);
    }
  }

  lemma RepairNext(before: seq<Interval>, after: seq<Interval>, k: nat, prefixEnd: nat)
    requires k < |before| && Indexed(before, k) && prefixEnd == Max(LatestEnd(before, k), before[k].end)
    requires after == before[k := before[k].(prefixEnd := prefixEnd)]
    ensures Indexed(after, k + 1) && prefixEnd == LatestEnd(after, k + 1)
  {
    LatestEndSame(before, after, k);
    forall i | 0 <= i < k
      ensures after[i].prefixEnd == LatestEnd(after, i + 1)
    {
      LatestEndSame(before, after, i + 1);
    }
  }

  // ---------------------------------------------------------------------------
  // The history
  // ---------------------------------------------------------------------------

  /** Some call recorded the interval for the element. */
  ghost predicate Logged(log: seq<Entry>, element: nat, start: nat, end: nat) {
    exists k :: 0 <= k < |log| && element in log[k].elements && log[k].start == start && log[k].end == end
  }

  ghost predicate Represents(intervals: seq<Interval>, log: seq<Entry>, element: nat) {
    && ByStart(intervals) && Indexed(intervals, |intervals|)
    && forall s, e: nat :: Holds(intervals, s, e) <==> Logged(log, element, s, e)
  }

  /** A recorded interval that overlaps the query in time and shares an element with it. */
  ghost predicate Conflicts(entry: Entry, elements: seq<nat>, start: nat, end: nat) {
    entry.start < end && start < entry.end && exists x :: x in entry.elements && x in elements
  }

  /** The intervals of an element; none if it was never recorded. */
  function Lookup(elements: map<int, seq<Interval>>, element: nat): seq<Interval> {
    if element in elements then elements[element] else []
  }

  class History {
    var elements: map<int, seq<Interval>>
    ghost var log: seq<Entry>

    ghost predicate Valid()
      reads this
    {
      forall element: nat :: Represents(Lookup(elements, element), log, element)
    }

    constructor ()
      ensures Valid() && log == []
    {
      elements := map[];
      log := [];
      new;
      forall element: nat
        ensures Represents(Lookup(elements, element), log, element)
      {
        NothingLogged(element);
      }
    }

    /** Adds the interval to each of the elements. */
    method Record(touched: seq<nat>, start: nat, end: nat)
      requires Valid()
      modifies this
      ensures Valid() && log == old(log) + [Entry(touched, start, end)]
    {
      hide Represents, Logged;
      ghost var before := log;
      log := before + [Entry([], start, end)];
      forall element: nat
        ensures Represents(Lookup(elements, element), log, element)
      {
        assert Represents(Lookup(elements, element), before, element);
        LoggedNone(Lookup(elements, element), before, element, start, end);
      }
      assert touched[..0] == [];
      for i := 0 to |touched|
        invariant log == before + [Entry(touched[..i], start, end)]
        invariant Valid()
      {
        ghost var was, logged := elements, log;
        var element := touched[i];
        RepresentsMeans(Lookup(elements, element), log, element);
        var intervals := InsertInterval(Lookup(elements, element), start, end);
        elements := elements[element := intervals];
        log := before + [Entry(touched[..i + 1], start, end)];
        assert touched[..i + 1] == touched[..i] + [element];
        forall other: nat
          ensures Represents(Lookup(elements, other), log, other)
        {
          if other == element {
            LoggedMore(before, touched[..i], element, start, end);
            RepresentsMore(Lookup(was, element), intervals, logged, log, element, start, end);
          } else {
            assert Represents(Lookup(was, other), logged, other);
            LoggedOther(before, touched[..i], element, start, end, other);
            RepresentsSame(Lookup(was, other), logged, log, other);
          }
        }
      }
      assert touched[..|touched|] == touched;
    }

    /** The latest end of all conflicting recorded intervals, if there are any. */
    method ConflictEnd(queried: seq<nat>, start: nat, end: nat) returns (r: Option<nat>)
      requires Valid()
      ensures r.None? ==> forall k :: 0 <= k < |log| ==> !Conflicts(log[k], queried, start, end)
      ensures r.Some? ==> exists k :: 0 <= k < |log| && Conflicts(log[k], queried, start, end) && log[k].end == r.value
      ensures r.Some? ==> forall k :: 0 <= k < |log| && Conflicts(log[k], queried, start, end) ==> log[k].end <= r.value
    {
      hide Represents, Conflicts;
      r := None;
      NoConflicts(log, start, end);
      for i := 0 to |queried|
        invariant IsLatest(log, queried[..i], start, end, r)
      {
        var element := queried[i];
        RepresentsMeans(Lookup(elements, element), log, element);
        var intervals := Lookup(elements, element);
        var latest: Option<nat> := None;
        if |intervals| > 0 {
          var count := StartsUpTo(intervals, end - 1);
          if count > 0 && intervals[count - 1].prefixEnd > start {
            latest := Some(intervals[count - 1].prefixEnd);
          }
          LatestOfElement(intervals, log, element, count, start, end, latest);
        } else {
          LatestOfElement(intervals, log, element, 0, start, end, None);
        }
        LatestJoins(log, queried[..i], element, start, end, r, latest);
        assert queried[..i + 1] == queried[..i] + [element];
        r := if r.None? then latest else if latest.None? then r else Some(Max(r.value, latest.value));
      }
      assert queried[..|queried|] == queried;
      LatestMeans(log, queried, start, end, r);
    }
  }

  // ---------------------------------------------------------------------------
  // Recording
  // ---------------------------------------------------------------------------

  lemma NothingLogged(element: nat)
    ensures Represents([], [], element)
  {
  }

  lemma RepresentsMeans(intervals: seq<Interval>, log: seq<Entry>, element: nat)
    requires Represents(intervals, log, element)
    ensures ByStart(intervals) && Indexed(intervals, |intervals|)
    ensures forall s, e: nat :: Holds(intervals, s, e) <==> Logged(log, element, s, e)
  {
  }

  lemma RepresentsSame(intervals: seq<Interval>, log: seq<Entry>, more: seq<Entry>, element: nat)
    requires Represents(intervals, log, element)
    requires forall s, e: nat :: Logged(more, element, s, e) <==> Logged(log, element, s, e)
    ensures Represents(intervals, more, element)
  {
    hide Holds, Logged, Indexed;
  }

  lemma RepresentsMore(intervals: seq<Interval>, longer: seq<Interval>, log: seq<Entry>, more: seq<Entry>,
                       element: nat, start: nat, end: nat)
    requires Represents(intervals, log, element) && ByStart(longer) && Indexed(longer, |longer|)
    requires forall s, e: nat :: Holds(longer, s, e) <==> Holds(intervals, s, e) || (s == start && e == end)
    requires forall s, e: nat :: Logged(more, element, s, e) <==> Logged(log, element, s, e) || (s == start && e == end)
    ensures Represents(longer, more, element)
  {
    hide Holds, Logged, Indexed;
  }

  /** An entry without elements logs nothing. */
  lemma LoggedNone(intervals: seq<Interval>, log: seq<Entry>, element: nat, start: nat, end: nat)
    requires Represents(intervals, log, element)
    ensures Represents(intervals, log + [Entry([], start, end)], element)
  {
    hide Represents, Logged;
    forall s: nat, e: nat
      ensures Logged(log + [Entry([], start, end)], element, s, e) <==> Logged(log, element, s, e)
    {
      LoggedAppends(log, Entry([], start, end), element, s, e);
    }
    RepresentsSame(intervals, log, log + [Entry([], start, end)], element);
  }

  lemma LoggedAppends(log: seq<Entry>, entry: Entry, element: nat, s: nat, e: nat)
    ensures Logged(log + [entry], element, s, e) <==>
            Logged(log, element, s, e) || (element in entry.elements && entry.start == s && entry.end == e)
  {
    var more := log + [entry];
    if Logged(log, element, s, e) {
      var k :| 0 <= k < |log| && element in log[k].elements && log[k].start == s && log[k].end == e;
      assert more[k] == log[k];
    }
    if element in entry.elements && entry.start == s && entry.end == e {
      assert more[|log|] == entry;
    }
    if Logged(more, element, s, e) && !(element in entry.elements && entry.start == s && entry.end == e) {
      var k :| 0 <= k < |more| && element in more[k].elements && more[k].start == s && more[k].end == e;
      assert log[k] == more[k];
    }
  }

  lemma LoggedMore(log: seq<Entry>, elements: seq<nat>, element: nat, start: nat, end: nat)
    ensures forall s, e: nat ::
      Logged(log + [Entry(elements + [element], start, end)], element, s, e) <==>
      Logged(log + [Entry(elements, start, end)], element, s, e) || (s == start && e == end)
  {
    forall s: nat, e: nat
      ensures Logged(log + [Entry(elements + [element], start, end)], element, s, e) <==>
              Logged(log + [Entry(elements, start, end)], element, s, e) || (s == start && e == end)
    {
      LoggedAppends(log, Entry(elements + [element], start, end), element, s, e);
      LoggedAppends(log, Entry(elements, start, end), element, s, e);
    }
  }

  lemma LoggedOther(log: seq<Entry>, elements: seq<nat>, element: nat, start: nat, end: nat, other: nat)
    requires other != element
    ensures forall s, e: nat ::
      Logged(log + [Entry(elements + [element], start, end)], other, s, e) <==>
      Logged(log + [Entry(elements, start, end)], other, s, e)
  {
    forall s: nat, e: nat
      ensures Logged(log + [Entry(elements + [element], start, end)], other, s, e) <==>
              Logged(log + [Entry(elements, start, end)], other, s, e)
    {
      LoggedAppends(log, Entry(elements + [element], start, end), other, s, e);
      LoggedAppends(log, Entry(elements, start, end), other, s, e);
    }
  }

  // ---------------------------------------------------------------------------
  // Querying
  // ---------------------------------------------------------------------------

  /** A logged interval of one of the elements that overlaps the query. */
  ghost predicate Overlaps(log: seq<Entry>, elements: seq<nat>, start: nat, end: nat, s: nat, e: nat) {
    s < end && start < e && exists i :: 0 <= i < |elements| && Logged(log, elements[i], s, e)
  }

  ghost predicate IsLatest(log: seq<Entry>, elements: seq<nat>, start: nat, end: nat, r: Option<nat>) {
    match r
    case None => forall s, e: nat :: !Overlaps(log, elements, start, end, s, e)
    case Some(latest) =>
      && (exists s: nat :: Overlaps(log, elements, start, end, s, latest))
      && (forall s, e: nat :: Overlaps(log, elements, start, end, s, e) ==> e <= latest)
  }

  lemma NoConflicts(log: seq<Entry>, start: nat, end: nat)
    ensures IsLatest(log, [], start, end, None)
  {
  }

  /** The prefix that starts before the query ends decides for one element. */
  lemma LatestOfElement(intervals: seq<Interval>, log: seq<Entry>, element: nat, count: nat, start: nat, end: nat,
                        latest: Option<nat>)
    requires Represents(intervals, log, element) && count <= |intervals|
    requires forall i :: 0 <= i < count ==> intervals[i].start < end
    requires forall i :: count <= i < |intervals| ==> intervals[i].start >= end
    requires latest == if count > 0 && intervals[count - 1].prefixEnd > start then Some(intervals[count - 1].prefixEnd) else None
    ensures IsLatest(log, [element], start, end, latest)
  {
    hide Logged;
    LatestEndBounds(intervals, count);
    forall s: nat, e: nat | Overlaps(log, [element], start, end, s, e)
      ensures latest.Some? && e <= latest.value
    {
      assert Holds(intervals, s, e);
      var i :| 0 <= i < |intervals| && intervals[i].start == s && intervals[i].end == e;
    }
    if latest.Some? {
      var i :| 0 <= i < count && intervals[i].end == LatestEnd(intervals, count);
      assert Holds(intervals, intervals[i].start, intervals[i].end);
      assert [element][0] == element;
      assert Overlaps(log, [element], start, end, intervals[i].start, latest.value);
    }
  }

  lemma OverlapsAppends(log: seq<Entry>, elements: seq<nat>, element: nat, start: nat, end: nat, s: nat, e: nat)
    ensures Overlaps(log, elements + [element], start, end, s, e) <==>
            Overlaps(log, elements, start, end, s, e) || Overlaps(log, [element], start, end, s, e)
  {
    hide Logged;
    var more := elements + [element];
    if Overlaps(log, elements, start, end, s, e) {
      var i :| 0 <= i < |elements| && Logged(log, elements[i], s, e);
      assert more[i] == elements[i];
    }
    if Overlaps(log, [element], start, end, s, e) {
      var i :| 0 <= i < |[element]| && Logged(log, [element][i], s, e);
      assert more[|elements|] == element;
    }
    if Overlaps(log, more, start, end, s, e) {
      var i :| 0 <= i < |more| && Logged(log, more[i], s, e);
      if i < |elements| {
        assert Logged(log, elements[i], s, e);
      } else {
        assert [element][0] == more[i];
      }
    }
  }

  lemma LatestJoins(log: seq<Entry>, elements: seq<nat>, element: nat, start: nat, end: nat, a: Option<nat>, b: Option<nat>)
    requires IsLatest(log, elements, start, end, a) && IsLatest(log, [element], start, end, b)
    ensures IsLatest(log, elements + [element], start, end,
                     if a.None? then b else if b.None? then a else Some(Max(a.value, b.value)))
  {
    hide Overlaps;
    forall s: nat, e: nat
      ensures Overlaps(log, elements + [element], start, end, s, e) <==>
              Overlaps(log, elements, start, end, s, e) || Overlaps(log, [element], start, end, s, e)
    {
      OverlapsAppends(log, elements, element, start, end, s, e);
    }
  }

  /** In terms of the recording calls. */
  lemma LatestMeans(log: seq<Entry>, elements: seq<nat>, start: nat, end: nat, r: Option<nat>)
    requires IsLatest(log, elements, start, end, r)
    ensures r.None? ==> forall k :: 0 <= k < |log| ==> !Conflicts(log[k], elements, start, end)
    ensures r.Some? ==> exists k :: 0 <= k < |log| && Conflicts(log[k], elements, start, end) && log[k].end == r.value
    ensures r.Some? ==> forall k :: 0 <= k < |log| && Conflicts(log[k], elements, start, end) ==> log[k].end <= r.value
  {
    forall k | 0 <= k < |log| && Conflicts(log[k], elements, start, end)
      ensures Overlaps(log, elements, start, end, log[k].start, log[k].end)
    {
      var x :| x in log[k].elements && x in elements;
      var i :| 0 <= i < |elements| && elements[i] == x;
      assert Logged(log, elements[i], log[k].start, log[k].end);
    }
    if r.Some? {
      var s: nat :| Overlaps(log, elements, start, end, s, r.value);
      var i :| 0 <= i < |elements| && Logged(log, elements[i], s, r.value);
      var k :| 0 <= k < |log| && elements[i] in log[k].elements && log[k].start == s && log[k].end == r.value;
      assert elements[i] in elements;
      assert Conflicts(log[k], elements, start, end);
    }
  }
}
