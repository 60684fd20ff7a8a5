/** The overview of a transfer stream (crates/ipu-cli/src/profile_report.rs).

    A stream's time is cut into 32 bins; a sweep over its sorted events adds the time between
    two events to the weight of the activity code then in force, bin by bin, in units of a
    thirty-second of a cycle. The module proves that each weight is the number of instants of
    its bin in which the running activities have that code, that the weights of every bin make
    up exactly its length, and that each bin shows a code of greatest weight. */
module StreamSummary {
  import opened Permutations

  const BINS: nat := 32

  const CODES: nat := 32

  datatype Activity = Activity(kind: nat, start: nat, stop: nat, fanout: nat, paired: bool)

  datatype Event = Event(time: nat, kind: nat, multicast: bool, paired: bool, delta: int)

  function Min(a: nat, b: nat): nat {
    if a < b then a else b
  }

  function Max(a: nat, b: nat): nat {
    if a < b then b else a
  }

  // ---------------------------------------------------------------------------
  // Events and codes
  // ---------------------------------------------------------------------------

  function Multicast(a: Activity): bool {
    a.fanout > if a.paired then 2 else 1
  }

  /** The start and stop events of the activities, in order. */
  function Events(activities: seq<Activity>): seq<Event> {
    if activities == [] then []
    else
      var a := activities[|activities| - 1];
      Events(activities[..|activities| - 1])
      + [Event(a.start, a.kind, Multicast(a), a.paired, 1), Event(a.stop, a.kind, Multicast(a), a.paired, -1)]
  }

  /** The latest stop, which is the stream's end. */
  function End(activities: seq<Activity>): nat {
    if activities == [] then 0
    else Max(End(activities[..|activities| - 1]), activities[|activities| - 1].stop)
  }

  /** Running activities by kind, multicast and paired. */
  datatype Counts = Counts(send: int, receive: int, busy: int, multicast: int, paired: int) {
    function Plus(c: Counts): Counts {
      Counts(send + c.send, receive + c.receive, busy + c.busy, multicast + c.multicast, paired + c.paired)
    }

    function Code(): (r: nat)
      ensures r < CODES
    {
      (if send > 0 && receive > 0 then 3 else if send > 0 then 1 else if receive > 0 then 2 else if busy > 0 then 4 else 0)
      + (if multicast > 0 then 8 else 0) + (if paired > 0 then 16 else 0)
    }
  }

  const NONE := Counts(0, 0, 0, 0, 0)

  /** A code tells which directions run, whether tiles only wait, and which textures there are. */
  lemma CodeTells(c: Counts)
    ensures c.send > 0 <==> c.Code() % 8 == 1 || c.Code() % 8 == 3
    ensures c.receive > 0 <==> c.Code() % 8 == 2 || c.Code() % 8 == 3
    ensures c.Code() % 8 == 4 <==> c.busy > 0 && c.send <= 0 && c.receive <= 0
    ensures c.multicast > 0 <==> c.Code() / 8 % 2 == 1
    ensures c.paired > 0 <==> c.Code() / 16 == 1
  {
  }

  /** What an event adds to the counts. */
  function Change(e: Event): Counts {
    Counts(if e.kind == 0 then e.delta else 0, if e.kind == 1 then e.delta else 0, if e.kind == 2 then e.delta else 0,
           if e.multicast then e.delta else 0, if e.paired then e.delta else 0)
  }

  // ---------------------------------------------------------------------------
  // What runs in a cycle
  // ---------------------------------------------------------------------------

  ghost predicate WellOrdered(activities: seq<Activity>) {
    forall i :: 0 <= i < |activities| ==> activities[i].start <= activities[i].stop
  }

  /** The activities that cover a cycle. */
  ghost function Running(activities: seq<Activity>, t: nat): Counts {
    if activities == [] then NONE
    else
      var a := activities[|activities| - 1];
      Running(activities[..|activities| - 1], t).Plus(
        if a.start <= t < a.stop then Change(Event(a.start, a.kind, Multicast(a), a.paired, 1)) else NONE)
  }

  /** An activity of the kind runs in the cycle; 0 sends, 1 receives, 2 waits for its partner. */
  ghost predicate SomeRuns(activities: seq<Activity>, kind: nat, t: nat) {
    exists a :: a in activities && a.kind == kind && a.start <= t < a.stop
  }

  /** One that reaches more than one tile runs, or more than one pair of tiles. */
  ghost predicate SomeMulticast(activities: seq<Activity>, t: nat) {
    exists a :: a in activities && a.start <= t < a.stop && a.fanout > if a.paired then 2 else 1
  }

  ghost predicate SomePaired(activities: seq<Activity>, t: nat) {
    exists a :: a in activities && a.start <= t < a.stop && a.paired
  }

  /** What the counts of a cycle are made of. */
  ghost predicate CountsShow(activities: seq<Activity>, t: nat, c: Counts) {
    && c.send >= 0 && c.receive >= 0 && c.busy >= 0 && c.multicast >= 0 && c.paired >= 0
    && (c.send > 0 <==> SomeRuns(activities, 0, t)) && (c.receive > 0 <==> SomeRuns(activities, 1, t))
    && (c.busy > 0 <==> SomeRuns(activities, 2, t))
    && (c.multicast > 0 <==> SomeMulticast(activities, t)) && (c.paired > 0 <==> SomePaired(activities, t))
  }

  lemma OneMore(rest: seq<Activity>, a: Activity, t: nat)
    ensures forall kind :: SomeRuns(rest + [a], kind, t) <==> SomeRuns(rest, kind, t) || (a.kind == kind && a.start <= t < a.stop)
    ensures SomeMulticast(rest + [a], t) <==> SomeMulticast(rest, t) || (a.start <= t < a.stop && a.fanout > if a.paired then 2 else 1)
    ensures SomePaired(rest + [a], t) <==> SomePaired(rest, t) || (a.start <= t < a.stop && a.paired)
  {
    assert forall b :: b in rest + [a] <==> b in rest || b == a;
  }

  lemma {:induction false} RunningShows(activities: seq<Activity>, t: nat)
    ensures CountsShow(activities, t, Running(activities, t))
  {
    hide CountsShow, Counts.Plus, Change;
    if activities == [] {
      NothingShown(t);
    } else {
      var a := activities[|activities| - 1];
      var rest := activities[..|activities| - 1];
      RunningShows(rest, t);
      PlusShows(rest, a, t, Running(rest, t));
      assert activities == rest + [a];
    }
  }

  lemma NothingShown(t: nat)
    ensures CountsShow([], t, NONE)
  {
  }

  lemma PlusShows(rest: seq<Activity>, a: Activity, t: nat, c: Counts)
    requires CountsShow(rest, t, c)
    ensures CountsShow(rest + [a], t,
              c.Plus(if a.start <= t < a.stop then Change(Event(a.start, a.kind, Multicast(a), a.paired, 1)) else NONE))
  {
    hide SomeRuns, SomeMulticast, SomePaired;
    OneMore(rest, a, t);
  }

  /** The code of a cycle tells exactly which kinds of activities run in it, and whether one is
      multicast or paired. */
  lemma CodeShows(activities: seq<Activity>, t: nat)
    ensures var code := Running(activities, t).Code();
      && code < 32
      && (code % 8 == 1 || code % 8 == 3 <==> SomeRuns(activities, 0, t))
      && (code % 8 == 2 || code % 8 == 3 <==> SomeRuns(activities, 1, t))
      && (code % 8 == 4 <==> SomeRuns(activities, 2, t) && !SomeRuns(activities, 0, t) && !SomeRuns(activities, 1, t))
      && (code / 8 % 2 == 1 <==> SomeMulticast(activities, t))
      && (code / 16 == 1 <==> SomePaired(activities, t))
  {
    hide Running, SomeRuns, SomeMulticast, SomePaired, Counts.Code;
    RunningShows(activities, t);
    CodeTells(Running(activities, t));
  }

  /** The counts after all events up to and including time `t`. */
  ghost function Depth(events: seq<Event>, t: nat): Counts {
    if events == [] then NONE
    else Depth(events[..|events| - 1], t).Plus(if events[|events| - 1].time <= t then Change(events[|events| - 1]) else NONE)
  }

  /** The counts after the first `n` events. */
  ghost function CountsAfter(events: seq<Event>, n: nat): Counts
    requires n <= |events|
  {
    if n == 0 then NONE else CountsAfter(events, n - 1).Plus(Change(events[n - 1]))
  }

  lemma DepthOfPair(events: seq<Event>, first: Event, second: Event, t: nat)
    ensures Depth(events + [first, second], t) ==
            Depth(events, t).Plus(if first.time <= t then Change(first) else NONE)
                            .Plus(if second.time <= t then Change(second) else NONE)
  {
    var all := events + [first, second];
    assert all[..|all| - 1] == events + [first];
    assert (events + [first])[..|events|] == events;
  }

  /** Start and stop events of activities that do not stop before they start count those that run. */
  lemma {:induction false} DepthIsRunning(activities: seq<Activity>, t: nat)
    requires WellOrdered(activities)
    ensures Depth(Events(activities), t) == Running(activities, t)
  {
    hide Change, Counts.Plus;
    if activities != [] {
      var a := activities[|activities| - 1];
      var rest := activities[..|activities| - 1];
      DepthIsRunning(rest, t);
      assert a.start <= a.stop;
      DepthOfPair(Events(rest), Event(a.start, a.kind, Multicast(a), a.paired, 1),
                  Event(a.stop, a.kind, Multicast(a), a.paired, -1), t);
      PairCancels(Depth(Events(rest), t), a, t);
    }
  }

  /** After its stop an activity counts for nothing. */
  lemma PairCancels(c: Counts, a: Activity, t: nat)
    requires a.start <= a.stop
    ensures c.Plus(if a.start <= t then Change(Event(a.start, a.kind, Multicast(a), a.paired, 1)) else NONE)
             .Plus(if a.stop <= t then Change(Event(a.stop, a.kind, Multicast(a), a.paired, -1)) else NONE)
            == c.Plus(if a.start <= t < a.stop then Change(Event(a.start, a.kind, Multicast(a), a.paired, 1)) else NONE)
  {
  }

  lemma PlusCommutes(a: Counts, b: Counts, c: Counts)
    ensures a.Plus(b).Plus(c) == a.Plus(c).Plus(b)
  {
  }

  lemma {:induction false} DepthIsFold(events: seq<Event>, t: nat)
    ensures Depth(events, t) == Fold(events, NONE, (d: Counts, e: Event) => d.Plus(if e.time <= t then Change(e) else NONE))
  {
    hide Change, Counts.Plus;
    if events != [] {
      DepthIsFold(events[..|events| - 1], t);
    }
  }

  lemma DepthPermutes(a: seq<Event>, b: seq<Event>, t: nat)
    requires multiset(a) == multiset(b)
    ensures Depth(a, t) == Depth(b, t)
  {
    hide Change, Counts.Plus;
    DepthIsFold(a, t);
    DepthIsFold(b, t);
    var add := (d: Counts, e: Event) => d.Plus(if e.time <= t then Change(e) else NONE);
    forall d, x, y
      ensures add(add(d, x), y) == add(add(d, y), x)
    {
      PlusCommutes(d, if x.time <= t then Change(x) else NONE, if y.time <= t then Change(y) else NONE);
    }
    FoldPermutes(a, b, NONE, add);
  }

  lemma {:induction false} DepthOfPrefix(events: seq<Event>, n: nat, t: nat)
    requires n <= |events|
    requires forall i :: 0 <= i < n ==> events[i].time <= t
    requires forall i :: n <= i < |events| ==> events[i].time > t
    ensures Depth(events, t) == CountsAfter(events, n)
  {
    hide Change;
    if events != [] {
      var rest := events[..|events| - 1];
      if n == |events| {
        DepthOfPrefix(rest, n - 1, t);
        CountsOfPrefix(events, rest, n - 1);
      } else {
        DepthOfPrefix(rest, n, t);
        CountsOfPrefix(events, rest, n);
      }
    }
  }

  lemma {:induction false} CountsOfPrefix(events: seq<Event>, rest: seq<Event>, n: nat)
    requires n <= |rest| && rest <= events
    ensures CountsAfter(events, n) == CountsAfter(rest, n)
  {
    if n > 0 {
      CountsOfPrefix(events, rest, n - 1);
    }
  }

  /** The end is the time of some event. */
  lemma {:induction false} EndIsEvent(activities: seq<Activity>) returns (e: Event)
    requires End(activities) > 0
    ensures e in Events(activities) && e.time == End(activities)
  {
    var a := activities[|activities| - 1];
    var rest := activities[..|activities| - 1];
    if a.stop == End(activities) {
      e := Event(a.stop, a.kind, Multicast(a), a.paired, -1);
    } else {
      e := EndIsEvent(rest);
    }
  }

  /** No activity stops after the end, and unless it is 0 one stops there. */
  lemma {:induction false} EndIsLatest(activities: seq<Activity>)
    ensures forall a :: a in activities ==> a.stop <= End(activities)
    ensures End(activities) == 0 || exists a :: a in activities && a.stop == End(activities)
  {
    if activities != [] {
      var last := |activities| - 1;
      EndIsLatest(activities[..last]);
      assert activities == activities[..last] + [activities[last]];
    }
  }

  // ---------------------------------------------------------------------------
  // Bins
  // ---------------------------------------------------------------------------

  /** The common length of two intervals. */
  function Overlap(lo: nat, hi: nat, start: nat, stop: nat): nat {
    if Max(lo, start) < Min(hi, stop) then Min(hi, stop) - Max(lo, start) else 0
  }

  /** Adjoining intervals overlap a third in adjoining parts. */
  lemma OverlapAdds(lo: nat, hi: nat, start: nat, middle: nat, stop: nat)
    requires start <= middle <= stop
    ensures Overlap(lo, hi, start, middle) + Overlap(lo, hi, middle, stop) == Overlap(lo, hi, start, stop)
  {
  }

  /** The instants from `lo` to `hi`, in thirty-seconds of a cycle, whose cycle has the code. */
  ghost function Instants(activities: seq<Activity>, code: nat, lo: nat, hi: nat): nat
    decreases hi
  {
    if hi <= lo then 0
    else Instants(activities, code, lo, hi - 1) + if Running(activities, (hi - 1) / 32).Code() == code then 1 else 0
  }

  /** A stretch throughout which one code is in force. */
  ghost predicate InForce(activities: seq<Activity>, code: nat, start: nat, stop: nat) {
    forall u: nat {:trigger Running(activities, u / 32)} :: start <= u < stop ==> Running(activities, u / 32).Code() == code
  }

  lemma {:induction false} InstantsStretch(activities: seq<Activity>, running: nat, code: nat, lo: nat, from: nat, hi: nat)
    requires lo <= from <= hi && InForce(activities, running, from, hi)
    ensures Instants(activities, code, lo, hi) == Instants(activities, code, lo, from) + if code == running then hi - from else 0
    decreases hi
  {
    hide Running, Counts.Code;
    if from < hi {
      InstantsStretch(activities, running, code, lo, from, hi - 1);
      assert Running(activities, (hi - 1) / 32).Code() == running;
    }
  }

  /** The part of a bin up to an instant. */
  function Clip(lo: nat, hi: nat, x: nat): nat {
    if x < lo then lo else if x < hi then x else if lo < hi then hi else lo
  }

  /** One bin's weight of a code is the number of its instants so far with that code. */
  lemma InstantsAdd(activities: seq<Activity>, running: nat, code: nat, lo: nat, hi: nat, start: nat, stop: nat)
    requires start <= stop && InForce(activities, running, start, stop)
    ensures Instants(activities, code, lo, Clip(lo, hi, stop)) ==
            Instants(activities, code, lo, Clip(lo, hi, start)) + if code == running then Overlap(lo, hi, start, stop) else 0
  {
    hide Running, Instants;
    var from, to_ := Clip(lo, hi, start), Clip(lo, hi, stop);
    assert InForce(activities, running, from, to_);
    InstantsStretch(activities, running, code, lo, from, to_);
  }

  /** The bounds of a bin, in thirty-seconds of a cycle. */
  function BinStart(bin: nat, end: nat): nat {
    bin * end
  }

  lemma BinLength(bin: nat, end: nat)
    ensures BinStart(bin + 1, end) == BinStart(bin, end) + end
    ensures bin < BINS ==> BinStart(bin + 1, end) <= BINS * end
  {
    if bin < BINS {
      assert (BINS - 1 - bin) * end >= 0;
      assert BINS * end == (bin + 1) * end + (BINS - 1 - bin) * end;
    }
  }

  ghost function Total(weights: seq<nat>, n: nat): nat
    requires n <= |weights|
  {
    if n == 0 then 0 else Total(weights, n - 1) + weights[n - 1]
  }

  lemma {:induction false} TotalUpdates(weights: seq<nat>, code: nat, weight: nat, n: nat)
    requires code < |weights| && n <= |weights|
    ensures Total(weights[code := weights[code] + weight], n) == Total(weights, n) + if code < n then weight else 0
  {
    if n > 0 {
      TotalUpdates(weights, code, weight, n - 1);
    }
  }

  lemma {:induction false} TotalOfZeros(weights: seq<nat>, n: nat)
    requires n <= |weights| && forall i :: 0 <= i < |weights| ==> weights[i] == 0
    ensures Total(weights, n) == 0
  {
    if n > 0 {
      TotalOfZeros(weights, n - 1);
    }
  }

  /** The weights of each of the first `n` bins account for the time up to `stop`, those of the
      others for the time up to `start`. */
  ghost predicate Accounted(bins: seq<seq<nat>>, end: nat, n: nat, start: nat, stop: nat) {
    && |bins| == BINS
    && forall bin :: 0 <= bin < BINS ==>
         |bins[bin]| == CODES
         && Total(bins[bin], CODES) == Overlap(BinStart(bin, end), BinStart(bin + 1, end), 0, if bin < n then stop else start)
  }

  /** The weights of the first `n` bins count the instants up to `stop`, those of the others
      the instants up to `start`. */
  ghost predicate Counted(activities: seq<Activity>, bins: seq<seq<nat>>, end: nat, n: nat, start: nat, stop: nat) {
    && |bins| == BINS
    && forall bin :: 0 <= bin < BINS ==> CountedBin(activities, bins[bin], end, bin, if bin < n then stop else start)
  }

  ghost predicate CountedBin(activities: seq<Activity>, weights: seq<nat>, end: nat, bin: nat, upTo: nat) {
    var lo, hi := BinStart(bin, end), BinStart(bin + 1, end);
    |weights| == CODES && forall code :: 0 <= code < CODES ==> weights[code] == Instants(activities, code, lo, Clip(lo, hi, upTo))
  }

  lemma CountsBin(activities: seq<Activity>, weights: seq<nat>, end: nat, bin: nat, code: nat, start: nat, stop: nat)
    requires CountedBin(activities, weights, end, bin, start) && code < CODES
    requires start <= stop && InForce(activities, code, start, stop)
    ensures var more := weights[code := weights[code] + Overlap(BinStart(bin, end), BinStart(bin + 1, end), start, stop)];
      CountedBin(activities, more, end, bin, stop)
  {
    hide Overlap, BinStart, Clip, Instants, InForce;
    var more := weights[code := weights[code] + Overlap(BinStart(bin, end), BinStart(bin + 1, end), start, stop)];
    forall c: nat | c < CODES
      ensures more[c] == Instants(activities, c, BinStart(bin, end), Clip(BinStart(bin, end), BinStart(bin + 1, end), stop))
    {
      InstantsAdd(activities, code, c, BinStart(bin, end), BinStart(bin + 1, end), start, stop);
    }
  }

  /** Adds the time between two events to one code in every bin it reaches. */
  method AddStretch(bins: seq<seq<nat>>, end: nat, code: nat, start: nat, stop: nat, ghost activities: seq<Activity>)
    returns (result: seq<seq<nat>>)
    requires code < CODES && start <= stop && Accounted(bins, end, 0, start, start)
    requires WellOrdered(activities) ==> Counted(activities, bins, end, 0, start, start) && InForce(activities, code, start, stop)
    ensures Accounted(result, end, 0, stop, stop)
    ensures WellOrdered(activities) ==> Counted(activities, result, end, 0, stop, stop)
  {
    hide Overlap, BinStart, Total, WellOrdered, CountedBin, InForce;
    result := bins;
    for bin := 0 to BINS
      invariant Accounted(result, end, bin, start, stop)
      invariant WellOrdered(activities) ==> Counted(activities, result, end, bin, start, stop)
    {
      var weight := Overlap(BinStart(bin, end), BinStart(bin + 1, end), start, stop);
      OverlapAdds(BinStart(bin, end), BinStart(bin + 1, end), 0, start, stop);
      TotalUpdates(result[bin], code, weight, CODES);
      if WellOrdered(activities) {
        CountsBin(activities, result[bin], end, bin, code, start, stop);
      }
      result := result[bin := result[bin][code := result[bin][code] + weight]];
    }
  }

  /** The last of the codes with the greatest weight. */
  method Dominant(weights: seq<nat>) returns (code: nat)
    requires |weights| == CODES
    ensures code < CODES
    ensures Greatest(weights, code)
  {
    code := 0;
    for c := 1 to CODES
      invariant code < c
      invariant forall d :: 0 <= d < c ==> weights[d] <= weights[code] && (weights[d] == weights[code] ==> d <= code)
    {
      if weights[c] >= weights[code] {
        code := c;
      }
    }
  }

  // ---------------------------------------------------------------------------
  // The sweep
  // ---------------------------------------------------------------------------

  /** What sorting the events by time may give. */
  ghost predicate SortsTo(activities: seq<Activity>, events: seq<Event>) {
    && multiset(events) == multiset(Events(activities))
    && forall i, j :: 0 <= i < j < |events| ==> events[i].time <= events[j].time
  }

  lemma LastIsLate(activities: seq<Activity>, events: seq<Event>)
    requires SortsTo(activities, events) && End(activities) > 0
    ensures events != [] && End(activities) <= events[|events| - 1].time
  {
    var e := EndIsEvent(activities);
    assert e in multiset(Events(activities));
    assert e in multiset(events);
    var i :| 0 <= i < |events| && events[i] == e;
    assert events[i].time <= events[|events| - 1].time;
  }

  /** Between two events in the sorted order the counts tell the code of every instant. */
  lemma CodeBetween(activities: seq<Activity>, events: seq<Event>, n: nat, start: nat)
    requires SortsTo(activities, events) && WellOrdered(activities) && n < |events|
    requires start == if n == 0 then 0 else events[n - 1].time
    ensures InForce(activities, CountsAfter(events, n).Code(), start * 32, events[n].time * 32)
  {
    hide Running, CountsAfter, Counts.Code, Depth, WellOrdered;
    forall u: nat {:trigger Running(activities, u / 32)} | start * 32 <= u < events[n].time * 32
      ensures Running(activities, u / 32).Code() == CountsAfter(events, n).Code()
    {
      DepthOfPrefix(events, n, u / 32);
      DepthPermutes(events, Events(activities), u / 32);
      DepthIsRunning(activities, u / 32);
    }
  }

  /** A bin shows a code of greatest weight, the last of several. */
  ghost predicate Shows(weights: seq<nat>, c: char) {
    |weights| == 32 && exists code: nat :: code < 32 && c as int == '@' as int + code && Greatest(weights, code)
  }

  ghost predicate Greatest(weights: seq<nat>, code: nat)
    requires code < CODES == |weights|
  {
    forall d :: 0 <= d < CODES ==> weights[d] <= weights[code] && (weights[d] == weights[code] ==> d <= code)
  }

  /** What the summary says of a stream that ends at `end`. */
  ghost predicate Summarizes(activities: seq<Activity>, end: nat, codes: string, bins: seq<seq<nat>>) {
    && |codes| == |bins| == 32
    && (forall bin :: 0 <= bin < 32 ==> |bins[bin]| == 32 && Total(bins[bin], 32) == end && Shows(bins[bin], codes[bin]))
    && (WellOrdered(activities) ==> forall bin, code :: 0 <= bin < 32 && 0 <= code < 32 ==>
          bins[bin][code] == Instants(activities, code, BinStart(bin, end), BinStart(bin + 1, end)))
  }

  /** Every thirty-second of a cycle is counted once, under the code of what runs then; an
      empty stream has no summary. */
  method Summarize(activities: seq<Activity>, events: seq<Event>) returns (end: nat, codes: string, ghost bins: seq<seq<nat>>)
    requires SortsTo(activities, events)
    ensures end == End(activities)
    ensures end == 0 ==> codes == []
    ensures end > 0 ==> Summarizes(activities, end, codes, bins)
  {
    hide Accounted, Counted, Total, Shows, Overlap, BinStart, WellOrdered;
    hide CountsAfter, InForce, Instants, Counts.Code, Counts.Plus, Change;
    end := 0;
    for i := 0 to |activities|
      invariant end == End(activities[..i])
    {
      assert activities[..i + 1][..i] == activities[..i];
      end := Max(end, activities[i].stop);
    }
    assert activities[..|activities|] == activities;
    codes, bins := [], [];
    if end == 0 {
      return;
    }
    var weights: seq<seq<nat>> := seq(BINS, _ => seq(CODES, _ => 0));
    NothingAccounted(activities, weights, end);
    var counts := NONE;
    NoCounts(events);
    var cursor := 0;
    for i := 0 to |events|
      invariant Accounted(weights, end, 0, cursor * 32, cursor * 32)
      invariant WellOrdered(activities) ==> Counted(activities, weights, end, 0, cursor * 32, cursor * 32)
      invariant cursor == if i == 0 then 0 else events[i - 1].time
      invariant counts == CountsAfter(events, i)
    {
      if WellOrdered(activities) {
        CodeBetween(activities, events, i, cursor);
      }
      weights := AddStretch(weights, end, counts.Code(), cursor * 32, events[i].time * 32, activities);
      NextCounts(events, i);
      counts := counts.Plus(Change(events[i]));
      cursor := events[i].time;
    }
    LastIsLate(activities, events);
    AllAccounted(activities, weights, end, cursor * 32);
    for bin := 0 to BINS
      invariant |codes| == bin && forall b :: 0 <= b < bin ==> Shows(weights[b], codes[b])
    {
      var code := Dominant(weights[bin]);
      codes := codes + [('@' as int + code) as char];
      ShowsCode(weights[bin], code);
    }
    bins := weights;
  }

  lemma NoCounts(events: seq<Event>)
    ensures CountsAfter(events, 0) == NONE
  {
  }

  lemma NextCounts(events: seq<Event>, n: nat)
    requires n < |events|
    ensures CountsAfter(events, n + 1) == CountsAfter(events, n).Plus(Change(events[n]))
  {
  }

  lemma ShowsCode(weights: seq<nat>, code: nat)
    requires |weights| == CODES && code < CODES && Greatest(weights, code)
    ensures Shows(weights, ('@' as int + code) as char)
  {
    assert (('@' as int + code) as char) as int == '@' as int + code;
  }

  lemma NothingAccounted(activities: seq<Activity>, bins: seq<seq<nat>>, end: nat)
    requires |bins| == BINS
    requires forall bin :: 0 <= bin < BINS ==> |bins[bin]| == CODES && forall c :: 0 <= c < CODES ==> bins[bin][c] == 0
    ensures Accounted(bins, end, 0, 0, 0) && Counted(activities, bins, end, 0, 0, 0)
  {
    hide Running;
    forall bin | 0 <= bin < BINS
      ensures Total(bins[bin], CODES) == 0
    {
      TotalOfZeros(bins[bin], CODES);
    }
  }

  /** When the sweep has passed the end, every bin is full. */
  lemma AllAccounted(activities: seq<Activity>, bins: seq<seq<nat>>, end: nat, stop: nat)
    requires Accounted(bins, end, 0, stop, stop) && BINS * end <= stop
    ensures |bins| == BINS && forall bin :: 0 <= bin < BINS ==> |bins[bin]| == CODES && Total(bins[bin], CODES) == end
    ensures Counted(activities, bins, end, 0, stop, stop) ==> forall bin, code :: 0 <= bin < BINS && 0 <= code < CODES ==>
      bins[bin][code] == Instants(activities, code, BinStart(bin, end), BinStart(bin + 1, end))
  {
    hide Instants, BinStart;
    forall bin: nat | bin < BINS
      ensures |bins[bin]| == CODES && Total(bins[bin], CODES) == end
      ensures CountedBin(activities, bins[bin], end, bin, stop) ==> forall code :: 0 <= code < CODES ==>
        bins[bin][code] == Instants(activities, code, BinStart(bin, end), BinStart(bin + 1, end))
    {
      BinLength(bin, end);
    }
  }
}
