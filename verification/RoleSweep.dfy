/** Cycles that a tile spends in each exchange role (crates/ipu-profile/src/lib.rs).

    The profiler turns activities into start and end events clipped to the phase, sorts them
    by time and sweeps over them with one depth counter per kind. The module proves the sweep
    equal to counting, cycle by cycle, which activities cover the cycle. */
module RoleSweep {
  import opened Permutations

  datatype Kind = Send | Receive | PartnerBusy

  datatype Activity = Activity(kind: Kind, start: nat, end: nat)

  datatype Event = Event(time: nat, send: int, receive: int, partnerBusy: int) {
    function Delta(kind: Kind): int {
      match kind
      case Send => send
      case Receive => receive
      case PartnerBusy => partnerBusy
    }
  }

  // ---------------------------------------------------------------------------
  // Cycle by cycle
  // ---------------------------------------------------------------------------

  ghost predicate Covers(a: Activity, kind: Kind, t: nat) {
    a.kind == kind && a.start <= t < a.end
  }

  ghost predicate Covered(activities: seq<Activity>, kind: Kind, t: nat) {
    exists i :: 0 <= i < |activities| && Covers(activities[i], kind, t)
  }

  datatype Role = Sending | Receiving | Simultaneous | Waiting | Idle

  ghost predicate InRole(activities: seq<Activity>, role: Role, t: nat) {
    match role
    case Sending => Covered(activities, Send, t)
    case Receiving => Covered(activities, Receive, t)
    case Simultaneous => Covered(activities, Send, t) && Covered(activities, Receive, t)
    case Waiting => Covered(activities, PartnerBusy, t)
    case Idle => !Covered(activities, Send, t) && !Covered(activities, Receive, t) && !Covered(activities, PartnerBusy, t)
  }

  /** The number of cycles before `n` in a role. */
  ghost function Cycles(activities: seq<Activity>, role: Role, n: nat): nat {
    if n == 0 then 0 else Cycles(activities, role, n - 1) + if InRole(activities, role, n - 1) then 1 else 0
  }

  /** The number of cycles before `n` that any activity covers. */
  ghost function CoveredCycles(activities: seq<Activity>, n: nat): nat {
    if n == 0 then 0
    else CoveredCycles(activities, n - 1)
         + if exists kind {:trigger Covered(activities, kind, n - 1)} :: Covered(activities, kind, n - 1) then 1 else 0
  }

  /** Idle and covered cycles make up the phase; so do the roles, counting once the cycles
      that two roles share. */
  lemma {:induction false} RolesPartition(activities: seq<Activity>, n: nat)
    ensures Cycles(activities, Idle, n) + CoveredCycles(activities, n) == n
    ensures Cycles(activities, Simultaneous, n) <= Cycles(activities, Sending, n)
    ensures Cycles(activities, Simultaneous, n) <= Cycles(activities, Receiving, n)
    ensures CoveredCycles(activities, n) <= Cycles(activities, Sending, n) + Cycles(activities, Receiving, n)
                                            - Cycles(activities, Simultaneous, n) + Cycles(activities, Waiting, n)
  {
    if n > 0 {
      RolesPartition(activities, n - 1);
      var t := n - 1;
      if kind :| Covered(activities, kind, t) {
        assert kind == Send || kind == Receive || kind == PartnerBusy;
      }
      assert Covered(activities, Send, t) || Covered(activities, Receive, t) || Covered(activities, PartnerBusy, t)
             <==> exists kind {:trigger Covered(activities, kind, t)} :: Covered(activities, kind, t);
    }
  }

  /** An activity of the kind covers the cycle. */
  ghost predicate Runs(activities: seq<Activity>, kind: Kind, t: nat) {
    exists a :: a in activities && a.kind == kind && a.start <= t < a.end
  }

  lemma RunsIffCovered(activities: seq<Activity>, kind: Kind, t: nat)
    ensures Covered(activities, kind, t) <==> Runs(activities, kind, t)
  {
    if a :| a in activities && a.kind == kind && a.start <= t < a.end {
      var i :| 0 <= i < |activities| && activities[i] == a;
      assert Covers(activities[i], kind, t);
    }
  }

  /** The cycles before `n` in which a kind runs. */
  ghost function During(activities: seq<Activity>, kind: Kind, n: nat): set<int> {
    set t | 0 <= t < n && Runs(activities, kind, t)
  }

  ghost function RoleSet(activities: seq<Activity>, role: Role, n: nat): set<int> {
    set t | 0 <= t < n && InRole(activities, role, t)
  }

  lemma {:induction false} CyclesAreCounted(activities: seq<Activity>, role: Role, n: nat)
    ensures Cycles(activities, role, n) == |RoleSet(activities, role, n)|
  {
    hide InRole;
    if n == 0 {
      assert RoleSet(activities, role, 0) == {};
    } else {
      CyclesAreCounted(activities, role, n - 1);
      RoleSetNext(activities, role, n - 1);
    }
  }

  lemma RoleSetNext(activities: seq<Activity>, role: Role, n: nat)
    ensures n !in RoleSet(activities, role, n)
    ensures RoleSet(activities, role, n + 1) == RoleSet(activities, role, n) + if InRole(activities, role, n) then {n} else {}
  {
    hide InRole;
  }

  /** The cycles of the roles as sizes of sets of cycles. */
  lemma RolesAreSets(activities: seq<Activity>, n: nat)
    ensures var send, receive, busy := During(activities, Send, n), During(activities, Receive, n), During(activities, PartnerBusy, n);
      && Cycles(activities, Sending, n) == |send| && Cycles(activities, Receiving, n) == |receive|
      && Cycles(activities, Simultaneous, n) == |send * receive| && Cycles(activities, Waiting, n) == |busy|
      && Cycles(activities, Idle, n) == n - |send + receive + busy|
  {
    hide Runs, Covered;
    forall kind, t: nat
      ensures Covered(activities, kind, t) <==> Runs(activities, kind, t)
    {
      RunsIffCovered(activities, kind, t);
    }
    var send, receive, busy := During(activities, Send, n), During(activities, Receive, n), During(activities, PartnerBusy, n);
    CyclesAreCounted(activities, Sending, n);
    assert RoleSet(activities, Sending, n) == send;
    CyclesAreCounted(activities, Receiving, n);
    assert RoleSet(activities, Receiving, n) == receive;
    CyclesAreCounted(activities, Simultaneous, n);
    assert RoleSet(activities, Simultaneous, n) == send * receive;
    CyclesAreCounted(activities, Waiting, n);
    assert RoleSet(activities, Waiting, n) == busy;
    CyclesAreCounted(activities, Idle, n);
    var idle := RoleSet(activities, Idle, n);
    var busyAtAll := send + receive + busy;
    forall t
      ensures t in idle <==> 0 <= t < n && t !in busyAtAll
    {
    }
    Complement(idle, busyAtAll, n);
  }

  lemma Complement(a: set<int>, b: set<int>, n: nat)
    requires forall t :: t in a <==> 0 <= t < n && t !in b
    requires forall t :: t in b ==> 0 <= t < n
    ensures |a| == n - |b|
  {
    assert a * b == {};
    assert a + b == AllBefore(n);
  }

  ghost function AllBefore(n: nat): (r: set<int>)
    ensures |r| == n && forall t :: t in r <==> 0 <= t < n
  {
    if n == 0 then {} else AllBefore(n - 1) + {n - 1}
  }

  /** A stretch of cycles in which a role does not change. */
  lemma {:induction false} Stretch(activities: seq<Activity>, role: Role, from: nat, n: nat, present: bool)
    requires from <= n && forall t: nat :: from <= t < n ==> InRole(activities, role, t) == present
    ensures Cycles(activities, role, n) == Cycles(activities, role, from) + if present then n - from else 0
    decreases n
  {
    hide InRole;
    if from < n {
      Stretch(activities, role, from, n - 1, present);
      assert InRole(activities, role, n - 1) == present;
    }
  }

  // ---------------------------------------------------------------------------
  // Events
  // ---------------------------------------------------------------------------

  function Min(a: nat, b: nat): nat {
    if a < b then a else b
  }

  /** The start and end of the first activities, clipped; empty ones leave no events. */
  function Events(activities: seq<Activity>, limit: nat): seq<Event> {
    if activities == [] then []
    else
      var a := activities[|activities| - 1];
      var before := Events(activities[..|activities| - 1], limit);
      var start, end := Min(a.start, limit), Min(a.end, limit);
      if end <= start then before
      else
        match a.kind
        case Send => before + [Event(start, 1, 0, 0), Event(end, -1, 0, 0)]
        case Receive => before + [Event(start, 0, 1, 0), Event(end, 0, -1, 0)]
        case PartnerBusy => before + [Event(start, 0, 0, 1), Event(end, 0, 0, -1)]
  }

  /** The depth of a kind after all events up to and including time `t`. */
  ghost function Depth(events: seq<Event>, kind: Kind, t: nat): int {
    if events == [] then 0
    else Depth(events[..|events| - 1], kind, t)
         + if events[|events| - 1].time <= t then events[|events| - 1].Delta(kind) else 0
  }

  /** The number of activities of a kind that cover a cycle. */
  ghost function Overlap(activities: seq<Activity>, kind: Kind, t: nat): nat {
    if activities == [] then 0
    else Overlap(activities[..|activities| - 1], kind, t)
         + if Covers(activities[|activities| - 1], kind, t) then 1 else 0
  }

  lemma {:induction false} OverlapIffCovered(activities: seq<Activity>, kind: Kind, t: nat)
    ensures Overlap(activities, kind, t) > 0 <==> Covered(activities, kind, t)
  {
    if activities != [] {
      var rest, last := activities[..|activities| - 1], |activities| - 1;
      OverlapIffCovered(rest, kind, t);
      if Covered(rest, kind, t) {
        var i :| 0 <= i < |rest| && Covers(rest[i], kind, t);
        assert Covers(activities[i], kind, t);
      }
      if Covered(activities, kind, t) && !Covers(activities[last], kind, t) {
        var i :| 0 <= i < |activities| && Covers(activities[i], kind, t);
        assert Covers(rest[i], kind, t);
      }
    }
  }

  lemma DepthOfPair(events: seq<Event>, first: Event, second: Event, kind: Kind, t: nat)
    ensures Depth(events + [first, second], kind, t) == Depth(events, kind, t)
            + (if first.time <= t then first.Delta(kind) else 0) + (if second.time <= t then second.Delta(kind) else 0)
  {
    var all := events + [first, second];
    assert all[..|all| - 1] == events + [first];
    assert (events + [first])[..|events|] == events;
  }

  /** Within the phase the depth counts the activities that cover the cycle; from its end on
      it is zero. */
  lemma {:induction false} DepthIsOverlap(activities: seq<Activity>, limit: nat, kind: Kind, t: nat)
    ensures Depth(Events(activities, limit), kind, t) == if t < limit then Overlap(activities, kind, t) else 0
  {
    if activities != [] {
      var a := activities[|activities| - 1];
      var rest := activities[..|activities| - 1];
      DepthIsOverlap(rest, limit, kind, t);
      var start, end := Min(a.start, limit), Min(a.end, limit);
      if start < end {
        var before := Events(rest, limit);
        match a.kind
        case Send => DepthOfPair(before, Event(start, 1, 0, 0), Event(end, -1, 0, 0), kind, t);
        case Receive => DepthOfPair(before, Event(start, 0, 1, 0), Event(end, 0, -1, 0), kind, t);
        case PartnerBusy => DepthOfPair(before, Event(start, 0, 0, 1), Event(end, 0, 0, -1), kind, t);
      }
    }
  }

  lemma {:induction false} EventsInside(activities: seq<Activity>, limit: nat, e: Event)
    requires e in Events(activities, limit)
    ensures e.time <= limit
  {
    var rest := activities[..|activities| - 1];
    if e in Events(rest, limit) {
      EventsInside(rest, limit, e);
    }
  }

  // ---------------------------------------------------------------------------
  // Sorting
  // ---------------------------------------------------------------------------

  ghost predicate Sorted(events: seq<Event>) {
    forall i, j :: 0 <= i < j < |events| ==> events[i].time <= events[j].time
  }

  /** Depth is a sum of what the events change. */
  lemma {:induction false} DepthIsFold(events: seq<Event>, kind: Kind, t: nat)
    ensures Depth(events, kind, t) == Fold(events, 0, (d: int, e: Event) => d + if e.time <= t then e.Delta(kind) else 0)
  {
    if events != [] {
      DepthIsFold(events[..|events| - 1], kind, t);
    }
  }

  /** The depth does not depend on the order of the events. */
  lemma DepthPermutes(a: seq<Event>, b: seq<Event>, kind: Kind, t: nat)
    requires multiset(a) == multiset(b)
    ensures Depth(a, kind, t) == Depth(b, kind, t)
  {
    DepthIsFold(a, kind, t);
    DepthIsFold(b, kind, t);
    FoldPermutes(a, b, 0, (d: int, e: Event) => d + if e.time <= t then e.Delta(kind) else 0);
  }

  /** Once the events are sorted, those up to a time are a prefix. */
  ghost function Sum(events: seq<Event>, kind: Kind, n: nat): int
    requires n <= |events|
  {
    if n == 0 then 0 else Sum(events, kind, n - 1) + events[n - 1].Delta(kind)
  }

  lemma {:induction false} DepthOfPrefix(events: seq<Event>, kind: Kind, n: nat, t: nat)
    requires n <= |events|
    requires forall i :: 0 <= i < n ==> events[i].time <= t
    requires forall i :: n <= i < |events| ==> events[i].time > t
    ensures Depth(events, kind, t) == Sum(events, kind, n)
  {
    if events != [] {
      var rest := events[..|events| - 1];
      if n == |events| {
        DepthOfPrefix(rest, kind, n - 1, t);
        SumOfPrefix(events, rest, kind, n - 1);
      } else {
        DepthOfPrefix(rest, kind, n, t);
        SumOfPrefix(events, rest, kind, n);
      }
    }
  }

  lemma {:induction false} SumOfPrefix(events: seq<Event>, rest: seq<Event>, kind: Kind, n: nat)
    requires n <= |rest| && rest <= events
    ensures Sum(events, kind, n) == Sum(rest, kind, n)
  {
    if n > 0 {
      SumOfPrefix(events, rest, kind, n - 1);
    }
  }

  // ---------------------------------------------------------------------------
  // The sweep
  // ---------------------------------------------------------------------------

  datatype RoleCycles = RoleCycles(send: nat, receive: nat, simultaneous: nat, partnerBusy: nat, idle: nat)

  /** `events` is what sorting the activities' events by time may leave. */
  ghost predicate SortsTo(activities: seq<Activity>, limit: nat, events: seq<Event>) {
    Sorted(events) && multiset(events) == multiset(Events(activities, limit))
  }

  /** While `index` events are past and the next is not due, the counters tell the role. */
  lemma RoleBetween(activities: seq<Activity>, limit: nat, events: seq<Event>, index: nat, t: nat, kind: Kind)
    requires SortsTo(activities, limit, events) && index <= |events| && t < limit
    requires forall i :: 0 <= i < index ==> events[i].time <= t
    requires forall i :: index <= i < |events| ==> events[i].time > t
    ensures Sum(events, kind, index) >= 0
    ensures Sum(events, kind, index) > 0 <==> Covered(activities, kind, t)
  {
    DepthOfPrefix(events, kind, index, t);
    DepthPermutes(events, Events(activities, limit), kind, t);
    DepthIsOverlap(activities, limit, kind, t);
    OverlapIffCovered(activities, kind, t);
  }

  /** What the sweep has counted before `cursor`. */
  ghost predicate Counted(activities: seq<Activity>, cursor: nat, r: RoleCycles) {
    && r.send == Cycles(activities, Sending, cursor)
    && r.receive == Cycles(activities, Receiving, cursor)
    && r.simultaneous == Cycles(activities, Simultaneous, cursor)
    && r.partnerBusy == Cycles(activities, Waiting, cursor)
    && r.idle == Cycles(activities, Idle, cursor)
  }

  lemma CountedAdvances(activities: seq<Activity>, limit: nat, events: seq<Event>, index: nat, cursor: nat, time: nat,
                        before: RoleCycles, after: RoleCycles)
    requires SortsTo(activities, limit, events) && index <= |events| && cursor <= time <= limit
    requires forall i :: 0 <= i < index ==> events[i].time <= cursor
    requires forall i :: index <= i < |events| ==> events[i].time >= time
    requires Counted(activities, cursor, before)
    requires var s, r, p := Sum(events, Send, index), Sum(events, Receive, index), Sum(events, PartnerBusy, index);
      && after.send == before.send + (if s > 0 then time - cursor else 0)
      && after.receive == before.receive + (if r > 0 then time - cursor else 0)
      && after.simultaneous == before.simultaneous + (if s > 0 && r > 0 then time - cursor else 0)
      && after.partnerBusy == before.partnerBusy + (if p > 0 then time - cursor else 0)
      && after.idle == before.idle + (if s == 0 && r == 0 && p == 0 then time - cursor else 0)
    ensures Counted(activities, time, after)
  {
    hide SortsTo, Sum, Cycles, Covered;
    var s, r, p := Sum(events, Send, index), Sum(events, Receive, index), Sum(events, PartnerBusy, index);
    forall t: nat | cursor <= t < time
      ensures s >= 0 && (s > 0 <==> Covered(activities, Send, t))
      ensures r >= 0 && (r > 0 <==> Covered(activities, Receive, t))
      ensures p >= 0 && (p > 0 <==> Covered(activities, PartnerBusy, t))
    {
      RoleBetween(activities, limit, events, index, t, Send);
      RoleBetween(activities, limit, events, index, t, Receive);
      RoleBetween(activities, limit, events, index, t, PartnerBusy);
    }
    Stretch(activities, Sending, cursor, time, s > 0);
    Stretch(activities, Receiving, cursor, time, r > 0);
    Stretch(activities, Simultaneous, cursor, time, s > 0 && r > 0);
    Stretch(activities, Waiting, cursor, time, p > 0);
    Stretch(activities, Idle, cursor, time, s == 0 && r == 0 && p == 0);
  }

  /** All events together cancel. */
  lemma SumsToZero(activities: seq<Activity>, limit: nat, events: seq<Event>, kind: Kind)
    requires SortsTo(activities, limit, events)
    ensures Sum(events, kind, |events|) == 0
  {
    forall i | 0 <= i < |events|
      ensures events[i].time <= limit
    {
      EventInside(activities, limit, events, i);
    }
    DepthOfPrefix(events, kind, |events|, limit);
    DepthPermutes(events, Events(activities, limit), kind, limit);
    DepthIsOverlap(activities, limit, kind, limit);
  }

  lemma EventInside(activities: seq<Activity>, limit: nat, events: seq<Event>, i: nat)
    requires SortsTo(activities, limit, events) && i < |events|
    ensures events[i].time <= limit
  {
    assert events[i] in multiset(events);
    assert events[i] in Events(activities, limit);
    EventsInside(activities, limit, events[i]);
  }

  /** However equal times are ordered, the sweep counts for each role exactly the cycles of
      the phase in that role. */
  method ExchangeRoleCycles(activities: seq<Activity>, eventCycles: nat, events: seq<Event>) returns (r: RoleCycles)
    requires SortsTo(activities, eventCycles, events)
    ensures Counted(activities, eventCycles, r)
  {
    hide SortsTo, Counted, Sum;
    var sendDepth, receiveDepth, partnerBusyDepth := 0, 0, 0;
    var cursor: nat := 0;
    r := RoleCycles(0, 0, 0, 0, 0);
    var index := 0;
    NothingCounted(activities, events);
    while index < |events|
      invariant index <= |events| && cursor <= eventCycles
      invariant forall i :: 0 <= i < index ==> events[i].time <= cursor
      invariant forall i :: index <= i < |events| ==> events[i].time >= cursor
      invariant sendDepth == Sum(events, Send, index)
      invariant receiveDepth == Sum(events, Receive, index)
      invariant partnerBusyDepth == Sum(events, PartnerBusy, index)
      invariant Counted(activities, cursor, r)
      decreases |events| - index
    {
      var time := events[index].time;
      EventInside(activities, eventCycles, events, index);
      Ascends(activities, eventCycles, events, index);
      var cycles: nat := time - cursor;
      ghost var before := r;
      r := RoleCycles(
        r.send + (if sendDepth > 0 then cycles else 0),
        r.receive + (if receiveDepth > 0 then cycles else 0),
        r.simultaneous + (if sendDepth > 0 && receiveDepth > 0 then cycles else 0),
        r.partnerBusy + (if partnerBusyDepth > 0 then cycles else 0),
        r.idle + (if sendDepth == 0 && receiveDepth == 0 && partnerBusyDepth == 0 then cycles else 0));
      CountedAdvances(activities, eventCycles, events, index, cursor, time, before, r);
      ghost var group := index;
      while index < |events| && events[index].time == time
        invariant group <= index <= |events|
        invariant index == group ==> events[index].time == time
        invariant forall i :: group <= i < index ==> events[i].time == time
        invariant sendDepth == Sum(events, Send, index)
        invariant receiveDepth == Sum(events, Receive, index)
        invariant partnerBusyDepth == Sum(events, PartnerBusy, index)
        decreases |events| - index
      {
        SumNext(events, index);
        sendDepth := sendDepth + events[index].send;
        receiveDepth := receiveDepth + events[index].receive;
        partnerBusyDepth := partnerBusyDepth + events[index].partnerBusy;
        index := index + 1;
      }
      cursor := time;
    }
    SumsToZero(activities, eventCycles, events, Send);
    SumsToZero(activities, eventCycles, events, Receive);
    SumsToZero(activities, eventCycles, events, PartnerBusy);
    ghost var before := r;
    r := r.(idle := r.idle + (eventCycles - cursor));
    CountedAdvances(activities, eventCycles, events, index, cursor, eventCycles, before, r);
  }

  lemma NothingCounted(activities: seq<Activity>, events: seq<Event>)
    ensures Counted(activities, 0, RoleCycles(0, 0, 0, 0, 0))
    ensures Sum(events, Send, 0) == Sum(events, Receive, 0) == Sum(events, PartnerBusy, 0) == 0
  {
  }

  lemma SumNext(events: seq<Event>, index: nat)
    requires index < |events|
    ensures Sum(events, Send, index + 1) == Sum(events, Send, index) + events[index].send
    ensures Sum(events, Receive, index + 1) == Sum(events, Receive, index) + events[index].receive
    ensures Sum(events, PartnerBusy, index + 1) == Sum(events, PartnerBusy, index) + events[index].partnerBusy
  {
  }

  lemma Ascends(activities: seq<Activity>, limit: nat, events: seq<Event>, index: nat)
    requires SortsTo(activities, limit, events) && index < |events|
    ensures forall i :: index <= i < |events| ==> events[index].time <= events[i].time
  {
  }
}
