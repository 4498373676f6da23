/** Assignment of perf events to the device's counters: a list of live events and a bitmap of used counters. */
module PerfEvents {

  const EVENT_MAX := 64
  const OVERFLOW_SIZE := 32

  /** A live event and its counter. */
  datatype Live = Live(event: nat, counter: nat)

  function Counters(v: seq<Live>): set<nat> {
    set k | 0 <= k < |v| :: v[k].counter
  }

  /** Live events have distinct counters, all of them existing ones, and there are no more than counters. */
  predicate Sound(v: seq<Live>, nCounters: nat) {
    && |v| <= nCounters
    && (forall j, k :: 0 <= j < k < |v| ==> v[j].counter != v[k].counter && v[j].event != v[k].event)
    && (forall k :: 0 <= k < |v| ==> v[k].counter < nCounters)
  }

  predicate FirstFree(used: set<nat>, i: nat) {
    i !in used && forall j: nat :: j < i ==> j in used
  }

  function UpTo(i: nat): (r: set<nat>)
    ensures |r| == i && forall j: nat :: j in r <==> j < i
  {
    if i == 0 then {} else UpTo(i - 1) + {i - 1}
  }

  /** Pigeonhole: the first free counter is no higher than the number of used ones. */
  lemma FirstFreeIsLow(used: set<nat>, i: nat)
    requires FirstFree(used, i)
    ensures i <= |used|
  {
    SubsetSize(UpTo(i), used);
  }

  lemma {:induction false} SubsetSize(a: set<nat>, b: set<nat>)
    requires a <= b
    ensures |a| <= |b|
    decreases a
  {
    if a != {} {
      var x :| x in a;
      SubsetSize(a - {x}, b - {x});
    }
  }

  lemma {:induction false} CountersSize(v: seq<Live>)
    requires forall j, k :: 0 <= j < k < |v| ==> v[j].counter != v[k].counter
    ensures |Counters(v)| == |v|
    decreases |v|
  {
    if v != [] {
      var front, last := v[..|v| - 1], v[|v| - 1];
      CountersSize(front);
      assert Counters(v) == Counters(front) + {last.counter} by {
        assert v == front + [last];
      }
    }
  }

  lemma SoundSize(v: seq<Live>, nCounters: nat)
    requires Sound(v, nCounters)
    ensures |Counters(v)| == |v| <= nCounters
  {
    CountersSize(v);
  }

  predicate Known(v: seq<Live>, counterOf: map<nat, int>) {
    forall k :: 0 <= k < |v| ==> v[k].event in counterOf && counterOf[v[k].event] == v[k].counter
  }

  lemma DeletedKnown(v: seq<Live>, counterOf: map<nat, int>, at: nat)
    requires at < |v| && Known(v, counterOf)
    requires forall j, k :: 0 <= j < k < |v| ==> v[j].event != v[k].event
    ensures Known(Deleted(v, at), counterOf[v[at].event := -1])
  {
    assert forall k :: 0 <= k < |v| - 1 ==> Deleted(v, at)[k] == v[if k < at then k else k + 1];
  }

  datatype Result = Ok | Einval

  class Pmu {
    const nCounters: nat
    const eventList: array<nat>
    var nEvents: nat
    var usedMask: set<nat>
    /** hw.idx of each event: its counter, or -1. */
    var counterOf: map<nat, int>
    /** The live events in list order, with their counters. */
    ghost var live: seq<Live>

    constructor (nCounters: nat)
      requires nCounters <= EVENT_MAX
      ensures Valid() && live == [] && fresh(eventList) && this.nCounters == nCounters
    {
      this.nCounters := nCounters;
      eventList := new nat[EVENT_MAX];
      nEvents, usedMask, counterOf, live := 0, {}, map[], [];
    }

    ghost predicate Valid()
      reads this, eventList
    {
      && nCounters <= EVENT_MAX == eventList.Length
      && nEvents == |live| && Sound(live, nCounters) && usedMask == Counters(live)
      && Lists(eventList[..], live)
      && Known(live, counterOf)
    }

    /** How many counters the overflow handler looks after. */
    function Watched(): (n: nat)
      ensures n <= nCounters && n <= 32 && (n == nCounters || n == 32)
    {
      if nCounters < OVERFLOW_SIZE then nCounters else OVERFLOW_SIZE
    }

    /** The overflow handler would find the right event for every counter it looks after. */
    ghost predicate LooksUpRight()
      reads this, eventList
    {
      HandlerRight(eventList[..], live, Watched())
    }

    /** `perfmon_assign_event`: takes the first counter whose bit is clear, among all 64. */
    method AssignEvent() returns (r: Result, i: nat)
      modifies this`usedMask
      ensures r == Ok ==> FirstFree(old(usedMask), i) && i !in old(usedMask) && i < EVENT_MAX && usedMask == old(usedMask) + {i}
      ensures r == Einval ==> usedMask == old(usedMask) && forall j: nat :: j < EVENT_MAX ==> j in usedMask
    {
      i := 0;
      while i < EVENT_MAX
        invariant forall j: nat :: j < i ==> j in usedMask
      {
        if i !in usedMask {
          usedMask := usedMask + {i};
          return Ok, i;
        }
        i := i + 1;
      }
      r := Einval;
    }

    /** `perfmon_pmu_event_add` for an event that is not live. */
    method EventAdd(event: nat) returns (r: Result)
      requires Valid() && forall k :: 0 <= k < |live| ==> live[k].event != event
      modifies this`nEvents, this`usedMask, this`counterOf, this`live, eventList
      ensures Valid()
      ensures r == Ok <==> old(nEvents) < nCounters
      ensures r == Einval ==> live == old(live)
      ensures r == Ok ==> exists i: nat :: FirstFree(Counters(old(live)), i) && live == old(live) + [Live(event, i)]
      ensures r == Ok ==> eventList[..] == old(eventList[..])[old(nEvents) := event]
      ensures old(Aligned(live, Watched())) ==> Aligned(live, Watched()) && LooksUpRight()
    {
      hide FirstFree, Sound, Counters, Aligned, HandlerRight, Lists;
      ghost var list := eventList[..];
      SoundSize(live, nCounters);
      var n := nEvents;
      if n >= nCounters {
        AlignedIsRight(list, live, Watched());
        return Einval;
      }
      eventList[n] := event;
      assert eventList[..] == list[n := event];
      counterOf := counterOf[event := n];
      AllUsedIsMany(usedMask);
      var a, idx := AssignEvent();
      FirstFreeIsLow(Counters(live), idx);
      counterOf := counterOf[event := idx];
      nEvents := n + 1;
      SoundSnoc(live, nCounters, Live(event, idx));
      ListsAdd(list, live, event, idx, Watched());
      live := live + [Live(event, idx)];
      r := Ok;
    }

    /** The first part of `perfmon_pmu_event_stop`: takes the event out of the list and closes the gap. The last
        entry stays where it was, past the new end. */
    method RemoveFromList(event: nat, ghost at: nat)
      requires at < nEvents <= eventList.Length && eventList[at] == event
      requires forall k :: 0 <= k < at ==> eventList[k] != event
      modifies this`nEvents, eventList
      ensures nEvents == old(nEvents) - 1
      ensures eventList[..] == GapClosed(old(eventList[..]), at, old(nEvents))
    {
      hide GapClosed;
      ghost var was := eventList[..];
      GapStarts(was, at);
      var i := 0;
      while eventList[i] != event
        invariant 0 <= i <= at
        decreases at - i
      {
        i := i + 1;
      }
      i := i + 1;
      while i < nEvents
        invariant at < i <= nEvents == old(nEvents)
        invariant eventList[..] == GapClosed(was, at, i)
      {
        GapMoves(was, at, i);
        ghost var now := eventList[..];
        assert now[i] == eventList[i];
        eventList[i - 1] := eventList[i];
        assert eventList[..] == now[i - 1 := was[i]];
        i := i + 1;
      }
      nEvents := nEvents - 1;
    }

    /** `perfmon_pmu_event_del` for a live event: removes it from the list and frees its counter. */
    method EventDel(event: nat, ghost at: nat)
      requires Valid() && at < |live| && live[at].event == event
      modifies this`nEvents, this`usedMask, this`counterOf, this`live, eventList
      ensures Valid()
      ensures live == Deleted(old(live), at) && eventList[..] == GapClosed(old(eventList[..]), at, old(nEvents))
      ensures old(Aligned(live, Watched())) ==> (LooksUpRight() <==> at + 2 >= old(nEvents) || at + 1 >= Watched())
    {
      hide Counters, Aligned, HandlerRight, Lists, Deleted, GapClosed;
      AtIs(eventList[..], live, at);
      ListsDelete(eventList[..], live, at);
      SoundDelete(live, nCounters, at);
      DeletedKnown(live, counterOf, at);
      if Aligned(live, Watched()) {
        LookupAfterDeleteIff(eventList[..], live, at, Watched());
      }
      var cntr := counterOf[event];
      RemoveFromList(event, at);
      counterOf := counterOf[event := -1];
      usedMask := usedMask - {cntr};
      DeletedCounters(live, at);
      live := Deleted(live, at);
    }

    /** One pass of `perfmon_counter_overflow` over the counters whose overflow bit is set: the events it updates. */
    method OverflowPass(ovfstatus: set<nat>) returns (updated: seq<nat>)
      requires Valid()
      ensures updated == LookedUp(eventList[..], ovfstatus, Watched())
      ensures LooksUpRight() && (forall c :: c in ovfstatus && c < Watched() ==> c in Counters(live)) ==>
                forall e :: e in updated <==>
                            exists k :: 0 <= k < |live| && live[k].event == e && live[k].counter in ovfstatus && live[k].counter < Watched()
    {
      updated := [];
      for i := 0 to Watched()
        invariant updated == LookedUp(eventList[..], ovfstatus, i)
      {
        if i in ovfstatus {
          updated := updated + [eventList[i]];
        }
      }
      if LooksUpRight() && forall c :: c in ovfstatus && c < Watched() ==> c in Counters(live) {
        LookedUpRight(eventList[..], live, ovfstatus, Watched());
      }
    }
  }

  /** Three events are added and the first is deleted. Event 11 still counts on counter 1, but when that counter
      overflows the handler updates event 12. */
  method MissedOverflow() returns (pmu: Pmu, updated: seq<nat>)
    ensures fresh(pmu) && pmu.Valid() && pmu.live == [Live(11, 1), Live(12, 2)]
    ensures updated == [12]
  {
    hide Sound, Counters, FirstFree, HandlerRight, LookedUp;
    pmu := new Pmu(4);
    var r0 := pmu.EventAdd(10);
    AlignedLive(pmu.live, 4);
    var r1 := pmu.EventAdd(11);
    AlignedLive(pmu.live, 4);
    var r2 := pmu.EventAdd(12);
    AlignedLive(pmu.live, 4);
    assert pmu.live == [Live(10, 0), Live(11, 1), Live(12, 2)];
    pmu.EventDel(10, 0);
    updated := pmu.OverflowPass({1});
    OneLookedUp(pmu.eventList[..], 1, 4);
  }

  lemma SoundSnoc(v: seq<Live>, nCounters: nat, last: Live)
    requires Sound(v, nCounters) && |v| < nCounters && last.counter < nCounters
    requires last.counter !in Counters(v) && forall k :: 0 <= k < |v| ==> v[k].event != last.event
    ensures Sound(v + [last], nCounters) && Counters(v + [last]) == Counters(v) + {last.counter}
  {
    forall k | 0 <= k < |v| ensures v[k].counter != last.counter {
      assert v[k].counter in Counters(v);
    }
    var all := v + [last];
    assert all[|v|] == last && forall k :: 0 <= k < |v| ==> all[k] == v[k];
    forall c | c in Counters(v) ensures c in Counters(all) {
      var k :| 0 <= k < |v| && v[k].counter == c;
      assert all[k].counter == c;
    }
  }

  lemma AllUsedIsMany(used: set<nat>)
    ensures (forall j: nat :: j < EVENT_MAX ==> j in used) ==> |used| >= EVENT_MAX
  {
    if forall j: nat :: j < EVENT_MAX ==> j in used {
      SubsetSize(UpTo(EVENT_MAX), used);
    }
  }

  lemma DeletedCounters(v: seq<Live>, at: nat)
    requires at < |v|
    requires forall j, k :: 0 <= j < k < |v| ==> v[j].counter != v[k].counter
    ensures Counters(Deleted(v, at)) == Counters(v) - {v[at].counter}
  {
    var rest := Deleted(v, at);
    forall c | c in Counters(v) && c != v[at].counter ensures c in Counters(rest) {
      var k :| 0 <= k < |v| && v[k].counter == c;
      assert rest[if k < at then k else k - 1] == v[k];
    }
    forall c | c in Counters(rest) ensures c in Counters(v) && c != v[at].counter {
      var k :| 0 <= k < |rest| && rest[k].counter == c;
      assert rest[k] == v[if k < at then k else k + 1];
    }
  }

  lemma SoundDelete(v: seq<Live>, nCounters: nat, at: nat)
    requires Sound(v, nCounters) && at < |v|
    ensures Sound(Deleted(v, at), nCounters)
  {
    var rest := Deleted(v, at);
    assert forall k :: 0 <= k < |rest| ==> rest[k] == v[if k < at then k else k + 1];
  }

  // ---------------------------------------------------------------------------------------------
  // The overflow handler takes the counter's number for the event's place in the list
  // ---------------------------------------------------------------------------------------------

  function Deleted(v: seq<Live>, at: nat): (r: seq<Live>)
    requires at < |v|
    ensures |r| == |v| - 1
  {
    v[..at] + v[at + 1..]
  }

  /** The event array after the entry `at` of the first `n` has been taken out; the last of them stays behind. */
  function GapClosed(list: seq<nat>, at: nat, n: nat): seq<nat>
    requires at < n <= |list|
  {
    list[..at] + list[at + 1..n] + list[n - 1..]
  }

  /** `event_list[c]` is the event on counter `c`, for every counter in use of the first `limit` ones. */
  predicate HandlerRight(list: seq<nat>, live: seq<Live>, limit: nat) {
    forall k :: 0 <= k < |live| && live[k].counter < limit ==>
      live[k].counter < |list| && list[live[k].counter] == live[k].event
  }

  /** The events that the handler finds for the overflowed counters below `n`. */
  function LookedUp(list: seq<nat>, ovfstatus: set<nat>, n: nat): seq<nat>
    requires n <= |list|
  {
    if n == 0 then []
    else LookedUp(list, ovfstatus, n - 1) + if n - 1 in ovfstatus then [list[n - 1]] else []
  }

  lemma {:induction false} LookedUpRight(list: seq<nat>, live: seq<Live>, ovfstatus: set<nat>, n: nat)
    requires n <= |list| && HandlerRight(list, live, n)
    requires forall c :: c in ovfstatus && c < n ==> c in Counters(live)
    ensures forall e :: e in LookedUp(list, ovfstatus, n) <==>
                        exists k :: 0 <= k < |live| && live[k].event == e && live[k].counter in ovfstatus && live[k].counter < n
    decreases n
  {
    if n > 0 {
      LookedUpRight(list, live, ovfstatus, n - 1);
    }
  }

  lemma {:induction false} OneLookedUp(list: seq<nat>, c: nat, n: nat)
    requires n <= |list|
    ensures LookedUp(list, {c}, n) == if c < n then [list[c]] else []
    decreases n
  {
    if n > 0 {
      OneLookedUp(list, c, n - 1);
    }
  }

  /** The events on the first `limit` counters are in the places of that number, and no others are. */
  predicate Aligned(v: seq<Live>, limit: nat) {
    forall k :: 0 <= k < |v| ==> if k < limit then v[k].counter == k else v[k].counter >= limit
  }

  predicate Lists(list: seq<nat>, live: seq<Live>) {
    |live| <= |list| && forall k :: 0 <= k < |live| ==> list[k] == live[k].event
  }

  lemma AlignedIsRight(list: seq<nat>, live: seq<Live>, limit: nat)
    requires Lists(list, live)
    ensures Aligned(live, limit) ==> HandlerRight(list, live, limit)
  {
  }

  lemma AtIs(list: seq<nat>, v: seq<Live>, at: nat)
    requires Lists(list, v) && at < |v|
    ensures list[at] == v[at].event && forall k :: 0 <= k < at ==> list[k] == v[k].event
  {
  }

  lemma ListsDelete(list: seq<nat>, v: seq<Live>, at: nat)
    requires Lists(list, v) && at < |v|
    ensures Lists(GapClosed(list, at, |v|), Deleted(v, at))
  {
  }

  lemma GapStarts(list: seq<nat>, at: nat)
    requires at < |list|
    ensures GapClosed(list, at, at + 1) == list
  {
  }

  lemma GapMoves(list: seq<nat>, at: nat, i: nat)
    requires at < i < |list|
    ensures |GapClosed(list, at, i)| == |list| && GapClosed(list, at, i)[i] == list[i]
    ensures GapClosed(list, at, i)[i - 1 := list[i]] == GapClosed(list, at, i + 1)
  {
  }

  lemma ListsAdd(list: seq<nat>, v: seq<Live>, event: nat, i: nat, limit: nat)
    requires Lists(list, v) && |v| < |list| && FirstFree(Counters(v), i)
    ensures Lists(list[|v| := event], v + [Live(event, i)])
    ensures Aligned(v, limit) ==>
      Aligned(v + [Live(event, i)], limit) && HandlerRight(list[|v| := event], v + [Live(event, i)], limit)
  {
    if Aligned(v, limit) {
      AddKeepsAligned(v, event, i, limit);
    }
  }

  lemma NextCounter(v: seq<Live>, i: nat, limit: nat)
    requires Aligned(v, limit) && FirstFree(Counters(v), i)
    ensures if |v| < limit then i == |v| else i >= limit
  {
    if i < |v| {
      assert v[i].counter in Counters(v);
    }
    assert |v| < limit ==> |v| !in Counters(v);
  }

  /** Adding an event keeps places and counters aligned. */
  lemma AddKeepsAligned(v: seq<Live>, event: nat, i: nat, limit: nat)
    requires Aligned(v, limit) && FirstFree(Counters(v), i)
    ensures Aligned(v + [Live(event, i)], limit)
  {
    NextCounter(v, i, limit);
  }

  /** Deleting one keeps them aligned exactly when it is the newest, or in a place that the handler never reads. */
  lemma DeleteKeepsAlignedIff(v: seq<Live>, at: nat, limit: nat)
    requires Aligned(v, limit) && at < |v|
    ensures Aligned(Deleted(v, at), limit) <==> at + 1 == |v| || at >= limit
  {
    var rest := Deleted(v, at);
    if at + 1 < |v| {
      assert rest[at] == v[at + 1];
    }
  }

  /** Right after a deletion the handler still finds every event exactly when the deleted one was among the two
      newest (the entry left behind is then read in its old place), or in the last place it reads or beyond. */
  lemma LookupAfterDeleteIff(list: seq<nat>, v: seq<Live>, at: nat, limit: nat)
    requires Lists(list, v) && Aligned(v, limit) && at < |v|
    requires forall j, k :: 0 <= j < k < |v| ==> v[j].event != v[k].event
    ensures HandlerRight(GapClosed(list, at, |v|), Deleted(v, at), limit) <==> at + 2 >= |v| || at + 1 >= limit
  {
    var rest, closed := Deleted(v, at), GapClosed(list, at, |v|);
    if at + 2 < |v| && at + 1 < limit {
      assert rest[at] == v[at + 1] && closed[at + 1] == v[at + 2].event;
    } else {
      forall k | 0 <= k < |rest| && rest[k].counter < limit
        ensures rest[k].counter < |closed| && closed[rest[k].counter] == rest[k].event
      {
        assert rest[k] == v[if k < at then k else k + 1];
      }
    }
  }

  /** Events added one after the other, each on the first free counter. */
  predicate AddRun(v: seq<Live>, adds: seq<Live>)
    decreases |adds|
  {
    adds != [] ==> FirstFree(Counters(v), adds[0].counter) && AddRun(v + [adds[0]], adds[1..])
  }

  /** The event array after they have been added behind the first `n` entries. */
  function ListAfter(list: seq<nat>, n: nat, adds: seq<Live>): seq<nat>
    requires n + |adds| <= |list|
    decreases |adds|
  {
    if adds == [] then list else ListAfter(list[n := adds[0].event], n + 1, adds[1..])
  }

  lemma {:induction false} AddRunIsRight(list: seq<nat>, v: seq<Live>, adds: seq<Live>, limit: nat)
    requires Lists(list, v) && Aligned(v, limit) && AddRun(v, adds) && |v| + |adds| <= |list|
    ensures HandlerRight(ListAfter(list, |v|, adds), v + adds, limit)
    decreases |adds|
  {
    hide Counters, FirstFree;
    if adds == [] {
      assert v + adds == v;
      AlignedIsRight(list, v, limit);
    } else {
      AddKeepsAligned(v, adds[0].event, adds[0].counter, limit);
      assert v + [adds[0]] + adds[1..] == v + adds;
      AddRunIsRight(list[|v| := adds[0].event], v + [adds[0]], adds[1..], limit);
    }
  }

  /** In every later run of additions of new events, too, the handler finds every event exactly when the deleted
      one was the newest, or in a place that the handler never reads: the first addition overwrites the entry left
      behind and takes the freed counter. */
  lemma LookupAfterAddsIff(list: seq<nat>, v: seq<Live>, at: nat, limit: nat)
    requires at < |v| <= |list| && Lists(list, v) && Aligned(v, limit)
    ensures (forall adds :: RightAfter(list, v, at, adds, limit)) <==> at + 1 == |v| || at >= limit
  {
    hide AddRun, ListAfter, Aligned, Lists, HandlerRight, NewEvents;
    var rest, closed := Deleted(v, at), GapClosed(list, at, |v|);
    DeleteKeepsAlignedIff(v, at, limit);
    ListsDelete(list, v, at);
    if at + 1 == |v| || at >= limit {
      forall adds
        ensures RightAfter(list, v, at, adds, limit)
      {
        if |rest| + |adds| <= |list| && AddRun(rest, adds) {
          AddRunIsRight(closed, rest, adds, limit);
        }
      }
    } else {
      var adds := AddIsMissed(list, v, at, limit);
      assert !RightAfter(list, v, at, adds, limit);
    }
  }

  /** If `adds` can follow the deletion, the handler then finds every event. */
  predicate RightAfter(list: seq<nat>, v: seq<Live>, at: nat, adds: seq<Live>, limit: nat)
    requires at < |v| <= |list|
  {
    |v| - 1 + |adds| <= |list| && AddRun(Deleted(v, at), adds) && NewEvents(v, adds) ==>
      HandlerRight(ListAfter(GapClosed(list, at, |v|), |v| - 1, adds), Deleted(v, at) + adds, limit)
  }

  /** Events that have not been in the list. */
  predicate NewEvents(v: seq<Live>, adds: seq<Live>) {
    forall j, k :: 0 <= j < |v| && 0 <= k < |adds| ==> v[j].event != adds[k].event
  }

  /** The failing run: one new event, which gets the freed counter. */
  lemma AddIsMissed(list: seq<nat>, v: seq<Live>, at: nat, limit: nat) returns (adds: seq<Live>)
    requires Lists(list, v) && Aligned(v, limit) && at + 1 < |v| && at < limit
    ensures |v| - 1 + |adds| <= |list| && AddRun(Deleted(v, at), adds) && NewEvents(v, adds)
    ensures !HandlerRight(ListAfter(GapClosed(list, at, |v|), |v| - 1, adds), Deleted(v, at) + adds, limit)
  {
    var rest, closed := Deleted(v, at), GapClosed(list, at, |v|);
    var e := NewEvent(v);
    adds := [Live(e, at)];
    FreedIsFirst(v, at, limit);
    assert adds[1..] == [] && AddRun(rest + [adds[0]], []);
    assert ListAfter(closed, |v| - 1, adds) == ListAfter(closed[|v| - 1 := e], |v|, []);
    assert (rest + adds)[|v| - 1] == Live(e, at) && closed[at] == v[at + 1].event;
  }

  lemma FreedIsFirst(v: seq<Live>, at: nat, limit: nat)
    requires Aligned(v, limit) && at < |v| && at < limit
    ensures FirstFree(Counters(Deleted(v, at)), at)
  {
    var rest := Deleted(v, at);
    forall j: nat | j < at ensures j in Counters(rest) {
      assert rest[j] == v[j];
    }
    forall k | 0 <= k < |rest| ensures rest[k].counter != at {
      assert rest[k] == v[if k < at then k else k + 1];
    }
  }

  lemma {:induction false} NewEvent(v: seq<Live>) returns (e: nat)
    ensures forall k :: 0 <= k < |v| ==> v[k].event < e
    decreases |v|
  {
    e := 0;
    if v != [] {
      var front := v[..|v| - 1];
      e := NewEvent(front);
      assert forall k :: 0 <= k < |front| ==> front[k] == v[k];
      if e <= v[|v| - 1].event {
        e := v[|v| - 1].event + 1;
      }
    }
  }

  /** Below the limit, aligned live events name their own places. */
  lemma AlignedLive(v: seq<Live>, limit: nat)
    requires Aligned(v, limit)
    ensures forall k :: 0 <= k < |v| && k < limit ==> v[k] == Live(v[k].event, k)
  {
  }
}
