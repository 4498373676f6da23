/** The event-log ring of the idxd driver: the device appends entries, the interrupt thread visits them, and
    closing a process marks its entries so that they are skipped. Entries are numbered from the first one ever
    logged; entry `k` is in slot `k % size`. */
module EventLog {
  import opened Basics

  datatype Code = CompletionFault | BatchError | DrainFault | Other(code: nat)

  datatype Entry = Entry(code: Code, pasid: nat, wqIdx: nat, rcr: bool, payload: nat)

  /** What visiting an entry does. */
  datatype Outcome = Skipped | Ignored | Queued | Dropped | Reported

  /** The outcome for an entry, by whether a drain has marked it and whether fault work can be allocated. */
  function Visit(e: Entry, marked: bool, canAllocate: bool): Outcome {
    if marked then Skipped
    else if e.code.Other? then Reported
    else if !e.rcr && e.code.DrainFault? then Ignored
    else if canAllocate then Queued
    else Dropped
  }

  /** The entries whose fault work has been queued, in order. */
  function Work(entries: seq<Entry>, outcomes: seq<Outcome>): seq<Entry>
    requires |entries| >= |outcomes|
    decreases |outcomes|
  {
    if outcomes == [] then []
    else
      var k := |outcomes| - 1;
      if outcomes[k] == Queued then Work(entries, outcomes[..k]) + [entries[k]] else Work(entries, outcomes[..k])
  }

  /** The slot of entry `k`. */
  function Slot(k: nat, size: nat): (j: nat)
    requires size > 0
    ensures j < size
  {
    k % size
  }

  lemma NextSlot(k: nat, size: nat)
    requires size > 0
    ensures (Slot(k, size) + 1) % size == Slot(k + 1, size)
  {
    var q, r := k / size, k % size;
    assert k == q * size + r;
    if r + 1 == size {
      RemainderIs(size, 1, 0, size);
      assert k + 1 == (q + 1) * size + 0;
      RemainderIs(k + 1, q + 1, 0, size);
    } else {
      RemainderIs(r + 1, 0, r + 1, size);
      RemainderIs(k + 1, q, r + 1, size);
    }
  }

  /** Fewer than `size` apart, different entries have different slots. */
  lemma SlotsDiffer(j: nat, k: nat, size: nat)
    requires j <= k < j + size && size > 0
    ensures Slot(j, size) == Slot(k, size) ==> j == k
  {
    var p, q := j / size, k / size;
    assert k - j == (q - p) * size + (k % size - j % size);
    Product(q - p, size);
  }

  /** The skip bits of the marked entries among `first..next`. */
  function SkipBits(size: nat, first: nat, next: nat, marked: set<nat>): set<nat>
    requires size > 0
  {
    set k | k in marked && first <= k < next :: Slot(k, size)
  }

  lemma SkipBitOf(size: nat, first: nat, next: nat, marked: set<nat>, n: nat)
    requires first <= n < next < first + size
    ensures Slot(n, size) in SkipBits(size, first, next, marked) <==> n in marked
  {
    hide Slot;
    forall k | k in marked && first <= k < next && Slot(k, size) == Slot(n, size) ensures k == n {
      if k <= n {
        SlotsDiffer(k, n, size);
      } else {
        SlotsDiffer(n, k, size);
      }
    }
  }

  lemma SkipBitsMark(size: nat, first: nat, next: nat, marked: set<nat>, n: nat)
    requires first <= n < next && size > 0
    ensures SkipBits(size, first, next, marked + {n}) == SkipBits(size, first, next, marked) + {Slot(n, size)}
  {
    hide Slot;
  }

  /** Visiting the first entry drops its slot's bit and no other. */
  lemma SkipBitsVisit(size: nat, first: nat, next: nat, marked: set<nat>)
    requires first < next < first + size
    ensures SkipBits(size, first + 1, next, marked) == SkipBits(size, first, next, marked) - {Slot(first, size)}
  {
    hide Slot;
    forall k | k in marked && first < k < next ensures Slot(k, size) != Slot(first, size) {
      SlotsDiffer(first, k, size);
    }
  }

  /** The ring's cells hold the logged entries from `first` on. */
  ghost predicate RingOf(size: nat, cells: seq<Entry>, first: nat, logged: seq<Entry>, head: nat, tail: nat)
    requires |cells| == size > 0
  {
    && first <= |logged| < first + size
    && head == Slot(first, size) && tail == Slot(|logged|, size)
    && (forall k: nat :: first <= k < |logged| ==> cells[Slot(k, size)] == logged[k])
  }

  lemma ReleaseKeepsRing(size: nat, cells: seq<Entry>, first: nat, logged: seq<Entry>, head: nat, tail: nat, visits: nat)
    requires |cells| == size > 0 && RingOf(size, cells, first, logged, head, tail)
    requires first <= visits <= |logged|
    ensures RingOf(size, cells, visits, logged, Slot(visits, size), tail)
  {
    hide Slot;
  }

  lemma LogKeepsRing(size: nat, cells: seq<Entry>, first: nat, logged: seq<Entry>, head: nat, tail: nat, e: Entry)
    requires |cells| == size > 0 && RingOf(size, cells, first, logged, head, tail)
    requires |logged| + 1 < first + size
    ensures RingOf(size, cells[tail := e], first, logged + [e], head, (tail + 1) % size)
  {
    hide Slot;
    NextSlot(|logged|, size);
    forall k: nat | first <= k < |logged| ensures Slot(k, size) != Slot(|logged|, size) {
      SlotsDiffer(k, |logged|, size);
    }
  }

  /** The skip bits are those of the marked entries still to be visited; every visit so far did what its entry and
      its mark call for. */
  ghost predicate HistoryOf(size: nat, canAllocate: nat -> bool, visits: nat, logged: seq<Entry>, marked: set<nat>,
                            bmap: set<nat>, outcomes: seq<Outcome>, work: seq<Entry>)
    requires size > 0
  {
    && |outcomes| == visits <= |logged|
    && (forall k :: k in marked ==> k < |logged|)
    && bmap == SkipBits(size, visits, |logged|, marked)
    && (forall k :: 0 <= k < |outcomes| ==> outcomes[k] == Visit(logged[k], k in marked, canAllocate(k)))
    && work == Work(logged, outcomes)
  }

  lemma MarkKeepsHistory(size: nat, canAllocate: nat -> bool, visits: nat, logged: seq<Entry>, marked: set<nat>,
                         bmap: set<nat>, outcomes: seq<Outcome>, work: seq<Entry>, n: nat)
    requires size > 0 && HistoryOf(size, canAllocate, visits, logged, marked, bmap, outcomes, work)
    requires visits <= n < |logged|
    ensures HistoryOf(size, canAllocate, visits, logged, marked + {n}, bmap + {Slot(n, size)}, outcomes, work)
  {
    hide Slot, Visit, SkipBits, Work;
    SkipBitsMark(size, visits, |logged|, marked, n);
  }

  lemma LogKeepsHistory(size: nat, canAllocate: nat -> bool, visits: nat, logged: seq<Entry>, marked: set<nat>,
                        bmap: set<nat>, outcomes: seq<Outcome>, work: seq<Entry>, e: Entry)
    requires size > 0 && HistoryOf(size, canAllocate, visits, logged, marked, bmap, outcomes, work)
    ensures HistoryOf(size, canAllocate, visits, logged + [e], marked, bmap, outcomes, work)
  {
    hide Slot, Visit, Work;
    WorkAppend(logged, outcomes, e);
    assert SkipBits(size, visits, |logged| + 1, marked) == SkipBits(size, visits, |logged|, marked);
  }

  /** The device finds the ring full when its tail is one slot behind the head. */
  lemma FullWhenNextIsHead(first: nat, next: nat, size: nat)
    requires first <= next < first + size
    ensures (Slot(next, size) + 1) % size == Slot(first, size) <==> next + 1 == first + size
  {
    NextSlot(next, size);
    if next + 1 < first + size {
      SlotsDiffer(first, next + 1, size);
    } else {
      RemainderIs(first + size, first / size + 1, first % size, size);
    }
  }

  class EventLog {
    const size: nat
    const log: array<Entry>
    /** Whether allocating fault work for entry `k` succeeds. */
    const canAllocate: nat -> bool
    var head: nat               // evl->head
    var bmap: set<nat>          // skip bits
    var work: seq<Entry>        // fault work queued so far
    var visits: nat             // entries visited so far
    // device registers
    var statusHead: nat
    var statusTail: nat
    var intPending: bool

    /** All entries ever logged, those a drain has marked, and what the visits so far have done. */
    ghost var logged: seq<Entry>
    /** The number of the entry that the head register points to: what lies before it may be overwritten. */
    ghost var released: nat
    ghost var marked: set<nat>
    ghost var outcomes: seq<Outcome>

    constructor (size: nat, init: Entry, canAllocate: nat -> bool)
      requires size >= 2
      ensures Valid() && logged == [] && outcomes == [] && fresh(log) && this.canAllocate == canAllocate
    {
      this.size, this.canAllocate := size, canAllocate;
      log := new Entry[size](_ => init);
      head, bmap, work, visits := 0, {}, [], 0;
      statusHead, statusTail, intPending := 0, 0, false;
      logged, released, marked, outcomes := [], 0, {}, [];
    }

    /** Between two critical sections the head register is up to date. */
    ghost predicate Valid()
      reads this, log
    {
      Ring() && released == visits && History()
    }

    /** The registers, and the entries between them, which the device does not overwrite. */
    ghost predicate Ring()
      reads this`head, this`statusHead, this`statusTail, this`released, this`logged, log
    {
      size >= 2 && log.Length == size && head == statusHead && RingOf(size, log[..], released, logged, head, statusTail)
    }

    ghost predicate History()
      reads this`visits, this`logged, this`marked, this`bmap, this`outcomes, this`work
    {
      size > 0 && HistoryOf(size, canAllocate, visits, logged, marked, bmap, outcomes, work)
    }

    lemma MarkedAreLogged()
      requires History()
      ensures forall k :: k in marked ==> k < |logged|
    {
    }

    lemma AllMarkedVisited()
      requires History() && forall k :: k in marked ==> k < visits
      ensures bmap == {}
    {
    }

    lemma RingFacts()
      requires Ring()
      ensures size >= 2 && log.Length == size && released <= |logged| < released + size
      ensures head == statusHead == Slot(released, size) && statusTail == Slot(|logged|, size)
    {
    }

    lemma CellHolds(k: nat)
      requires Ring() && released <= k < |logged|
      ensures log[Slot(k, size)] == logged[k] && k < released + size
    {
    }

    /** Of every entry visited so far: it was skipped exactly if a drain had marked that very entry, whatever slot
        it shared, and queued fault work exactly if it was an unmarked fault that wanted a record. */
    lemma VisitsAreRight(k: nat)
      requires Valid() && k < visits
      ensures outcomes[k] == Skipped <==> k in marked
      ensures outcomes[k] == Queued <==>
        k !in marked && !logged[k].code.Other? && (logged[k].rcr || !logged[k].code.DrainFault?) && canAllocate(k)
      ensures outcomes[k] == Queued ==> logged[k] in work
    {
      WorkIsInOrder(logged, outcomes);
      if outcomes[k] == Queued {
        var ks := QueuedNumbers(outcomes);
        var j :| 0 <= j < |ks| && ks[j] == k;
        assert work[j] == logged[k];
      }
    }

    /** The device logs an entry, unless that would fill the last free slot. */
    method DeviceLogs(e: Entry) returns (stored: bool)
      requires Ring() && History()
      modifies this`statusTail, this`intPending, this`logged, log
      ensures Ring() && History()
      ensures stored <==> old(|logged|) + 1 < released + size
      ensures logged == (if stored then old(logged) + [e] else old(logged)) && intPending == (stored || old(intPending))
    {
      hide Slot, Visit, Work;
      FullWhenNextIsHead(released, |logged|, size);
      stored := (statusTail + 1) % size != statusHead;
      if stored {
        LogKeepsRing(size, log[..], released, logged, head, statusTail, e);
        LogKeepsHistory(size, canAllocate, visits, logged, marked, bmap, outcomes, work, e);
        ghost var cells := log[..];
        log[statusTail] := e;
        assert log[..] == cells[statusTail := e];
        statusTail := (statusTail + 1) % size;
        intPending := true;
        logged := logged + [e];
      }
    }

    /** The device does not take the driver's lock: it may log any entries between two of the driver's steps. */
    method DeviceRuns(arriving: seq<Entry>)
      requires Ring() && History()
      modifies this`statusTail, this`intPending, this`logged, log
      ensures Ring() && History() && old(logged) <= logged
      ensures intPending == (old(intPending) || old(logged) < logged)
    {
      for i := 0 to |arriving|
        invariant Ring() && History() && old(logged) <= logged
        invariant intPending == (old(intPending) || old(logged) < logged)
      {
        var _ := DeviceLogs(arriving[i]);
      }
    }

    /** `idxd_cdev_evl_drain_pasid`: marks the unvisited entries of one process on one queue. What the device logs
        meanwhile is left alone. */
    method DrainPasid(wqId: nat, pasid: nat, arrivals: nat -> seq<Entry>)
      requires Valid()
      modifies this`bmap, this`marked, this`statusTail, this`intPending, this`logged, log
      ensures Valid() && old(logged) <= logged
      ensures marked == old(marked) + set k: nat |
        visits <= k < |old(logged)| && logged[k].pasid == pasid && logged[k].wqIdx == wqId
    {
      hide Slot, Visit, SkipBits, RingOf, HistoryOf;
      var h, t := head, statusTail;
      RingFacts();
      ghost var n, tail := visits, |logged|;
      while h != t
        invariant Ring() && History() && old(logged) <= logged
        invariant visits <= n <= tail && h == Slot(n, size)
        invariant marked == old(marked) + set k: nat |
          visits <= k < n && logged[k].pasid == pasid && logged[k].wqIdx == wqId
        decreases tail - n
      {
        CellHolds(n);
        if log[h].pasid == pasid && log[h].wqIdx == wqId {
          MarkKeepsHistory(size, canAllocate, visits, logged, marked, bmap, outcomes, work, n);
          bmap := bmap + {h};
          marked := marked + {n};
        }
        NextSlot(n, size);
        n := n + 1;
        h := (h + 1) % size;
        DeviceRuns(arrivals(h));
      }
      SlotsDiffer(n, tail, size);
    }

    /** `process_evl_entry`, for the next entry, which is in slot `index`. */
    method ProcessEntry(entry: Entry, index: nat)
      requires History() && visits < |logged| < visits + size
      requires entry == logged[visits] && index == Slot(visits, size)
      modifies this`bmap, this`work, this`outcomes, this`visits
      ensures History() && visits == old(visits) + 1
      ensures outcomes == old(outcomes) + [Visit(entry, old(visits) in marked, canAllocate(old(visits)))]
    {
      hide Slot, SkipBits, Work;
      ghost var outcome := Visit(entry, visits in marked, canAllocate(visits));
      SkipBitOf(size, visits, |logged|, marked, visits);
      SkipBitsVisit(size, visits, |logged|, marked);
      WorkSnoc(logged, outcomes, outcome);
      outcomes := outcomes + [outcome];
      assert index !in bmap ==> bmap - {index} == bmap;
      var n := visits;
      visits := visits + 1;
      if index in bmap {
        bmap := bmap - {index};
      } else if !entry.code.Other? {
        if !entry.rcr && entry.code.DrainFault? {
          return;
        }
        if canAllocate(n) {
          work := work + [entry];
        }
      }
    }

    /** `process_evl_entries`: clears the pending bit, then visits everything up to the tail read after that. What
        the device logs meanwhile is left for the next run, and the pending bit tells of it. */
    method ProcessEntries(arrivals: nat -> seq<Entry>)
      requires Valid()
      modifies this`intPending, this`head, this`statusHead, this`bmap, this`work, this`outcomes, this`visits,
               this`released, this`statusTail, this`logged, log
      ensures Valid() && old(logged) <= logged && old(outcomes) <= outcomes
      ensures |old(logged)| <= visits && (visits < |logged| ==> intPending)
      ensures bmap == {}
    {
      hide Slot, Visit, SkipBits, Work, RingOf, HistoryOf;
      MarkedAreLogged();
      intPending := false;
      DeviceRuns(arrivals(visits));
      var h := head;
      var t := statusTail;
      RingFacts();
      ghost var tail := |logged|;
      while h != t
        invariant Ring() && History() && old(logged) <= logged && old(outcomes) <= outcomes
        invariant released == old(visits) <= visits <= tail <= |logged| && h == Slot(visits, size)
        invariant tail < |logged| ==> intPending
        decreases tail - visits
      {
        CellHolds(visits);
        RingFacts();
        NextSlot(visits, size);
        ProcessEntry(log[h], h);
        h := (h + 1) % size;
        DeviceRuns(arrivals(visits));
      }
      RingFacts();
      SlotsDiffer(visits, tail, size);
      AllMarkedVisited();
      ReleaseKeepsRing(size, log[..], released, logged, head, statusTail, visits);
      head := h;
      statusHead := h;
      released := visits;
    }
  }

  /** The entry numbers whose fault work has been queued. */
  function QueuedNumbers(outcomes: seq<Outcome>): seq<nat>
    decreases |outcomes|
  {
    if outcomes == [] then []
    else
      var k := |outcomes| - 1;
      if outcomes[k] == Queued then QueuedNumbers(outcomes[..k]) + [k] else QueuedNumbers(outcomes[..k])
  }

  /** The queued work is the entries with outcome `Queued`, each once and in the order they were logged. */
  lemma {:induction false} WorkIsInOrder(entries: seq<Entry>, outcomes: seq<Outcome>)
    requires |entries| >= |outcomes|
    ensures var ks := QueuedNumbers(outcomes);
      && |ks| == |Work(entries, outcomes)|
      && (forall j :: 0 <= j < |ks| ==>
            ks[j] < |outcomes| && outcomes[ks[j]] == Queued && Work(entries, outcomes)[j] == entries[ks[j]])
      && (forall i, j :: 0 <= i < j < |ks| ==> ks[i] < ks[j])
      && (forall k :: 0 <= k < |outcomes| && outcomes[k] == Queued ==> k in ks)
    decreases |outcomes|
  {
    if outcomes != [] {
      var k := |outcomes| - 1;
      WorkIsInOrder(entries, outcomes[..k]);
      assert forall i :: 0 <= i < k ==> outcomes[..k][i] == outcomes[i];
      if outcomes[k] == Queued {
        var front := QueuedNumbers(outcomes[..k]);
        assert forall i :: i in front ==> i in front + [k];
        assert (front + [k])[|front|] == k;
      }
    }
  }

  lemma {:induction false} WorkAppend(entries: seq<Entry>, outcomes: seq<Outcome>, e: Entry)
    requires |entries| >= |outcomes|
    ensures Work(entries + [e], outcomes) == Work(entries, outcomes)
    decreases |outcomes|
  {
    if outcomes != [] {
      WorkAppend(entries, outcomes[..|outcomes| - 1], e);
    }
  }

  lemma WorkSnoc(entries: seq<Entry>, outcomes: seq<Outcome>, o: Outcome)
    requires |entries| > |outcomes|
    ensures Work(entries, outcomes + [o])
      == if o == Queued then Work(entries, outcomes) + [entries[|outcomes|]] else Work(entries, outcomes)
  {
    assert (outcomes + [o])[..|outcomes|] == outcomes;
  }
}
