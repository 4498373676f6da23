/** Ownership of descriptors in the idxd driver: allocation, submission to a dedicated queue, completion by the
    device, the interrupt thread, resubmission after an invalid interrupt handle, and the flush at shutdown.
    Each `Action` is one atomic section of the driver or of the device; a run interleaves them freely. */
module DescLifecycle {

  /** The completion record's status byte: zero, the codes the driver tells apart, any other error. */
  datatype Status = Zero | Success | HandleInvalid | OtherError | Abort

  /** What a client is told of its submission. */
  datatype Result = NoError | WriteFailed | Aborted

  datatype Event =
    | Alloced(id: nat)
    | Accepted(id: nat, cookie: nat)
    | DeviceEnded(id: nat, status: Status)
    | Requeued(id: nat)                             // resubmission work queued
    | Resubmitted(id: nat)
    | CookieCompleted(id: nat, cookie: nat, result: Result)
    | Freed(id: nat)

  /** What the interrupt thread is doing; when it is gone, the flush uses the local list. */
  datatype Phase = Idle | FromWork | FromPending | Flushing

  datatype State = State(
    used: set<nat>,               // set bits of the descriptor bitmap
    status: map<nat, Status>,
    cookie: map<nat, nat>,        // zero or absent: none
    client: set<nat>,             // prepared, not submitted
    entering: set<nat>,              // submission by a client, before the pending list
    reentering: set<nat>,              // resubmission, before the pending list
    pending: seq<nat>,            // lock-less list, newest first
    work: seq<nat>,
    local: seq<nat>,              // taken off a list by the interrupt thread or the flush
    resubmit: seq<nat>,           // queued resubmission work
    issuing: set<nat>,            // on a list, portal not yet written
    device: set<nat>,             // with the device
    live: bool,                   // submitters can still take a reference
    phase: Phase,
    log: seq<Event>)

  function StatusOf(s: State, i: nat): Status {
    if i in s.status then s.status[i] else Zero
  }

  function CookieOf(s: State, i: nat): nat {
    if i in s.cookie then s.cookie[i] else 0
  }

  const INITIAL := State({}, map[], map[], {}, {}, {}, [], [], [], [], {}, {}, true, Idle, [])

  // ---------------------------------------------------------------------------------------------
  // The driver's functions
  // ---------------------------------------------------------------------------------------------

  function FreeDesc(s: State, i: nat): State {
    s.(used := s.used - {i}, log := s.log + [Freed(i)])
  }

  /** The result that a status stands for; a descriptor that is aborted before it has one was aborted. */
  function ResultOf(status: Status): Result {
    match status
    case Success => NoError
    case Zero => Aborted
    case _ => WriteFailed
  }

  /** The cookie part of `idxd_dma_complete_txd`. */
  function CompleteCookie(s: State, i: nat): State {
    if CookieOf(s, i) == 0 then s
    else s.(cookie := s.cookie[i := 0], log := s.log + [CookieCompleted(i, CookieOf(s, i), ResultOf(StatusOf(s, i)))])
  }

  /** `idxd_dma_complete_txd` with the descriptor freed, on one that the caller has taken off its list;
      `requeue` says whether resubmission work can be queued. */
  function CompleteTxd(s: State, i: nat, abort: bool, requeue: bool): State {
    if StatusOf(s, i) == HandleInvalid && !abort && requeue then s.(resubmit := s.resubmit + [i], log := s.log + [Requeued(i)])
    else if StatusOf(s, i) != Zero || abort then FreeDesc(CompleteCookie(s, i), i)
    else FreeDesc(s, i)
  }

  /** The descriptors of a list, in order, that are (not) among the chosen ones. */
  function Select(list: seq<nat>, chosen: set<nat>, among: bool): seq<nat> {
    if list == [] then []
    else (if (list[0] in chosen) == among then [list[0]] else []) + Select(list[1..], chosen, among)
  }

  datatype Action =
    | Alloc(id: nat)
    | TxSubmit(id: nat, cookie: nat)
    | Reject(id: nat)                   // device off or reference gone: the client's submission fails
    | Enter(id: nat)                    // reference taken, descriptor on the pending list
    | Issue(id: nat)                    // portal written, reference dropped
    | DeviceCompletes(id: nat, result: Status)
    | IrqTakesWork(seen: set<nat>)      // the walk over the work list saw these, and no others, finished
    | IrqTakesPending
    | IrqHandles(requeue: bool)
    | IrqEnds
    | ResubmitStarts
    | ResubmitFails(id: nat)
    | Kill                              // the queue's reference count is killed
    | FlushStarts                       // submitters and interrupt thread gone, device drained
    | FlushHandles(requeue: bool)

  predicate Enabled(s: State, a: Action) {
    match a
    case Alloc(i) => i !in s.used
    case TxSubmit(i, c) => i in s.client && c > 0
    case Reject(i) => i in s.entering
    case Enter(i) => (i in s.entering || i in s.reentering) && s.live
    case Issue(i) => i in s.issuing
    case DeviceCompletes(i, r) => i in s.device && r != Zero && r != Abort
    case IrqTakesWork(seen) => s.phase == Idle && forall i :: i in seen ==> StatusOf(s, i) != Zero
    case IrqTakesPending => s.phase == FromWork && s.local == []
    case IrqHandles(_) => (s.phase == FromWork || s.phase == FromPending) && s.local != []
    case IrqEnds => s.phase == FromPending && s.local == []
    case ResubmitStarts => s.resubmit != []
    case ResubmitFails(i) => i in s.reentering
    case Kill => true
    case FlushStarts => !s.live && s.issuing == {} && s.phase == Idle
    case FlushHandles(_) => s.phase == Flushing && s.local != []
  }

  function Apply(s: State, a: Action): State
    requires Enabled(s, a)
  {
    match a
    case Alloc(i) =>
      s.(used := s.used + {i}, client := s.client + {i}, status := s.status[i := Zero], log := s.log + [Alloced(i)])
    case TxSubmit(i, c) => s.(client := s.client - {i}, entering := s.entering + {i}, cookie := s.cookie[i := c])
    case Reject(i) => FreeDesc(s.(entering := s.entering - {i}), i)
    case Enter(i) =>
      s.(entering := s.entering - {i}, reentering := s.reentering - {i}, pending := [i] + s.pending, issuing := s.issuing + {i},
         log := s.log + [if i in s.entering then Accepted(i, CookieOf(s, i)) else Resubmitted(i)])
    case Issue(i) => s.(issuing := s.issuing - {i}, device := s.device + {i})
    case DeviceCompletes(i, r) => s.(device := s.device - {i}, status := s.status[i := r], log := s.log + [DeviceEnded(i, r)])
    case IrqTakesWork(seen) => s.(phase := FromWork, local := Select(s.work, seen, true), work := Select(s.work, seen, false))
    case IrqTakesPending => s.(phase := FromPending, local := s.pending, pending := [])
    case IrqHandles(requeue) =>
      var i, t := s.local[0], s.(local := s.local[1..]);
      if s.phase == FromPending && StatusOf(s, i) == Zero then t.(work := s.work + [i])
      else CompleteTxd(t, i, StatusOf(s, i) == Abort, requeue)
    case IrqEnds => s.(phase := Idle)
    case ResubmitStarts =>
      var i := s.resubmit[0];
      s.(resubmit := s.resubmit[1..], reentering := s.reentering + {i}, status := s.status[i := Zero])
    case ResubmitFails(i) =>
      FreeDesc(CompleteCookie(s.(reentering := s.reentering - {i}, status := s.status[i := Abort]), i), i)
    case Kill => s.(live := false)
    case FlushStarts => s.(phase := Flushing, local := s.work + s.pending, work := [], pending := [], device := {})
    case FlushHandles(requeue) =>
      CompleteTxd(s.(local := s.local[1..]), s.local[0], StatusOf(s, s.local[0]) == Zero, requeue)
  }

  // ---------------------------------------------------------------------------------------------
  // One place each
  // ---------------------------------------------------------------------------------------------

  function Held(b: bool): nat {
    if b then 1 else 0
  }

  /** How often `i` occurs in a list. */
  function Count(list: seq<nat>, i: nat): nat {
    if list == [] then 0 else Held(list[0] == i) + Count(list[1..], i)
  }

  /** In how many places descriptor `i` is. */
  function Places(s: State, i: nat): nat {
    Held(i in s.client) + Held(i in s.entering) + Held(i in s.reentering)
    + Count(s.pending, i) + Count(s.work, i) + Count(s.local, i) + Count(s.resubmit, i)
  }

  predicate Listed(s: State, i: nat) {
    Count(s.pending, i) + Count(s.work, i) + Count(s.local, i) > 0
  }

  // ---------------------------------------------------------------------------------------------
  // One life after another
  // ---------------------------------------------------------------------------------------------

  datatype Life =
    | Free
    | Owned
    | Submitted(cookie: nat)                  // until the device has ended it
    | Ended(cookie: nat, status: Status)      // until the driver has handled that
    | Queued(cookie: nat)                     // for resubmission
    | Finished
    | Broken

  function Lives(l: Life, e: Event): Life {
    match (l, e)
    case (Free, Alloced(_)) => Owned
    case (Owned, Accepted(_, c)) => Submitted(c)
    case (Submitted(c), DeviceEnded(_, st)) => Ended(c, st)
    case (Submitted(c), CookieCompleted(_, d, r)) => if c == d && r == Aborted then Finished else Broken
    case (Ended(c, st), CookieCompleted(_, d, r)) =>
      if c == d && r == (if st == Success then NoError else WriteFailed) then Finished else Broken
    case (Ended(c, st), Requeued(_)) => if st == HandleInvalid then Queued(c) else Broken
    case (Queued(c), Resubmitted(_)) => Submitted(c)
    case (Queued(c), CookieCompleted(_, d, r)) => if c == d && r == WriteFailed then Finished else Broken
    case (Finished, Freed(_)) => Free
    case (Owned, Freed(_)) => Free
    case _ => Broken
  }

  /** What the events say of descriptor `i`: allocated, accepted, ended by the device or aborted, resubmitted if
      its handle was invalid, completed once with the accepted cookie and the result that its status stands for,
      freed, or allocated and freed; anything else breaks it for good. */
  function LifeOf(log: seq<Event>, i: nat): Life
    decreases |log|
  {
    if log == [] then Free
    else
      var before, e := LifeOf(log[..|log| - 1], i), log[|log| - 1];
      if e.id == i then Lives(before, e) else before
  }

  function ExpectedLife(s: State, i: nat): Life {
    if i !in s.used then Free
    else if i in s.client || i in s.entering then Owned
    else if i in s.reentering || Count(s.resubmit, i) > 0 then Queued(CookieOf(s, i))
    else if StatusOf(s, i) == Zero then Submitted(CookieOf(s, i))
    else Ended(CookieOf(s, i), StatusOf(s, i))
  }

  /** `i` is in exactly one place if its bitmap bit is set, and in none otherwise. */
  predicate Placed(s: State, i: nat) {
    Places(s, i) == Held(i in s.used)
  }

  /** The event log says of `i` what its place says. */
  predicate Logged(s: State, i: nat) {
    && LifeOf(s.log, i) == ExpectedLife(s, i)
    && (i in s.used && i !in s.client ==> CookieOf(s, i) != 0)
  }

  /** The device and the submitters only have listed descriptors whose status is still zero. */
  predicate Flowing(s: State, i: nat) {
    && (i in s.issuing || i in s.device ==> Listed(s, i) && StatusOf(s, i) == Zero)
    && !(i in s.issuing && i in s.device)
    && (Count(s.resubmit, i) > 0 ==> StatusOf(s, i) == HandleInvalid)
    && (i in s.client || i in s.entering || i in s.reentering ==> StatusOf(s, i) == Zero)
    && (Count(s.local, i) > 0 && s.phase == FromWork ==> StatusOf(s, i) != Zero)
    && (Listed(s, i) && s.phase != Flushing && StatusOf(s, i) == Zero ==> i in s.issuing || i in s.device)
    && (s.phase == Flushing ==> s.pending == s.work == [] && s.device == {} && s.issuing == {} && !s.live)
    && (s.phase == Idle ==> s.local == [])
  }

  predicate Consistent(s: State, i: nat) {
    Placed(s, i) && Logged(s, i) && Flowing(s, i)
  }

  ghost predicate Inv(s: State) {
    forall i: nat :: Consistent(s, i)
  }

  lemma {:induction false} LifeSnoc(log: seq<Event>, e: Event, i: nat)
    ensures LifeOf(log + [e], i) == if e.id == i then Lives(LifeOf(log, i), e) else LifeOf(log, i)
  {
    assert (log + [e])[..|log|] == log;
  }

  lemma {:induction false} CountAppend(a: seq<nat>, b: seq<nat>, i: nat)
    ensures Count(a + b, i) == Count(a, i) + Count(b, i)
  {
    if a == [] {
      assert a + b == b;
    } else {
      assert (a + b)[1..] == a[1..] + b;
      CountAppend(a[1..], b, i);
    }
  }

  lemma {:induction false} SelectSplits(list: seq<nat>, chosen: set<nat>, i: nat)
    ensures Count(Select(list, chosen, true), i) == if i in chosen then Count(list, i) else 0
    ensures Count(Select(list, chosen, false), i) == if i in chosen then 0 else Count(list, i)
  {
    if list != [] {
      SelectSplits(list[1..], chosen, i);
      CountAppend([list[0]], Select(list[1..], chosen, true), i);
      CountAppend([list[0]], Select(list[1..], chosen, false), i);
      assert Count([list[0]], i) == Held(list[0] == i);
      assert [] + Select(list[1..], chosen, true) == Select(list[1..], chosen, true);
      assert [] + Select(list[1..], chosen, false) == Select(list[1..], chosen, false);
    }
  }

  /** How often `i` occurs in the lists that an action on descriptor `d` can make. */
  lemma ListFacts(s: State, d: nat, i: nat)
    ensures Count([], i) == 0
    ensures Count([d] + s.pending, i) == Held(d == i) + Count(s.pending, i)
    ensures Count(s.work + [d], i) == Count(s.work, i) + Held(d == i)
    ensures Count(s.resubmit + [d], i) == Count(s.resubmit, i) + Held(d == i)
    ensures Count(s.work + s.pending, i) == Count(s.work, i) + Count(s.pending, i)
    ensures s.local != [] ==> Count(s.local, i) == Held(s.local[0] == i) + Count(s.local[1..], i)
    ensures s.resubmit != [] ==> Count(s.resubmit, i) == Held(s.resubmit[0] == i) + Count(s.resubmit[1..], i)
  {
    assert Count([d], i) == Held(d == i);
    CountAppend([d], s.pending, i);
    CountAppend(s.work, [d], i);
    CountAppend(s.resubmit, [d], i);
    CountAppend(s.work, s.pending, i);
  }

  /** Every atomic section keeps every descriptor consistent, whoever runs it and whenever. */
  lemma StepKeepsInv(s: State, a: Action)
    requires Inv(s) && Enabled(s, a)
    ensures Inv(Apply(s, a))
  {
    forall i: nat ensures Consistent(Apply(s, a), i) {
      assert Consistent(s, i);
      StepKeepsConsistent(s, a, i);
    }
  }

  lemma StepKeepsConsistent(s: State, a: Action, i: nat)
    requires Inv(s) && Enabled(s, a)
    ensures Consistent(Apply(s, a), i)
  {
    assert Consistent(s, i);
    if Subject(s, a) >= 0 {
      assert Consistent(s, Subject(s, a));
    }
    if a.IrqHandles? || a.FlushHandles? {
      HandlingKeepsPlaced(s, a, i);
      HandlingKeepsLogged(s, a, i);
      HandlingKeepsFlowing(s, a, i);
    } else {
      StepKeepsPlaced(s, a, i);
      StepKeepsLogged(s, a, i);
      StepKeepsFlowing(s, a, i);
    }
  }

  /** The descriptor an action is about, if it is about one. */
  function Subject(s: State, a: Action): int
    requires Enabled(s, a)
  {
    match a
    case ResubmitStarts => s.resubmit[0]
    case IrqHandles(_) => s.local[0]
    case FlushHandles(_) => s.local[0]
    case IrqTakesWork(_) => -1
    case IrqTakesPending => -1
    case IrqEnds => -1
    case Kill => -1
    case FlushStarts => -1
    case _ => a.id
  }

  lemma StepKeepsPlaced(s: State, a: Action, i: nat)
    requires Enabled(s, a) && Consistent(s, i) && !(a.IrqHandles? || a.FlushHandles?)
    requires Subject(s, a) >= 0 ==> Consistent(s, Subject(s, a))
    ensures Placed(Apply(s, a), i)
  {
    if Subject(s, a) >= 0 {
      OneMoves(s, a, i);
    } else {
      ListsMove(s, a, i);
    }
  }

  /** An action on one descriptor moves it and nothing else. */
  lemma OneMoves(s: State, a: Action, i: nat)
    requires Enabled(s, a) && Consistent(s, i) && !(a.IrqHandles? || a.FlushHandles?)
    requires Subject(s, a) >= 0 && Consistent(s, Subject(s, a))
    ensures Placed(Apply(s, a), i)
  {
    hide LifeOf, Logged, Count, Select, CompleteCookie, Flowing, StatusOf, CookieOf, Lives;
    var d := Subject(s, a);
    ListFacts(s, d, i);
    if a.ResubmitFails? {
      CookieKeepsPlaces(s.(reentering := s.reentering - {d}, status := s.status[d := Abort]), d);
    }
  }

  /** Taking whole lists keeps every descriptor in as many places as before. */
  lemma ListsMove(s: State, a: Action, i: nat)
    requires Enabled(s, a) && Consistent(s, i) && Subject(s, a) < 0
    ensures Placed(Apply(s, a), i)
  {
    hide LifeOf, Logged, Count, Select, CompleteCookie, Flowing, StatusOf, CookieOf, Lives;
    ListFacts(s, 0, i);
    IdleIsEmpty(s, i);
    if a.IrqTakesWork? {
      SelectSplits(s.work, a.seen, i);
    }
  }

  lemma IdleIsEmpty(s: State, i: nat)
    requires Flowing(s, i)
    ensures s.phase == Idle ==> Count(s.local, i) == 0
  {
  }

  lemma StepKeepsLogged(s: State, a: Action, i: nat)
    requires Enabled(s, a) && Consistent(s, i) && !(a.IrqHandles? || a.FlushHandles?)
    requires Subject(s, a) >= 0 ==> Consistent(s, Subject(s, a))
    ensures Logged(Apply(s, a), i)
  {
    if a.ResubmitFails? {
      FailureKeepsLogged(s, a.id, i);
    } else if Subject(s, a) == i {
      OwnStepKeepsLogged(s, a);
    } else {
      OtherStepKeepsLogged(s, a, i);
    }
  }

  lemma OtherStepKeepsLogged(s: State, a: Action, i: nat)
    requires Enabled(s, a) && Consistent(s, i) && !(a.IrqHandles? || a.FlushHandles? || a.ResubmitFails?)
    requires Subject(s, a) != i
    ensures Logged(Apply(s, a), i)
  {
    hide LifeOf, Select, Count, Flowing, Placed;
    var d := Subject(s, a);
    if d >= 0 {
      ListFacts(s, d, i);
      OthersDoNotMatter(s, a, d, i);
    }
  }

  /** The event of an action on descriptor `d` does not change the life of another. */
  lemma OthersDoNotMatter(s: State, a: Action, d: nat, i: nat)
    requires Enabled(s, a) && Subject(s, a) == d != i && !(a.IrqHandles? || a.FlushHandles? || a.ResubmitFails?)
    ensures LifeOf(Apply(s, a).log, i) == LifeOf(s.log, i)
  {
    hide LifeOf, Lives;
    var log := Apply(s, a).log;
    if log != s.log {
      var e := log[|s.log|];
      assert log == s.log + [e] && e.id == d;
      LifeSnoc(s.log, e, i);
    }
  }

  lemma OwnStepKeepsLogged(s: State, a: Action)
    requires Enabled(s, a) && !(a.IrqHandles? || a.FlushHandles? || a.ResubmitFails?)
    requires Subject(s, a) >= 0 && Consistent(s, Subject(s, a))
    ensures Logged(Apply(s, a), Subject(s, a))
  {
    hide LifeOf, Select, Count;
    var d := Subject(s, a);
    ListFacts(s, d, d);
    var log := Apply(s, a).log;
    if log != s.log {
      var e := log[|s.log|];
      assert log == s.log + [e];
      LifeSnoc(s.log, e, d);
    }
  }

  lemma FailureKeepsLogged(s: State, d: nat, i: nat)
    requires Enabled(s, ResubmitFails(d)) && Consistent(s, i) && Consistent(s, d)
    ensures Logged(Apply(s, ResubmitFails(d)), i)
  {
    hide LifeOf, Select, Count;
    var c := CookieCompleted(d, CookieOf(s, d), WriteFailed);
    LifeSnoc(s.log, c, i);
    LifeSnoc(s.log + [c], Freed(d), i);
  }

  lemma StepKeepsFlowing(s: State, a: Action, i: nat)
    requires Enabled(s, a) && Consistent(s, i) && !(a.IrqHandles? || a.FlushHandles?)
    requires Subject(s, a) >= 0 ==> Consistent(s, Subject(s, a))
    ensures Flowing(Apply(s, a), i)
  {
    hide LifeOf, Logged, Count, Select, CompleteCookie;
    var d := if Subject(s, a) >= 0 then Subject(s, a) else 0;
    ListFacts(s, d, i);
    if a.IrqTakesWork? {
      SelectSplits(s.work, a.seen, i);
    }
    if a.ResubmitFails? {
      CookieKeepsPlaces(s.(reentering := s.reentering - {d}, status := s.status[d := Abort]), d);
    }
  }

  /** How often `i` occurs in the lists that handling the first local descriptor can make. */
  lemma PopFacts(s: State, i: nat)
    requires s.local != []
    ensures Count(s.local, i) == Held(s.local[0] == i) + Count(s.local[1..], i)
    ensures Count(s.work + [s.local[0]], i) == Count(s.work, i) + Held(s.local[0] == i)
    ensures Count(s.resubmit + [s.local[0]], i) == Count(s.resubmit, i) + Held(s.local[0] == i)
  {
    ListFacts(s, s.local[0], i);
  }

  /** Completing a cookie touches only the cookie and the log. */
  lemma CookieKeepsPlaces(s: State, d: nat)
    ensures var t := CompleteCookie(s, d); t == s.(cookie := t.cookie, log := t.log)
  {
  }

  /** Handling a local descriptor moves it to the work list or to the resubmission queue, or frees it. */
  lemma HandlingMoves(s: State, a: Action)
    requires Enabled(s, a) && (a.IrqHandles? || a.FlushHandles?)
    ensures var d, t := s.local[0], Apply(s, a);
      && t.client == s.client && t.entering == s.entering && t.reentering == s.reentering
      && t.pending == s.pending && t.local == s.local[1..]
      && (|| (t.used == s.used && t.work == s.work + [d] && t.resubmit == s.resubmit)
          || (t.used == s.used && t.work == s.work && t.resubmit == s.resubmit + [d])
          || (t.used == s.used - {d} && t.work == s.work && t.resubmit == s.resubmit))
  {
    hide CompleteCookie;
    CookieKeepsPlaces(s.(local := s.local[1..]), s.local[0]);
  }

  lemma HandlingKeepsPlaced(s: State, a: Action, i: nat)
    requires Enabled(s, a) && (a.IrqHandles? || a.FlushHandles?)
    requires Consistent(s, i) && Consistent(s, s.local[0])
    ensures Placed(Apply(s, a), i)
  {
    hide LifeOf, Logged, Count, Flowing, Apply;
    PopFacts(s, i);
    HandlingMoves(s, a);
    if i == s.local[0] {
      assert Count(s.local[1..], i) == 0 && i in s.used;
    }
  }

  lemma HandlingKeepsFlowing(s: State, a: Action, i: nat)
    requires Enabled(s, a) && (a.IrqHandles? || a.FlushHandles?)
    requires Consistent(s, i) && Consistent(s, s.local[0])
    ensures Flowing(Apply(s, a), i)
  {
    hide LifeOf, Logged, Count, CompleteCookie;
    PopFacts(s, i);
    PopFacts(s, s.local[0]);
    CookieKeepsPlaces(s.(local := s.local[1..]), s.local[0]);
  }

  lemma HandlingKeepsLogged(s: State, a: Action, i: nat)
    requires Enabled(s, a) && (a.IrqHandles? || a.FlushHandles?)
    requires Consistent(s, i) && Consistent(s, s.local[0])
    ensures Logged(Apply(s, a), i)
  {
    hide LifeOf, Count, Select;
    var d := s.local[0];
    PopFacts(s, i);
    PopFacts(s, d);
    var c := CookieCompleted(d, CookieOf(s, d), ResultOf(StatusOf(s, d)));
    LifeSnoc(s.log, Requeued(d), i);
    LifeSnoc(s.log, c, i);
    LifeSnoc(s.log + [c], Freed(d), i);
  }

  /** What the interrupt thread does with a descriptor it holds, by its status. */
  lemma HandlingByStatus(s: State, requeue: bool)
    requires Inv(s) && Enabled(s, IrqHandles(requeue))
    ensures var d, t, c := s.local[0], Apply(s, IrqHandles(requeue)), CookieOf(s, s.local[0]);
      && t.local == s.local[1..]
      && (StatusOf(s, d) == Zero ==> t.work == s.work + [d] && t.log == s.log)
      && (StatusOf(s, d) == HandleInvalid && requeue ==> t.resubmit == s.resubmit + [d] && t.log == s.log + [Requeued(d)])
      && (StatusOf(s, d) == HandleInvalid && !requeue ==> t.log == s.log + [CookieCompleted(d, c, WriteFailed), Freed(d)])
      && (StatusOf(s, d) == OtherError ==> t.log == s.log + [CookieCompleted(d, c, WriteFailed), Freed(d)])
      && (StatusOf(s, d) == Success ==> t.log == s.log + [CookieCompleted(d, c, NoError), Freed(d)])
  {
    hide LifeOf;
    var d := s.local[0];
    assert Consistent(s, d);
    assert Count(s.local, d) > 0;
    assert s.log + [CookieCompleted(d, CookieOf(s, d), NoError), Freed(d)]
        == s.log + [CookieCompleted(d, CookieOf(s, d), NoError)] + [Freed(d)];
    assert s.log + [CookieCompleted(d, CookieOf(s, d), WriteFailed), Freed(d)]
        == s.log + [CookieCompleted(d, CookieOf(s, d), WriteFailed)] + [Freed(d)];
  }

  // ---------------------------------------------------------------------------------------------
  // One pass of the interrupt thread
  // ---------------------------------------------------------------------------------------------

  /** The thread handles all that it holds, one after the other. */
  function HandleAll(s: State, requeue: bool): State
    requires s.phase == FromWork || s.phase == FromPending
    decreases |s.local|
  {
    if s.local == [] then s
    else
      HandlingShrinks(s, requeue);
      HandleAll(Apply(s, IrqHandles(requeue)), requeue)
  }

  lemma HandlingShrinks(s: State, requeue: bool)
    requires Enabled(s, IrqHandles(requeue))
    ensures var t := Apply(s, IrqHandles(requeue));
      t.local == s.local[1..] && t.phase == s.phase && t.status == s.status && t.pending == s.pending
    ensures var t := Apply(s, IrqHandles(requeue));
      t.work == if s.phase == FromPending && StatusOf(s, s.local[0]) == Zero then s.work + [s.local[0]] else s.work
  {
    HandlingMoves(s, IrqHandles(requeue));
  }

  lemma {:induction false} HandleAllWork(s: State, requeue: bool, i: nat)
    requires s.phase == FromWork || s.phase == FromPending
    ensures var t := HandleAll(s, requeue);
      && t.local == [] && t.phase == s.phase && t.status == s.status && t.pending == s.pending
      && Count(t.work, i) == Count(s.work, i) + if s.phase == FromPending && StatusOf(s, i) == Zero then Count(s.local, i) else 0
    decreases |s.local|
  {
    hide Apply, Count;
    if s.local != [] {
      HandlingShrinks(s, requeue);
      HandleAllWork(Apply(s, IrqHandles(requeue)), requeue, i);
      PopFacts(s, i);
    } else {
      NothingCounts(i);
    }
  }

  lemma NothingCounts(i: nat)
    ensures Count([], i) == 0
  {
  }

  /** The thread takes the finished descriptors off the work list, handles them, then does the same with the
      pending list. */
  function Pass(s: State, requeue: bool): State
    requires s.phase == Idle
  {
    var seen := set i | i in s.work && StatusOf(s, i) != Zero;
    var first := Apply(s, IrqTakesWork(seen));
    HandleAllWork(first, requeue, 0);
    var second := Apply(HandleAll(first, requeue), IrqTakesPending);
    HandleAllWork(second, requeue, 0);
    Apply(HandleAll(second, requeue), IrqEnds)
  }

  lemma {:induction false} CountIsMember(list: seq<nat>, i: nat)
    ensures Count(list, i) > 0 <==> i in list
  {
    if list != [] {
      CountIsMember(list[1..], i);
    }
  }

  /** A pass that the device leaves alone handles every finished descriptor on the lists, and leaves the unfinished
      ones on the work list, each as often as before. */
  lemma PassLeavesUnfinished(s: State, requeue: bool, i: nat)
    requires s.phase == Idle
    ensures var t := Pass(s, requeue);
      && t.phase == Idle && t.pending == [] && t.local == []
      && Count(t.work, i) == if StatusOf(s, i) == Zero then Count(s.work, i) + Count(s.pending, i) else 0
  {
    hide Count, Select, HandleAll;
    var seen := set i | i in s.work && StatusOf(s, i) != Zero;
    var first := Apply(s, IrqTakesWork(seen));
    SelectSplits(s.work, seen, i);
    HandleAllWork(first, requeue, i);
    HandleAllWork(first, requeue, 0);
    var second := Apply(HandleAll(first, requeue), IrqTakesPending);
    HandleAllWork(second, requeue, i);
    HandleAllWork(second, requeue, 0);
    CountIsMember(s.work, i);
  }

  // ---------------------------------------------------------------------------------------------
  // All runs
  // ---------------------------------------------------------------------------------------------

  predicate Possible(s: State, run: seq<Action>)
    decreases |run|
  {
    run != [] ==> Enabled(s, run[0]) && Possible(Apply(s, run[0]), run[1..])
  }

  function After(s: State, run: seq<Action>): State
    requires Possible(s, run)
    decreases |run|
  {
    if run == [] then s else After(Apply(s, run[0]), run[1..])
  }

  lemma {:induction false} RunKeepsInv(s: State, run: seq<Action>)
    requires Possible(s, run) && Inv(s)
    ensures Inv(After(s, run))
    decreases |run|
  {
    hide Inv;
    if run != [] {
      StepKeepsInv(s, run[0]);
      RunKeepsInv(Apply(s, run[0]), run[1..]);
    }
  }

  /** In every interleaving each descriptor is in exactly one place while its bitmap bit is set and in none
      otherwise, and its events are well-formed lives. */
  lemma EveryRunIsClean(run: seq<Action>, i: nat)
    requires Possible(INITIAL, run)
    ensures var s := After(INITIAL, run);
      Places(s, i) == Held(i in s.used) && LifeOf(s.log, i) == ExpectedLife(s, i) != Broken
  {
    assert Inv(INITIAL);
    RunKeepsInv(INITIAL, run);
    assert Consistent(After(INITIAL, run), i);
  }

  lemma {:induction false} UnbrokenBefore(log: seq<Event>, i: nat, k: nat)
    requires k <= |log| && LifeOf(log, i) != Broken
    ensures LifeOf(log[..k], i) != Broken
    decreases |log|
  {
    if k < |log| {
      var front := log[..|log| - 1];
      UnbrokenBefore(front, i, k);
      assert front[..k] == log[..k];
    } else {
      assert log[..k] == log;
    }
  }

  lemma LifeAt(log: seq<Event>, i: nat, k: nat)
    requires k < |log|
    ensures LifeOf(log[..k + 1], i) == if log[k].id == i then Lives(LifeOf(log[..k], i), log[k]) else LifeOf(log[..k], i)
  {
    assert log[..k + 1][..k] == log[..k];
  }

  predicate CompletedWithin(log: seq<Event>, i: nat, p: nat, k: nat)
    requires k <= |log|
  {
    exists r :: p < r < k && log[r].CookieCompleted? && log[r].id == i
  }

  /** Accepted with a cookie that is still to be completed. */
  predicate InFlight(l: Life) {
    l.Submitted? || l.Ended? || l.Queued?
  }

  lemma {:induction false} InFlightUntilCompleted(log: seq<Event>, i: nat, p: nat, k: nat)
    requires p < k <= |log| && LifeOf(log, i) != Broken
    requires log[p].Accepted? && log[p].id == i && !CompletedWithin(log, i, p, k)
    ensures var l := LifeOf(log[..k], i); InFlight(l) && l.cookie == log[p].cookie
    decreases k
  {
    hide LifeOf;
    UnbrokenBefore(log, i, k);
    LifeAt(log, i, k - 1);
    if k > p + 1 {
      assert !CompletedWithin(log, i, p, k - 1);
      InFlightUntilCompleted(log, i, p, k - 1);
    }
  }

  /** Between the acceptance of a submission and the next allocation of its index its cookie is completed. */
  lemma CompletedBeforeReuse(run: seq<Action>, i: nat, p: nat, q: nat)
    requires Possible(INITIAL, run)
    requires var log := After(INITIAL, run).log;
      p < q < |log| && log[p].Accepted? && log[p].id == i && log[q] == Alloced(i)
    ensures var log := After(INITIAL, run).log;
      exists r :: p < r < q && log[r].CookieCompleted? && log[r].id == i && log[r].cookie == log[p].cookie
  {
    EveryRunIsClean(run, i);
    hide LifeOf, After, Possible;
    var log := After(INITIAL, run).log;
    if !CompletedWithin(log, i, p, q) {
      InFlightUntilCompleted(log, i, p, q);
      UnbrokenBefore(log, i, q + 1);
      LifeAt(log, i, q);
      assert false;
    } else {
      var r := FirstCompletion(log, i, p, q);
      InFlightUntilCompleted(log, i, p, r);
      UnbrokenBefore(log, i, r + 1);
      LifeAt(log, i, r);
    }
  }

  lemma {:induction false} LifeBetween(log: seq<Event>, i: nat, p: nat, k: nat)
    requires p < k <= |log| && forall r :: p < r < k ==> log[r].id != i
    ensures LifeOf(log[..k], i) == LifeOf(log[..p + 1], i)
    decreases k
  {
    hide LifeOf;
    if k > p + 1 {
      LifeAt(log, i, k - 1);
      LifeBetween(log, i, p, k - 1);
    }
  }

  /** What happens next to a descriptor after the device has ended it: a job that ended well is reported as such,
      one with an invalid interrupt handle is resubmitted or reported as failed, and any other is reported as
      failed. Nothing else is ever reported as having ended well. */
  lemma EndedIsReported(run: seq<Action>, i: nat, p: nat, q: nat)
    requires Possible(INITIAL, run)
    requires var log := After(INITIAL, run).log;
      p < q < |log| && log[p].id == log[q].id == i && forall r :: p < r < q ==> log[r].id != i
    ensures var log := After(INITIAL, run).log;
      && (log[p].DeviceEnded? ==>
            || (log[q].CookieCompleted? && log[q].result == if log[p].status == Success then NoError else WriteFailed)
            || (log[q] == Requeued(i) && log[p].status == HandleInvalid))
      && (log[q].CookieCompleted? && log[q].result == NoError ==> log[p] == DeviceEnded(i, Success))
      && (log[q] == Requeued(i) ==> log[p] == DeviceEnded(i, HandleInvalid))
  {
    EveryRunIsClean(run, i);
    hide LifeOf, After, Possible;
    var log := After(INITIAL, run).log;
    UnbrokenBefore(log, i, p + 1);
    LifeAt(log, i, p);
    LifeBetween(log, i, p, q);
    UnbrokenBefore(log, i, q + 1);
    LifeAt(log, i, q);
  }

  lemma {:induction false} FirstCompletion(log: seq<Event>, i: nat, p: nat, k: nat) returns (r: nat)
    requires k <= |log| && CompletedWithin(log, i, p, k)
    ensures p < r < k && log[r].CookieCompleted? && log[r].id == i && !CompletedWithin(log, i, p, r)
    decreases k
  {
    if CompletedWithin(log, i, p, k - 1) {
      r := FirstCompletion(log, i, p, k - 1);
    } else {
      r := k - 1;
    }
  }

  /** No cookie is completed twice: between two completions for an index lies a new acceptance. */
  lemma CompletedOnce(run: seq<Action>, i: nat, p: nat, q: nat)
    requires Possible(INITIAL, run)
    requires var log := After(INITIAL, run).log;
      p < q < |log| && log[p].CookieCompleted? && log[q].CookieCompleted? && log[p].id == log[q].id == i
    ensures var log := After(INITIAL, run).log;
      exists r :: p < r < q && log[r].Accepted? && log[r].id == i
  {
    EveryRunIsClean(run, i);
    hide After, Possible, LifeOf;
    var log := After(INITIAL, run).log;
    if forall r :: p < r < q ==> !(log[r].Accepted? && log[r].id == i) {
      NoneUntilAccepted(log, i, p, q);
      UnbrokenBefore(log, i, q + 1);
      LifeAt(log, i, q);
      assert false;
    }
  }

  lemma {:induction false} NoneUntilAccepted(log: seq<Event>, i: nat, p: nat, k: nat)
    requires p < k <= |log| && LifeOf(log, i) != Broken
    requires log[p].CookieCompleted? && log[p].id == i
    requires forall r :: p < r < k ==> !(log[r].Accepted? && log[r].id == i)
    ensures !InFlight(LifeOf(log[..k], i))
    decreases k
  {
    hide LifeOf;
    UnbrokenBefore(log, i, k);
    LifeAt(log, i, k - 1);
    if k > p + 1 {
      NoneUntilAccepted(log, i, p, k - 1);
    }
  }

  function Balance(log: seq<Event>, i: nat): int {
    if log == [] then 0
    else
      var before, e := Balance(log[..|log| - 1], i), log[|log| - 1];
      if e == Alloced(i) then before + 1 else if e == Freed(i) then before - 1 else before
  }

  lemma {:induction false} BalanceOfLife(log: seq<Event>, i: nat)
    requires LifeOf(log, i) != Broken
    ensures Balance(log, i) == if LifeOf(log, i) == Free then 0 else 1
    decreases |log|
  {
    if log != [] {
      UnbrokenBefore(log, i, |log| - 1);
      BalanceOfLife(log[..|log| - 1], i);
    }
  }

  /** Every allocation is freed exactly once: allocations exceed frees by one while the bit is set, else by none. */
  lemma FreedOncePerAllocation(run: seq<Action>, i: nat)
    requires Possible(INITIAL, run)
    ensures Balance(After(INITIAL, run).log, i) == Held(i in After(INITIAL, run).used)
  {
    EveryRunIsClean(run, i);
    BalanceOfLife(After(INITIAL, run).log, i);
  }
}
