/** Revocation of a queue's interrupt handle against concurrent submitters: the handle is replaced under a
    killable reference count, and submitters that find the count dead wait to be resurrected. Each `Action` is
    one atomic section; any number of submitters and one holder of the queue's mutex interleave. */
module IntHandle {

  type Handle = int
  const INVALID_INT_HANDLE: Handle := -1

  /** What a successful handle request returns. */
  type ValidHandle = h: Handle | h != INVALID_INT_HANDLE witness 0

  /** Where one submitter is inside `idxd_submit_desc`. */
  datatype Submitter =
    | Outside
    | Waiting              // the reference was dead; waiting for wq_resurrect
    | Woken                // released, about to try once more
    | Inside               // holds a reference
    | Loaded(carried: Handle)   // the descriptor carries the handle and is on the pending list
    | Sent                 // portal written, reference still held

  /** Where the mutex holder is: a revocation towards a new handle, or a quiesce. */
  datatype Admin =
    | Unlocked
    | Cleared(next: ValidHandle)     // wq_resurrect re-initialised
    | Killed(next: ValidHandle)      // reference killed, waiting for wq_dead
    | Quiet(next: ValidHandle)       // every submitter has left
    | Changed                   // handle replaced
    | Revived                   // reference live again, waiters not yet released
    | QuiesceCleared
    | QuiesceKilled
    | QuiesceReleased           // waiters released, waiting for wq_dead
    | Gone                      // quiesced for good

  datatype Portal = Portal(carried: Handle, current: Handle)

  datatype State = State(
    handle: Handle,
    dead: bool,                 // the reference count has been killed
    resurrect: bool,            // wq_resurrect is complete
    admin: Admin,
    submitters: map<nat, Submitter>,
    portal: seq<Portal>)        // handle in each submitted descriptor, and the queue's handle at that moment

  function At(s: State, t: nat): Submitter {
    if t in s.submitters then s.submitters[t] else Outside
  }

  predicate Holds(p: Submitter) {
    p.Inside? || p.Loaded? || p.Sent?
  }

  ghost predicate NoHolder(s: State) {
    forall t: nat :: !Holds(At(s, t))
  }

  datatype Action =
    | TryGet(t: nat) | Wake(t: nat) | TryAgain(t: nat) | Load(t: nat) | Issue(t: nat) | Put(t: nat)
    | Clear(next: ValidHandle) | Kill | SeeDead | Change | Revive | CompleteAll
    | QuiesceClear | QuiesceKill | QuiesceComplete | QuiesceSeeDead

  ghost predicate Enabled(s: State, a: Action) {
    match a
    case TryGet(t) => At(s, t).Outside?
    case Wake(t) => At(s, t).Waiting? && s.resurrect
    case TryAgain(t) => At(s, t).Woken?
    case Load(t) => At(s, t).Inside?
    case Issue(t) => At(s, t).Loaded?
    case Put(t) => At(s, t).Sent?
    case Clear(_) => s.admin.Unlocked?
    case Kill => s.admin.Cleared?
    case SeeDead => s.admin.Killed? && NoHolder(s)
    case Change => s.admin.Quiet?
    case Revive => s.admin.Changed?
    case CompleteAll => s.admin.Revived?
    case QuiesceClear => s.admin.Unlocked?
    case QuiesceKill => s.admin.QuiesceCleared?
    case QuiesceComplete => s.admin.QuiesceKilled?
    case QuiesceSeeDead => s.admin.QuiesceReleased? && NoHolder(s)
  }

  function Goes(s: State, t: nat, p: Submitter): State {
    s.(submitters := s.submitters[t := p])
  }

  ghost function Apply(s: State, a: Action): State
    requires Enabled(s, a)
  {
    match a
    case TryGet(t) => Goes(s, t, if s.dead then Waiting else Inside)
    case Wake(t) => Goes(s, t, Woken)
    case TryAgain(t) => Goes(s, t, if s.dead then Outside else Inside)
    case Load(t) => Goes(s, t, Loaded(s.handle))
    case Issue(t) => Goes(s.(portal := s.portal + [Portal(At(s, t).carried, s.handle)]), t, Sent)
    case Put(t) => Goes(s, t, Outside)
    case Clear(next) => s.(resurrect := false, admin := Cleared(next))
    case Kill => s.(dead := true, admin := Killed(s.admin.next))
    case SeeDead => s.(admin := Quiet(s.admin.next))
    case Change => s.(handle := s.admin.next, admin := Changed)
    case Revive => s.(dead := false, admin := Revived)
    case CompleteAll => s.(resurrect := true, admin := Unlocked)
    case QuiesceClear => s.(resurrect := false, admin := QuiesceCleared)
    case QuiesceKill => s.(dead := true, admin := QuiesceKilled)
    case QuiesceComplete => s.(resurrect := true, admin := QuiesceReleased)
    case QuiesceSeeDead => s.(admin := Gone)
  }

  /** An enabled queue: the reference live, nobody inside. `wq_resurrect` starts incomplete. */
  function Initial(handle: ValidHandle): State {
    State(handle, false, false, Unlocked, map[], [])
  }

  /** A `complete_all` is still to come from whoever holds the mutex. */
  predicate ReleaseDue(m: Admin) {
    m.Cleared? || m.Killed? || m.Quiet? || m.Changed? || m.Revived? || m.QuiesceCleared? || m.QuiesceKilled?
  }

  ghost predicate Inv(s: State) {
    && (s.dead <==> s.admin.Killed? || s.admin.Quiet? || s.admin.Changed? || s.admin.QuiesceKilled? || s.admin.QuiesceReleased? || s.admin.Gone?)
    && (s.admin.Quiet? || s.admin.Changed? || s.admin.Gone? ==> NoHolder(s))
    && (s.admin.QuiesceReleased? || s.admin.Gone? ==> s.resurrect)
    && (forall t: nat :: At(s, t).Loaded? ==> At(s, t).carried == s.handle)
    && (forall t: nat :: At(s, t).Waiting? ==> s.resurrect || ReleaseDue(s.admin))
    && (ReleaseDue(s.admin) ==> !s.resurrect)
    && (s.handle == INVALID_INT_HANDLE ==> Sealed(s))
    && PortalRight(s)
  }

  /** Nobody can send the present handle any more: the reference is dead, it is not about to be revived, and
      whoever still holds one has sent. */
  ghost predicate Sealed(s: State) {
    s.dead && !s.admin.Changed? && forall t: nat :: !At(s, t).Inside? && !At(s, t).Loaded?
  }

  /** Every descriptor was sent with the queue's handle of that moment, and the handle was valid. */
  ghost predicate PortalRight(s: State) {
    forall k :: 0 <= k < |s.portal| ==> s.portal[k].carried == s.portal[k].current != INVALID_INT_HANDLE
  }

  lemma StepKeepsInv(s: State, a: Action)
    requires Inv(s) && Enabled(s, a)
    ensures Inv(Apply(s, a))
  {
    var u := Apply(s, a);
    forall t: nat
      ensures At(u, t).Loaded? ==> At(u, t).carried == u.handle
      ensures At(u, t).Waiting? ==> u.resurrect || ReleaseDue(u.admin)
      ensures u.admin.Quiet? || u.admin.Changed? || u.admin.Gone? ==> !Holds(At(u, t))
      ensures u.handle == INVALID_INT_HANDLE ==> !At(u, t).Inside? && !At(u, t).Loaded?
    {
      assert At(s, t).Loaded? ==> At(s, t).carried == s.handle;
      assert At(s, t).Waiting? ==> s.resurrect || ReleaseDue(s.admin);
    }
  }

  ghost predicate Possible(s: State, run: seq<Action>)
    decreases |run|
  {
    run != [] ==> Enabled(s, run[0]) && Possible(Apply(s, run[0]), run[1..])
  }

  ghost function After(s: State, run: seq<Action>): State
    requires Possible(s, run)
    decreases |run|
  {
    if run == [] then s else After(Apply(s, run[0]), run[1..])
  }

  lemma {:induction false} RunKeepsInv(s: State, run: seq<Action>)
    requires Possible(s, run) && Inv(s)
    ensures Inv(After(s, run))
    decreases |run|
  {
    if run != [] {
      StepKeepsInv(s, run[0]);
      RunKeepsInv(Apply(s, run[0]), run[1..]);
    }
  }

  /** In every interleaving each descriptor reaches the portal with the queue's handle of that moment, and it is
      a valid one. */
  lemma PortalSeesCurrentHandle(handle: ValidHandle, run: seq<Action>, k: nat)
    requires Possible(Initial(handle), run) && k < |After(Initial(handle), run).portal|
    ensures var p := After(Initial(handle), run).portal[k]; p.carried == p.current != INVALID_INT_HANDLE
  {
    RunKeepsInv(Initial(handle), run);
  }

  /** The handle changes only while no submitter is between taking and dropping its reference. */
  lemma HandleChangesInQuiet(handle: ValidHandle, run: seq<Action>, a: Action)
    requires Possible(Initial(handle), run) && Enabled(After(Initial(handle), run), a)
    ensures var s := After(Initial(handle), run);
      Apply(s, a).handle != s.handle ==> NoHolder(s) && s.dead
  {
    RunKeepsInv(Initial(handle), run);
  }

  /** The handle that the queue is to have once the revocation in progress, if any, has changed it. */
  function Target(s: State): Handle {
    match s.admin
    case Cleared(n) => n
    case Killed(n) => n
    case Quiet(n) => n
    case _ => s.handle
  }

  /** The handle of the last revocation in a run, or `h` if there was none. */
  function LastRequested(h: Handle, run: seq<Action>): Handle
    decreases |run|
  {
    if run == [] then h
    else if run[|run| - 1].Clear? then run[|run| - 1].next
    else LastRequested(h, run[..|run| - 1])
  }

  lemma {:induction false} LastRequestedTail(h: Handle, run: seq<Action>)
    requires run != []
    ensures LastRequested(h, run) == LastRequested(if run[0].Clear? then run[0].next else h, run[1..])
    decreases |run|
  {
    var front := run[..|run| - 1];
    if |run| > 1 {
      LastRequestedTail(h, front);
      assert front[1..] == run[1..][..|run| - 2];
    } else {
      assert run[1..] == [] && front == [];
    }
  }

  lemma {:induction false} TargetFollows(s: State, run: seq<Action>)
    requires Possible(s, run)
    ensures Target(After(s, run)) == LastRequested(Target(s), run)
    decreases |run|
  {
    if run != [] {
      LastRequestedTail(Target(s), run);
      TargetFollows(Apply(s, run[0]), run[1..]);
    }
  }

  /** A revocation installs the handle it was given: whenever nobody holds the mutex, and from the change on, the
      queue's handle is that of the last revocation, however the submitters interleaved. */
  lemma RevocationInstalls(handle: ValidHandle, run: seq<Action>)
    requires Possible(Initial(handle), run)
    ensures var s := After(Initial(handle), run);
      s.admin.Unlocked? || s.admin.Changed? || s.admin.Revived? ==> s.handle == LastRequested(handle, run)
  {
    TargetFollows(Initial(handle), run);
  }

  /** Nobody is released too early: in every run a waiter is released only when the reference is live again, or the
      queue has been quiesced for good. */
  lemma ReleasedOnlyAfterwards(handle: ValidHandle, run: seq<Action>, t: nat)
    requires Possible(Initial(handle), run) && Enabled(After(Initial(handle), run), Wake(t))
    ensures var s := After(Initial(handle), run); s.dead ==> s.admin.QuiesceReleased? || s.admin.Gone?
  {
    RunKeepsInv(Initial(handle), run);
  }

  /** While the reference is live, a submitter that comes, or comes back after its release, gets through: it sends
      with the present handle and returns. */
  lemma SubmitterGetsThrough(s: State, t: nat)
    requires !s.dead && (At(s, t).Outside? || At(s, t).Woken?)
    ensures var run := [if At(s, t).Outside? then TryGet(t) else TryAgain(t), Load(t), Issue(t), Put(t)];
      && Possible(s, run)
      && After(s, run).portal == s.portal + [Portal(s.handle, s.handle)] && At(After(s, run), t).Outside?
  {
    var first := if At(s, t).Outside? then TryGet(t) else TryAgain(t);
    var s1 := Apply(s, first);
    var s2 := Apply(s1, Load(t));
    var s3 := Apply(s2, Issue(t));
    var s4 := Apply(s3, Put(t));
    assert Possible(s4, []) && After(s4, []) == s4;
    Prefixed(s3, Put(t), []);
    Prefixed(s2, Issue(t), [Put(t)]);
    Prefixed(s1, Load(t), [Issue(t), Put(t)]);
    Prefixed(s, first, [Load(t), Issue(t), Put(t)]);
    assert [Put(t)] + [] == [Put(t)] && [Issue(t)] + [Put(t)] == [Issue(t), Put(t)];
    assert [Load(t)] + [Issue(t), Put(t)] == [Load(t), Issue(t), Put(t)];
    assert [first] + [Load(t), Issue(t), Put(t)] == [first, Load(t), Issue(t), Put(t)];
  }

  // ---------------------------------------------------------------------------------------------
  // Nobody waits for ever
  // ---------------------------------------------------------------------------------------------

  /** A step that somebody is bound to take: everything but a newcomer's first attempt and the start of
      another revocation or quiesce. */
  predicate Due(a: Action) {
    !a.TryGet? && !a.Clear? && !a.QuiesceClear?
  }

  ghost predicate Finished(s: State) {
    forall a :: Due(a) ==> !Enabled(s, a)
  }

  /** However the due steps interleave, they come to an end; and whenever none is left, every submitter has
      returned, and each one that was waiting has been released. */
  lemma {:induction false} WaitersAreReleased(s: State, run: seq<Action>)
    requires Inv(s) && Possible(s, run)
    requires forall k :: 0 <= k < |run| ==> Due(run[k])
    ensures |run| + StepsDue(After(s, run)) <= StepsDue(s)
    ensures Finished(After(s, run)) ==> forall t: nat :: At(After(s, run), t).Outside?
    ensures Finished(After(s, run)) ==> forall t: nat :: At(s, t).Waiting? ==> Wake(t) in run
    decreases |run|
  {
    if run == [] {
      if Finished(s) {
        FinishedIsEmpty(s);
      }
    } else {
      StepKeepsInv(s, run[0]);
      DueStepCounts(s, run[0]);
      WaitersAreReleased(Apply(s, run[0]), run[1..]);
      forall t: nat | At(s, t).Waiting? && Finished(After(s, run))
        ensures Wake(t) in run
      {
        assert At(Apply(s, run[0]), t).Waiting? || run[0] == Wake(t);
        assert Wake(t) in run[1..] ==> Wake(t) in run;
      }
    }
  }

  lemma FinishedIsEmpty(s: State)
    requires Inv(s) && Finished(s)
    ensures forall t: nat :: At(s, t).Outside?
  {
    forall t: nat
      ensures At(s, t).Outside? || At(s, t).Waiting?
    {
      assert !Enabled(s, TryAgain(t)) && !Enabled(s, Load(t)) && !Enabled(s, Issue(t)) && !Enabled(s, Put(t));
    }
    assert NoHolder(s);
    assert !Enabled(s, Kill) && !Enabled(s, SeeDead) && !Enabled(s, Change) && !Enabled(s, Revive) && !Enabled(s, CompleteAll);
    assert !Enabled(s, QuiesceKill) && !Enabled(s, QuiesceComplete) && !Enabled(s, QuiesceSeeDead);
    forall t: nat
      ensures At(s, t).Outside?
    {
      assert !Enabled(s, Wake(t));
      assert At(s, t).Waiting? ==> s.resurrect || ReleaseDue(s.admin);
    }
  }

  /** How many steps the mutex holder has left. */
  function Rank(m: Admin): nat {
    match m
    case Cleared(_) => 5
    case Killed(_) => 4
    case Quiet(_) => 3
    case Changed => 2
    case Revived => 1
    case QuiesceCleared => 3
    case QuiesceKilled => 2
    case QuiesceReleased => 1
    case _ => 0
  }

  function StepsLeft(p: Submitter): nat {
    match p
    case Waiting => 5
    case Woken => 4
    case Inside => 3
    case Loaded(_) => 2
    case Sent => 1
    case Outside => 0
  }

  /** A bound on the due steps of the mutex holder and of all submitters. */
  ghost function StepsDue(s: State): nat {
    Rank(s.admin) + Total(s, s.submitters.Keys)
  }

  ghost function Total(s: State, ts: set<nat>): nat
    decreases |ts|
  {
    if ts == {} then 0
    else
      var t :| t in ts;
      StepsLeft(At(s, t)) + Total(s, ts - {t})
  }

  lemma {:induction false} TotalRemoves(s: State, ts: set<nat>, h: nat)
    requires h in ts
    ensures Total(s, ts) == StepsLeft(At(s, h)) + Total(s, ts - {h})
    decreases |ts|
  {
    var t :| t in ts && Total(s, ts) == StepsLeft(At(s, t)) + Total(s, ts - {t});
    if t != h {
      TotalRemoves(s, ts - {t}, h);
      TotalRemoves(s, ts - {h}, t);
      assert ts - {t} - {h} == ts - {h} - {t};
    }
  }

  lemma {:induction false} TotalAgrees(s: State, u: State, ts: set<nat>)
    requires forall t :: t in ts ==> At(s, t) == At(u, t)
    ensures Total(s, ts) == Total(u, ts)
    decreases |ts|
  {
    if ts != {} {
      var t :| t in ts;
      TotalRemoves(s, ts, t);
      TotalRemoves(u, ts, t);
      TotalAgrees(s, u, ts - {t});
    }
  }

  lemma DueStepCounts(s: State, a: Action)
    requires Enabled(s, a) && Due(a)
    ensures StepsDue(Apply(s, a)) < StepsDue(s)
  {
    var u, ts := Apply(s, a), s.submitters.Keys;
    match a
    case Wake(t) => SubmitterAdvances(s, u, t);
    case TryAgain(t) => SubmitterAdvances(s, u, t);
    case Load(t) => SubmitterAdvances(s, u, t);
    case Issue(t) => SubmitterAdvances(s, u, t);
    case Put(t) => SubmitterAdvances(s, u, t);
    case _ => TotalAgrees(s, u, ts);
  }

  lemma SubmitterAdvances(s: State, u: State, t: nat)
    requires t in s.submitters && u.submitters == s.submitters[t := At(u, t)]
    requires StepsLeft(At(u, t)) < StepsLeft(At(s, t)) && u.admin == s.admin
    ensures StepsDue(u) < StepsDue(s)
  {
    var ts := s.submitters.Keys;
    assert u.submitters.Keys == ts;
    TotalRemoves(s, ts, t);
    TotalRemoves(u, ts, t);
    TotalAgrees(s, u, ts - {t});
  }

  // ---------------------------------------------------------------------------------------------
  // The branch for a failed handle request
  // ---------------------------------------------------------------------------------------------

  /** When no new handle can be obtained, the code invalidates the handle first and quiesces afterwards. */
  function FailHandle(s: State): State {
    s.(handle := INVALID_INT_HANDLE)
  }

  /** Taken at a reachable state, that branch lets only current, valid handles reach the portal in every
      continuation exactly when nobody can send any more: the reference is already dead and not about to be
      revived, and no submitter has yet to send. */
  lemma FailedRequestKeepsPromiseIff(s: State)
    requires Inv(s) && s.handle != INVALID_INT_HANDLE
    ensures (forall run :: Possible(FailHandle(s), run) ==> PortalRight(After(FailHandle(s), run))) <==> Sealed(s)
  {
    var u := FailHandle(s);
    assert forall t: nat :: At(u, t) == At(s, t);
    if Sealed(s) {
      forall run | Possible(u, run)
        ensures PortalRight(After(u, run))
      {
        RunKeepsInv(u, run);
      }
    } else {
      var run := PromiseBroken(s);
      assert Possible(u, run) && !PortalRight(After(u, run));
    }
  }

  /** A continuation of the failed request that sends an outdated or an invalid handle: of a submitter that has
      still to send, or else of a newcomer. */
  lemma PromiseBroken(s: State) returns (run: seq<Action>)
    requires Inv(s) && !Sealed(s)
    ensures Possible(FailHandle(s), run) && !PortalRight(After(FailHandle(s), run))
  {
    var u := FailHandle(s);
    if t: nat :| At(s, t).Loaded? {
      run := SendsInvalid(u, t);
    } else if t: nat :| At(s, t).Inside? {
      run := SendsInvalid(u, t);
    } else {
      var t := Newcomer(s.submitters.Keys);
      var v := if s.dead then Apply(u, Revive) else u;
      run := SendsInvalid(Apply(v, TryGet(t)), t);
      Prefixed(v, TryGet(t), run);
      run := [TryGet(t)] + run;
      if s.dead {
        Prefixed(u, Revive, run);
        run := [Revive] + run;
      }
    }
  }

  lemma SendsInvalid(s: State, t: nat) returns (run: seq<Action>)
    requires s.handle == INVALID_INT_HANDLE && (At(s, t).Inside? || At(s, t).Loaded?)
    ensures Possible(s, run) && !PortalRight(After(s, run))
  {
    var u := if At(s, t).Inside? then Apply(s, Load(t)) else s;
    var sent := Apply(u, Issue(t));
    assert sent.portal[|s.portal|].current == INVALID_INT_HANDLE;
    run := [];
    assert Possible(sent, run) && After(sent, run) == sent;
    Prefixed(u, Issue(t), run);
    run := [Issue(t)] + run;
    if At(s, t).Inside? {
      Prefixed(s, Load(t), run);
      run := [Load(t)] + run;
    }
  }

  lemma Prefixed(s: State, a: Action, run: seq<Action>)
    requires Enabled(s, a) && Possible(Apply(s, a), run)
    ensures Possible(s, [a] + run) && After(s, [a] + run) == After(Apply(s, a), run)
  {
    assert ([a] + run)[1..] == run;
  }

  lemma {:induction false} Newcomer(ts: set<nat>) returns (t: nat)
    ensures forall u :: u in ts ==> u < t
    decreases |ts|
  {
    if ts == {} {
      return 0;
    }
    var u :| u in ts;
    t := Newcomer(ts - {u});
    assert forall v :: v in ts ==> v == u || v in ts - {u};
    if t <= u {
      t := u + 1;
    }
  }
}
