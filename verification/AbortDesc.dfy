/** Aborting a descriptor whose submission to a shared queue was refused: it is taken off the pending or the work
    list, and the completed descriptors met on the way are completed. */
module AbortDesc {
  import opened Basics

  /** One call of `idxd_dma_complete_txd`: on which descriptor, and whether it frees it. */
  datatype Completion = Completion(id: nat, frees: bool)

  /** The other descriptors of the pending list that already have a status, in list order. */
  function Finished(pending: seq<nat>, desc: nat, done: nat -> bool): seq<nat>
    decreases |pending|
  {
    if pending == [] then []
    else
      var last := pending[|pending| - 1];
      var before := Finished(pending[..|pending| - 1], desc, done);
      if last != desc && done(last) then before + [last] else before
  }

  function Unfinished(pending: seq<nat>, desc: nat, done: nat -> bool): seq<nat>
    decreases |pending|
  {
    if pending == [] then []
    else
      var last := pending[|pending| - 1];
      var before := Unfinished(pending[..|pending| - 1], desc, done);
      if last != desc && !done(last) then before + [last] else before
  }

  function Without(list: seq<nat>, desc: nat): seq<nat> {
    if list == [] then [] else if list[0] == desc then list[1..] else [list[0]] + Without(list[1..], desc)
  }

  /** The driver's completions for an abort that found its descriptor: first the descriptor itself, then, for each
      finished one, the same descriptor again. */
  function Actual(desc: nat, finished: seq<nat>): seq<Completion> {
    [Completion(desc, false)] + seq(|finished|, _ => Completion(desc, true))
  }

  /** Every descriptor taken off the lists completed once. */
  function Intended(desc: nat, finished: seq<nat>): seq<Completion> {
    [Completion(desc, false)] + seq(|finished|, k requires 0 <= k < |finished| => Completion(finished[k], true))
  }

  /** `llist_abort_desc`. `crashes` tells that the code would follow a null pointer. */
  method LlistAbortDesc(desc: nat, pending: seq<nat>, work: seq<nat>, done: nat -> bool)
    returns (workList: seq<nat>, completions: seq<Completion>, crashes: bool)
    ensures desc in pending || desc in work ==> !crashes && completions == Actual(desc, Finished(pending, desc, done))
    ensures desc !in pending && desc !in work ==>
      completions == [] && (crashes <==> Finished(pending, desc, done) != [])
    ensures desc in pending ==> workList == work + Unfinished(pending, desc, done)
    ensures desc !in pending ==> workList == Without(work + Unfinished(pending, desc, done), desc)
    ensures KeepsUnfinished(workList, work, pending, desc, done) && Removed(workList, work, pending, desc)
  {
    hide KeepsUnfinished, Removed, Finished, Unfinished, Actual;
    FirstOf(pending, desc, done, 0);
    WorkListKeeps(work, pending, desc, done);
    var found: Option<nat> := None;
    var flist: seq<nat> := [];
    workList := work;
    for i := 0 to |pending|
      invariant found == if desc in pending[..i] then Some(desc) else None
      invariant flist == Finished(pending[..i], desc, done)
      invariant workList == work + Unfinished(pending[..i], desc, done)
    {
      FirstOf(pending, desc, done, i);
      var d := pending[i];
      if d == desc {
        found := Some(desc);
      } else if done(d) {
        flist := flist + [d];
      } else {
        workList := workList + [d];
      }
    }
    assert pending[..|pending|] == pending;
    UnfinishedOthers(pending, desc, done);
    if found == None {
      if desc in workList {
        found := Some(desc);
      }
      workList := Without(workList, desc);
      WithoutNothing(work + Unfinished(pending, desc, done), desc);
    }
    completions, crashes := [], false;
    if found.Some? {
      completions := [Completion(found.value, false)];
    }
    ActualGrows(desc, flist, 0);
    for i := 0 to |flist|
      invariant found.Some? ==> !crashes && completions == Actual(desc, flist[..i])
      invariant found.None? ==> completions == [] && (crashes <==> i > 0)
    {
      ActualGrows(desc, flist, i);
      if found.Some? {
        completions := completions + [Completion(found.value, true)];
      } else {
        crashes := true;
      }
    }
    assert flist[..|flist|] == flist;
  }

  lemma FirstOf(pending: seq<nat>, desc: nat, done: nat -> bool, i: nat)
    requires i <= |pending|
    ensures Finished([], desc, done) == Unfinished([], desc, done) == [] && pending[..0] == []
    ensures i < |pending| ==>
      var d, f, u := pending[i], Finished(pending[..i], desc, done), Unfinished(pending[..i], desc, done);
      && Finished(pending[..i + 1], desc, done) == (if d != desc && done(d) then f + [d] else f)
      && Unfinished(pending[..i + 1], desc, done) == (if d != desc && !done(d) then u + [d] else u)
      && (desc in pending[..i + 1] <==> desc in pending[..i] || d == desc)
  {
    if i < |pending| {
      assert pending[..i + 1][..i] == pending[..i];
    }
  }

  lemma ActualGrows(desc: nat, finished: seq<nat>, i: nat)
    requires i <= |finished|
    ensures finished[..0] == [] && Actual(desc, []) == [Completion(desc, false)]
    ensures i < |finished| ==> Actual(desc, finished[..i + 1]) == Actual(desc, finished[..i]) + [Completion(desc, true)]
  {
  }

  /** The aborted descriptor is completed first, without being freed, and then with being freed once for every
      finished one. */
  lemma ActualIs(desc: nat, finished: seq<nat>)
    ensures var all := Actual(desc, finished);
      && |all| == 1 + |finished| && all[0] == Completion(desc, false)
      && forall k :: 1 <= k < |all| ==> all[k] == Completion(desc, true)
  {
  }

  lemma {:induction false} UnfinishedOthers(pending: seq<nat>, desc: nat, done: nat -> bool)
    ensures desc !in Unfinished(pending, desc, done) && desc !in Finished(pending, desc, done)
    decreases |pending|
  {
    if pending != [] {
      UnfinishedOthers(pending[..|pending| - 1], desc, done);
    }
  }

  /** `a` is what remains of `b` when some elements are taken out; the order is kept. */
  predicate Subsequence(a: seq<nat>, b: seq<nat>)
    decreases |b|
  {
    || a == []
    || (b != [] && Subsequence(a, b[..|b| - 1]))
    || (b != [] && a[|a| - 1] == b[|b| - 1] && Subsequence(a[..|a| - 1], b[..|b| - 1]))
  }

  lemma {:induction false} SubsequenceItself(a: seq<nat>)
    ensures Subsequence(a, a)
    decreases |a|
  {
    if a != [] {
      SubsequenceItself(a[..|a| - 1]);
    }
  }

  lemma {:induction false} SubsequenceUnfinished(work: seq<nat>, pending: seq<nat>, desc: nat, done: nat -> bool)
    ensures Subsequence(work + Unfinished(pending, desc, done), work + pending)
    decreases |pending|
  {
    if pending == [] {
      assert work + pending == work && work + Unfinished(pending, desc, done) == work;
      SubsequenceItself(work);
    } else {
      var front, last := pending[..|pending| - 1], pending[|pending| - 1];
      var before := Unfinished(front, desc, done);
      SubsequenceUnfinished(work, front, desc, done);
      assert (work + pending)[..|work + pending| - 1] == work + front;
      assert work + (before + [last]) == (work + before) + [last];
    }
  }

  lemma {:induction false} SubsequenceWithout(a: seq<nat>, b: seq<nat>, desc: nat)
    requires Subsequence(a, b)
    ensures Subsequence(Without(a, desc), b)
    decreases |b|
  {
    if a != [] {
      var front := a[..|a| - 1];
      WithoutLast(a, desc);
      if Subsequence(a, b[..|b| - 1]) {
        SubsequenceWithout(a, b[..|b| - 1], desc);
      } else if desc in front {
        SubsequenceWithout(front, b[..|b| - 1], desc);
        var w := Without(front, desc) + [a[|a| - 1]];
        assert w[..|w| - 1] == Without(front, desc);
      } else if a[|a| - 1] != desc {
        assert Without(a, desc) == a;
      }
    }
  }

  lemma {:induction false} WithoutLast(a: seq<nat>, desc: nat)
    requires a != []
    ensures var front, last := a[..|a| - 1], a[|a| - 1];
      Without(a, desc) == if desc in front then Without(front, desc) + [last] else if last == desc then front else a
  {
    var front, last := a[..|a| - 1], a[|a| - 1];
    if |a| == 1 {
      assert a[1..] == [] && front == [];
    } else if a[0] == desc {
      assert front[0] == desc && a[1..] == front[1..] + [last];
    } else {
      WithoutLast(a[1..], desc);
      assert a[1..][..|a| - 2] == front[1..] && front[0] == a[0];
      assert desc in front <==> desc in front[1..];
      assert front == [a[0]] + front[1..];
      assert a == [a[0]] + a[1..];
    }
  }

  lemma {:induction false} WithoutCounts(list: seq<nat>, desc: nat, id: nat)
    ensures multiset(Without(list, desc))[id] == multiset(list)[id] - if id == desc && desc in list then 1 else 0
  {
    if list != [] {
      assert list == [list[0]] + list[1..];
      WithoutCounts(list[1..], desc, id);
    }
  }

  lemma {:induction false} UnfinishedCounts(pending: seq<nat>, desc: nat, done: nat -> bool, id: nat)
    ensures multiset(Unfinished(pending, desc, done))[id] == if id == desc || done(id) then 0 else multiset(pending)[id]
    decreases |pending|
  {
    if pending != [] {
      var front, last := pending[..|pending| - 1], pending[|pending| - 1];
      UnfinishedCounts(front, desc, done, id);
      assert pending == front + [last];
    }
  }

  lemma {:induction false} FinishedCounts(pending: seq<nat>, desc: nat, done: nat -> bool, id: nat)
    ensures multiset(Finished(pending, desc, done))[id] == if id != desc && done(id) then multiset(pending)[id] else 0
    decreases |pending|
  {
    if pending != [] {
      var front, last := pending[..|pending| - 1], pending[|pending| - 1];
      FinishedCounts(front, desc, done, id);
      assert pending == front + [last];
    }
  }

  /** Of the other descriptors every unfinished one taken off `list` goes on the work list, as often as before and
      in the old order. */
  ghost predicate KeepsUnfinished(workList: seq<nat>, work: seq<nat>, list: seq<nat>, desc: nat, done: nat -> bool) {
    && Subsequence(workList, work + list)
    && forall id :: id != desc ==>
         multiset(workList)[id] == multiset(work)[id] + if done(id) then 0 else multiset(list)[id]
  }

  /** A descriptor that was on one of the lists once is on the work list no more. */
  ghost predicate Removed(workList: seq<nat>, work: seq<nat>, list: seq<nat>, desc: nat) {
    multiset(work)[desc] + multiset(list)[desc] <= 1 ==> desc !in workList
  }

  ghost predicate SameCount(workList: seq<nat>, work: seq<nat>, desc: nat) {
    multiset(workList)[desc] == multiset(work)[desc]
  }

  /** Every finished descriptor and the aborted one is freed as often as it was on the list, and no other. */
  ghost predicate FreesFinished(completions: seq<Completion>, list: seq<nat>, desc: nat, done: nat -> bool) {
    forall id :: FreesIn(completions, id) == if id == desc || done(id) then multiset(list)[id] else 0
  }

  lemma ThreadFreesFinished(held: seq<nat>, desc: nat, done: nat -> bool)
    ensures FreesFinished(ThreadCompletions(held, desc, done), held, desc, done)
  {
    forall id ensures FreesIn(ThreadCompletions(held, desc, done), id) == if id == desc || done(id) then multiset(held)[id] else 0 {
      FreesByThread(held, desc, done, id);
    }
  }

  lemma InIsCounted(list: seq<nat>, id: nat)
    ensures id in list <==> id in multiset(list)
  {
  }

  lemma WorkListKeeps(work: seq<nat>, pending: seq<nat>, desc: nat, done: nat -> bool)
    ensures var all := work + Unfinished(pending, desc, done);
      && KeepsUnfinished(all, work, pending, desc, done) && KeepsUnfinished(Without(all, desc), work, pending, desc, done)
      && SameCount(all, work, desc) && Removed(Without(all, desc), work, pending, desc)
      && (desc in pending ==> Removed(all, work, pending, desc))
  {
    hide Subsequence;
    var all := work + Unfinished(pending, desc, done);
    SubsequenceUnfinished(work, pending, desc, done);
    SubsequenceWithout(all, work + pending, desc);
    forall id
      ensures multiset(all)[id] == multiset(work)[id] + (if id == desc || done(id) then 0 else multiset(pending)[id])
      ensures multiset(Without(all, desc))[id] == multiset(all)[id] - if id == desc && desc in all then 1 else 0
    {
      UnfinishedCounts(pending, desc, done, id);
      WithoutCounts(all, desc, id);
    }
    InIsCounted(all, desc);
    InIsCounted(pending, desc);
    InIsCounted(Without(all, desc), desc);
  }

  lemma {:induction false} WithoutNothing(list: seq<nat>, desc: nat)
    ensures desc !in list ==> Without(list, desc) == list
  {
    if list != [] {
      WithoutNothing(list[1..], desc);
    }
  }

  /** An abort completes the right descriptors exactly when no other descriptor on the pending list has finished. */
  lemma AbortRightIff(desc: nat, pending: seq<nat>, done: nat -> bool)
    ensures var finished := Finished(pending, desc, done);
      Actual(desc, finished) == Intended(desc, finished) <==> NoOtherFinished(desc, pending, done)
  {
    var finished := Finished(pending, desc, done);
    UnfinishedOthers(pending, desc, done);
    FinishedEmptyIff(pending, desc, done);
    if finished != [] {
      assert Actual(desc, finished)[1] == Completion(desc, true) && Intended(desc, finished)[1] == Completion(finished[0], true);
    }
  }

  lemma {:induction false} FinishedEmptyIff(pending: seq<nat>, desc: nat, done: nat -> bool)
    ensures Finished(pending, desc, done) == [] <==> NoOtherFinished(desc, pending, done)
    decreases |pending|
  {
    if pending != [] {
      var front, last := pending[..|pending| - 1], pending[|pending| - 1];
      FinishedEmptyIff(front, desc, done);
      assert forall k :: 0 <= k < |front| ==> front[k] == pending[k];
      if Finished(front, desc, done) == [] && !(last != desc && done(last)) {
        forall k | 0 <= k < |pending| && pending[k] != desc ensures !done(pending[k]) {
          if k < |front| {
            assert front[k] == pending[k];
          }
        }
      }
    }
  }

  // ---------------------------------------------------------------------------------------------
  // How often the refused descriptor is freed
  // ---------------------------------------------------------------------------------------------

  /** How often a run of completions frees a descriptor. */
  function FreesIn(completions: seq<Completion>, id: nat): nat
    decreases |completions|
  {
    if completions == [] then 0
    else
      var last := completions[|completions| - 1];
      FreesIn(completions[..|completions| - 1], id) + if last.id == id && last.frees then 1 else 0
  }

  /** The interrupt thread completes and frees what it holds that has a status: the finished descriptors, and the
      aborted one. */
  function ThreadCompletions(held: seq<nat>, desc: nat, done: nat -> bool): seq<Completion>
    decreases |held|
  {
    if held == [] then []
    else
      var last := held[|held| - 1];
      var before := ThreadCompletions(held[..|held| - 1], desc, done);
      if last == desc || done(last) then before + [Completion(last, true)] else before
  }

  /** `irq_process_pending_llist` after an abort, on the descriptors that the thread had already taken off the
      pending list. */
  method IrqProcessPending(held: seq<nat>, work: seq<nat>, desc: nat, done: nat -> bool)
    returns (workList: seq<nat>, completions: seq<Completion>)
    ensures completions == ThreadCompletions(held, desc, done)
    ensures workList == work + Unfinished(held, desc, done)
    ensures KeepsUnfinished(workList, work, held, desc, done) && SameCount(workList, work, desc)
    ensures FreesFinished(completions, held, desc, done)
  {
    hide KeepsUnfinished, SameCount, FreesFinished;
    WorkListKeeps(work, held, desc, done);
    ThreadFreesFinished(held, desc, done);
    workList, completions := work, [];
    for i := 0 to |held|
      invariant completions == ThreadCompletions(held[..i], desc, done)
      invariant workList == work + Unfinished(held[..i], desc, done)
    {
      assert held[..i + 1][..i] == held[..i];
      if held[i] == desc || done(held[i]) {
        completions := completions + [Completion(held[i], true)];
      } else {
        workList := workList + [held[i]];
      }
    }
    assert held[..|held|] == held;
  }

  /** A refused submission, whose descriptor is on the pending list, on the work list, or held by the interrupt
      thread: the abort, the thread's pass over what it holds, and the submitter's free after the error. */
  method RefusedSubmission(desc: nat, pending: seq<nat>, work: seq<nat>, held: seq<nat>, done: nat -> bool)
    returns (frees: nat, crashes: bool)
    requires multiset(pending + work + held)[desc] == 1
    ensures crashes <==> desc in held && !NoOtherFinished(desc, pending, done)
    ensures !crashes ==> (frees == 1 <==> desc !in held && NoOtherFinished(desc, pending, done))
    ensures !crashes ==> frees == if desc in held then 2 else |Finished(pending, desc, done)| + 1
  {
    var workList, aborted;
    workList, aborted, crashes := LlistAbortDesc(desc, pending, work, done);
    FinishedEmptyIff(pending, desc, done);
    assert multiset(pending + work + held)[desc] == multiset(pending)[desc] + multiset(work)[desc] + multiset(held)[desc];
    if crashes {
      return 0, true;
    }
    var _, processed := IrqProcessPending(held, workList, desc, done);
    frees := FreesIn(aborted, desc) + FreesIn(processed, desc) + 1;
    FreesByAbort(desc, Finished(pending, desc, done), desc);
    FreesByThread(held, desc, done, desc);
  }

  ghost predicate NoOtherFinished(desc: nat, pending: seq<nat>, done: nat -> bool) {
    forall k :: 0 <= k < |pending| && pending[k] != desc ==> !done(pending[k])
  }

  /** The abort frees its descriptor once for every finished one it meets, and none of those. */
  lemma FreesByAbort(desc: nat, finished: seq<nat>, id: nat)
    ensures FreesIn(Actual(desc, finished), id) == if id == desc then |finished| else 0
    decreases |finished|
  {
    var all := Actual(desc, finished);
    if finished == [] {
      assert all[..0] == [];
    } else {
      var front := finished[..|finished| - 1];
      FreesByAbort(desc, front, id);
      assert all[..|all| - 1] == Actual(desc, front);
    }
  }

  lemma {:induction false} FreesByThread(held: seq<nat>, desc: nat, done: nat -> bool, id: nat)
    ensures FreesIn(ThreadCompletions(held, desc, done), id) == if id == desc || done(id) then multiset(held)[id] else 0
    decreases |held|
  {
    if held != [] {
      var front, last := held[..|held| - 1], held[|held| - 1];
      var before := ThreadCompletions(front, desc, done);
      FreesByThread(front, desc, done, id);
      assert held == front + [last];
      assert (before + [Completion(last, true)])[..|before|] == before;
    }
  }

  /** The finished descriptors that an abort takes off the pending list are never freed, though each of them
      was meant to be: the abort does not free them, and they are on no list on which anyone could find them. */
  lemma FinishedAreLeaked(desc: nat, pending: seq<nat>, work: seq<nat>, done: nat -> bool, id: nat)
    requires id in Finished(pending, desc, done) && id !in work
    ensures var finished := Finished(pending, desc, done);
      FreesIn(Actual(desc, finished), id) == 0 < FreesIn(Intended(desc, finished), id)
    ensures var workList := work + Unfinished(pending, desc, done);
      id !in workList && id !in Without(workList, desc)
  {
    var finished := Finished(pending, desc, done);
    UnfinishedOthers(pending, desc, done);
    FinishedAreTaken(pending, desc, done, id);
    WithoutIsPart(work + Unfinished(pending, desc, done), desc, id);
    FreesByAbort(desc, finished, id);
    FreesIntended(desc, finished, id);
  }

  lemma {:induction false} FinishedAreTaken(pending: seq<nat>, desc: nat, done: nat -> bool, id: nat)
    ensures id in Finished(pending, desc, done) ==> done(id)
    ensures id in Unfinished(pending, desc, done) ==> !done(id)
    decreases |pending|
  {
    if pending != [] {
      FinishedAreTaken(pending[..|pending| - 1], desc, done, id);
    }
  }

  lemma {:induction false} WithoutIsPart(list: seq<nat>, desc: nat, id: nat)
    ensures id in Without(list, desc) ==> id in list
  {
    if list != [] {
      WithoutIsPart(list[1..], desc, id);
    }
  }

  lemma {:induction false} FreesIntended(desc: nat, finished: seq<nat>, id: nat)
    ensures FreesIn(Intended(desc, finished), id) == multiset(finished)[id]
    decreases |finished|
  {
    var all := Intended(desc, finished);
    if finished == [] {
      assert all[..0] == [];
    } else {
      var front, last := finished[..|finished| - 1], finished[|finished| - 1];
      FreesIntended(desc, front, id);
      assert finished == front + [last];
      assert all[..|all| - 1] == Intended(desc, front);
    }
  }
}
