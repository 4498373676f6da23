/** Fault work of the event log: completion records that the device could not write are copied to user memory by
    the driver, and a batch one of whose records got lost is reported as failed. */
module FaultWork {
  import opened Basics

  // ---------------------------------------------------------------------------------------------
  // Copying a completion record
  // ---------------------------------------------------------------------------------------------

  /** `m` with the bytes `data` stored at `at`. */
  function Stored(m: seq<Byte>, at: nat, data: seq<Byte>): (r: seq<Byte>)
    requires at + |data| <= |m|
    ensures |r| == |m|
  {
    seq(|m|, i requires 0 <= i < |m| => if at <= i < at + |data| then data[i - at] else m[i])
  }

  lemma StoredNext(m: seq<Byte>, at: nat, data: seq<Byte>, b: Byte)
    requires at + |data| < |m|
    ensures Stored(m, at, data + [b]) == Stored(m, at, data)[at + |data| := b]
  {
  }

  /** A reader that polls the status byte sees it non-zero only next to the rest of the record. */
  predicate SeesWholeRecord(m: seq<Byte>, addr: nat, cr: seq<Byte>)
    requires 0 < |cr| && addr + |cr| <= |m|
  {
    m[addr] != 0 ==> m[addr + 1..addr + |cr|] == cr[1..]
  }

  /** `idxd_copy_cr`: stores everything but the status byte, then the status byte. The first store past
      `bodyRoom` bytes faults, and the status store faults if `statusFaults`. `states` are the memory contents
      that a concurrent reader may see, in order. */
  method CopyCr(user: array<Byte>, addr: nat, cr: seq<Byte>, hasContext: bool, bodyRoom: nat, statusFaults: bool)
    returns (copied: nat, ghost states: seq<seq<Byte>>)
    requires 0 < |cr| && addr + |cr| <= user.Length
    modifies user
    ensures forall k :: 0 <= k < |states| ==> |states[k]| == user.Length
    ensures old(user[addr]) == 0 ==> forall k :: 0 <= k < |states| ==> SeesWholeRecord(states[k], addr, cr)
    ensures states != [] && states[|states| - 1] == user[..]
    ensures copied == if !hasContext then 0 else if bodyRoom < |cr| - 1 then bodyRoom else if statusFaults then |cr| - 1 else |cr|
    ensures forall i :: 0 <= i < user.Length ==>
      user[i] == if addr + 1 <= i < addr + 1 + copied && i < addr + |cr| then cr[i - addr]
                 else if i == addr && copied == |cr| then cr[0] else old(user[i])
    ensures copied < |cr| ==> user[..] == Stored(old(user[..]), addr + 1, cr[1..copied + 1])
    ensures copied == |cr| ==> user[..] == Stored(old(user[..]), addr, cr)
  {
    hide Stored;
    ghost var was := user[..];
    StoredParts(was, addr, cr);
    states := [was];
    copied := 0;
    if !hasContext {
      CellsStored(was, was, addr, cr, 0);
      return;
    }
    var left := |cr| - 1;
    ghost var now := was;
    while left > 0 && |cr| - 1 - left < bodyRoom
      invariant 0 <= left <= |cr| - 1 && |cr| - 1 - left <= bodyRoom
      invariant user[..] == now == Stored(was, addr + 1, cr[1..|cr| - left]) && now[addr] == was[addr]
      invariant forall k :: 0 <= k < |states| ==> |states[k]| == user.Length && states[k][addr] == was[addr]
      invariant states != [] && states[|states| - 1] == now
    {
      ghost var i := |cr| - left;
      user[addr + |cr| - left] := cr[|cr| - left];
      assert user[..] == now[addr + i := cr[i]];
      now := now[addr + i := cr[i]];
      StoredNext(was, addr + 1, cr[1..i], cr[i]);
      assert cr[1..i] + [cr[i]] == cr[1..i + 1];
      left := left - 1;
      states := states + [now];
    }
    if left == 0 && !statusFaults {
      user[addr] := cr[0];
      assert user[..] == now[addr := cr[0]];
      now := now[addr := cr[0]];
      states := states + [now];
    } else {
      left := left + 1;
    }
    copied := |cr| - left;
    CellsStored(was, now, addr, cr, copied);
    assert forall i :: 0 <= i < user.Length ==> user[i] == now[i];
  }

  lemma StoredParts(was: seq<Byte>, addr: nat, cr: seq<Byte>)
    requires 0 < |cr| && addr + |cr| <= |was|
    ensures Stored(was, addr + 1, cr[1..1]) == was && cr[1..|cr|] == cr[1..]
    ensures Stored(was, addr + 1, cr[1..])[addr := cr[0]] == Stored(was, addr, cr)
    ensures SeesWholeRecord(Stored(was, addr, cr), addr, cr)
  {
  }

  lemma CellsStored(was: seq<Byte>, now: seq<Byte>, addr: nat, cr: seq<Byte>, copied: nat)
    requires 0 < |cr| && addr + |cr| <= |was| && copied <= |cr|
    requires copied < |cr| ==> now == Stored(was, addr + 1, cr[1..copied + 1])
    requires copied == |cr| ==> now == Stored(was, addr, cr)
    ensures |now| == |was| && forall i :: 0 <= i < |was| ==>
      now[i] == if addr + 1 <= i < addr + 1 + copied && i < addr + |cr| then cr[i - addr]
                else if i == addr && copied == |cr| then cr[0] else was[i]
  {
  }

  // ---------------------------------------------------------------------------------------------
  // Batches
  // ---------------------------------------------------------------------------------------------

  const MAX_BATCH_IDENT := 256
  const COMP_SUCCESS := 1
  const COMP_BATCH_FAIL := 5

  type BatchId = b: nat | b < MAX_BATCH_IDENT

  datatype Record = Record(status: nat, result: nat, payload: nat)

  datatype Code = CraXlat | BatchEvlErr | DrainEvl | Unrecognized

  /** One fault entry, and whether copying its record to the user succeeds. */
  datatype Event = Event(code: Code, batch: bool, firstErrInBatch: bool, batchId: BatchId, rcr: bool, cr: Record,
                         copyWorks: bool)

  /** A completion write of batch `b` got lost. */
  predicate Loses(e: Event, b: BatchId) {
    e.code.CraXlat? && e.batch && e.batchId == b && !e.copyWorks
  }

  /** The accounts of batch `b` start anew: its first error, or its own record, is handled. */
  predicate Restarts(e: Event, b: BatchId) {
    e.batchId == b && ((e.code.CraXlat? && e.batch && e.firstErrInBatch) || e.code.BatchEvlErr?)
  }

  predicate Clean(events: seq<Event>, b: BatchId, j: nat)
    requires j < |events|
  {
    forall k :: j < k < |events| ==> !Restarts(events[k], b)
  }

  /** Some completion write of batch `b` got lost since the batch last started anew. */
  predicate LostSinceRestart(events: seq<Event>, b: BatchId) {
    exists j :: 0 <= j < |events| && Loses(events[j], b) && Clean(events, b, j)
  }

  /** The record of a failed batch: result 1, and a status other than success. */
  function ForcedFail(cr: Record): (r: Record)
    ensures r.result == 1 && r.status != COMP_SUCCESS && (cr.status != COMP_SUCCESS ==> r.status == cr.status)
  {
    cr.(status := if cr.status == COMP_SUCCESS then COMP_BATCH_FAIL else cr.status, result := 1)
  }

  /** What is copied to the user for event `e` after `past`. */
  function Delivery(past: seq<Event>, e: Event): Option<Record> {
    match e.code
    case CraXlat => Some(e.cr)
    case BatchEvlErr => if LostSinceRestart(past, e.batchId) then Some(ForcedFail(e.cr)) else if e.rcr then Some(e.cr) else None
    case DrainEvl => Some(e.cr)
    case Unrecognized => None
  }

  lemma LostSnoc(past: seq<Event>, e: Event, b: BatchId)
    ensures LostSinceRestart(past + [e], b) == (Loses(e, b) || (LostSinceRestart(past, b) && !Restarts(e, b)))
  {
    var all := past + [e];
    if Loses(e, b) {
      assert all[|past|] == e && Clean(all, b, |past|);
    }
    if LostSinceRestart(past, b) && !Restarts(e, b) {
      var j :| 0 <= j < |past| && Loses(past[j], b) && Clean(past, b, j);
      assert all[j] == past[j] && Clean(all, b, j);
    }
    if LostSinceRestart(all, b) && !Loses(e, b) {
      var j :| 0 <= j < |all| && Loses(all[j], b) && Clean(all, b, j);
      assert j < |past| && past[j] == all[j];
      assert !Restarts(all[|past|], b);
      forall k | j < k < |past| ensures !Restarts(past[k], b) {
        assert past[k] == all[k];
      }
      assert Clean(past, b, j);
    }
  }

  class EventLogFaults {
    const batchFail: array<bool>
    /** The events handled so far. */
    ghost var past: seq<Event>

    constructor ()
      ensures Valid() && past == [] && fresh(batchFail)
    {
      batchFail := new bool[MAX_BATCH_IDENT](_ => false);
      past := [];
    }

    /** Each flag says whether its batch has lost a completion write since it last started anew. */
    ghost predicate Valid()
      reads this, batchFail
    {
      batchFail.Length == MAX_BATCH_IDENT && forall b: BatchId :: batchFail[b] == LostSinceRestart(past, b)
    }

    /** `idxd_evl_fault_work` on one fault. */
    method EvlFaultWork(e: Event) returns (delivered: Option<Record>)
      requires Valid()
      modifies this`past, batchFail
      ensures Valid() && past == old(past) + [e]
      ensures delivered == Delivery(old(past), e)
      // what each kind of fault delivers
      ensures e.code.CraXlat? || e.code.DrainEvl? ==> delivered == Some(e.cr)
      ensures e.code.Unrecognized? ==> delivered == None
      ensures e.code.BatchEvlErr? && !LostSinceRestart(old(past), e.batchId) ==> delivered == if e.rcr then Some(e.cr) else None
      ensures e.code.BatchEvlErr? && LostSinceRestart(old(past), e.batchId) ==>
        && delivered.Some? && delivered.value.result == 1 && delivered.value.payload == e.cr.payload
        && delivered.value.status == if e.cr.status == 1 then 5 else e.cr.status
      // and what it does to the flags
      ensures forall b: BatchId ::
                batchFail[b] == if b != e.batchId then old(batchFail[b])
                                else if e.code.CraXlat? && e.batch then !e.copyWorks || (old(batchFail[b]) && !e.firstErrInBatch)
                                else if e.code.BatchEvlErr? then false
                                else old(batchFail[b])
    {
      forall b: BatchId { LostSnoc(past, e, b); }
      delivered := None;
      match e.code {
        case CraXlat =>
          if e.batch && e.firstErrInBatch {
            batchFail[e.batchId] := false;
          }
          delivered := Some(e.cr);
        case BatchEvlErr =>
          var failed := batchFail[e.batchId];
          if e.rcr || failed {
            delivered := Some(e.cr);
          }
          if failed {
            delivered := Some(e.cr.(status := if e.cr.status == COMP_SUCCESS then COMP_BATCH_FAIL else e.cr.status, result := 1));
            batchFail[e.batchId] := false;
          }
        case DrainEvl =>
          delivered := Some(e.cr);
        case Unrecognized =>
      }
      if delivered.Some? && e.code.CraXlat? && !e.copyWorks && e.batch {
        batchFail[e.batchId] := true;
      }
      past := past + [e];
    }
  }

  /** Events that concern other batches change nothing for batch `b`. */
  lemma {:induction false} OtherBatchesDoNotMatter(past: seq<Event>, others: seq<Event>, b: BatchId)
    requires forall k :: 0 <= k < |others| ==> others[k].batchId != b
    ensures LostSinceRestart(past + others, b) == LostSinceRestart(past, b)
    decreases |others|
  {
    if others == [] {
      assert past + others == past;
    } else {
      var front, last := others[..|others| - 1], others[|others| - 1];
      OtherBatchesDoNotMatter(past, front, b);
      assert past + others == (past + front) + [last];
      LostSnoc(past + front, last, b);
    }
  }
}
