/** The DTO library: memset, memcpy and memmove shared between the CPU and an accelerator that may refuse a
    job, stop at a page fault, or fail. */
module Dto {
  import opened Basics
  import opened Memory
  import opened Chunking

  type Positive = k: nat | k > 0 witness 1

  const ENQCMD_MAX_RETRIES := 3
  const UINT32_LIMIT := 0x1_0000_0000

  datatype ReturnCode = Success | Retries | PageFault | FailOthers

  /** How the device ends a job it has accepted. */
  datatype Status =
    | Completed
    | Faulted(done: nat)                // page fault after `done` bytes
    | Failed(scratch: nat -> Byte)      // any other error; what it may leave in the destination
    | Rejected                          // an error found before anything is written

  /** The device's answer to one submission: how often ENQCMD is refused first, and the end of the job. */
  datatype Answer = Answer(refusals: nat, status: Status)

  datatype Descriptor = CopyJob(dst: nat, src: nat, size: nat) | FillJob(dst: nat, pattern: Byte, size: nat)

  predicate Fits(d: Descriptor, length: nat) {
    d.dst + d.size <= length && (d.CopyJob? ==> d.src + d.size <= length)
  }

  /** The device copies downwards exactly when copying upwards would destroy source bytes. */
  predicate Backwards(d: Descriptor) {
    d.CopyJob? && d.src < d.dst < d.src + d.size
  }

  function BytesDone(d: Descriptor, status: Status): (k: nat)
    ensures k <= d.size
  {
    match status
    case Completed => d.size
    case Faulted(done) => if done <= d.size then done else d.size
    case Failed(_) => 0
    case Rejected => 0
  }

  /** Memory after the device has worked on a job. An error may leave anything in the destination, except
      that an overlapping copy that fails has written nothing. */
  function DeviceRun(m: seq<Byte>, d: Descriptor, status: Status): (r: seq<Byte>)
    requires Fits(d, |m|)
    ensures |r| == |m|
  {
    var k := BytesDone(d, status);
    if status.Rejected? then m
    else if status.Failed? then
      if d.CopyJob? && !Disjoint(d.dst, d.src, d.size) then m
      else seq(|m|, i requires 0 <= i < |m| => if d.dst <= i < d.dst + d.size then status.scratch(i) else m[i])
    else if d.FillJob? then Fill(m, d.dst, k, d.pattern)
    else if Backwards(d) then Move(m, d.dst + (d.size - k), d.src + (d.size - k), k)
    else Move(m, d.dst, d.src, k)
  }

  /** The CPU's share and the device's share may be worked on at the same time: they commute. */
  lemma CpuShareCommutes(m: seq<Byte>, dst: nat, src: nat, cpu: nat, size: nat, status: Status)
    requires dst + cpu + size <= |m| && src + cpu + size <= |m|
    requires Disjoint(dst, src, cpu + size)
    ensures var d := CopyJob(dst + cpu, src + cpu, size);
      DeviceRun(Move(m, dst, src, cpu), d, status) == Move(DeviceRun(m, d, status), dst, src, cpu)
  {
  }

  lemma CpuFillCommutes(m: seq<Byte>, dst: nat, c: Byte, cpu: nat, size: nat, status: Status)
    requires dst + cpu + size <= |m|
    ensures var d := FillJob(dst + cpu, c, size);
      DeviceRun(Fill(m, dst, cpu, c), d, status) == Fill(DeviceRun(m, d, status), dst, cpu, c)
  {
  }

  /** A fill chunk of which `k` bytes are done at worst leaves its own rest to be filled. */
  predicate FillLeft(was: seq<Byte>, now: seq<Byte>, s: nat, len: nat, k: nat, c: Byte) {
    && |was| == |now| && k <= len && s + len <= |was|
    && Fill(now, s + k, len - k, c) == Fill(was, s, len, c)
  }

  lemma FillChunkLeft(was: seq<Byte>, s: nat, c: Byte, cpu: nat, size: nat, status: Status)
    requires s + cpu + size <= |was|
    ensures var d := FillJob(s + cpu, c, size);
      FillLeft(was, DeviceRun(Fill(was, s, cpu, c), d, status), s, cpu + size, cpu + BytesDone(d, status), c)
  {
  }

  lemma NothingFilled(was: seq<Byte>, s: nat, n: nat, c: Byte)
    requires s + n <= |was|
    ensures FillLeft(was, was, s, n, 0, c)
  {
  }

  lemma FillLeftExtends(was: seq<Byte>, before: seq<Byte>, now: seq<Byte>, s: nat, done: nat, len: nat, k: nat, n: nat, c: Byte)
    requires done + len <= n && s + n <= |was|
    requires FillLeft(was, before, s, n, done, c)
    requires FillLeft(before, now, s + done, len, k, c)
    ensures FillLeft(was, now, s, n, done + k, c)
  {
    var whole, rest := Fill(was, s, n, c), Fill(before, s + done, n - done, c);
    forall i | 0 <= i < |was|
      ensures Fill(now, s + (done + k), n - (done + k), c)[i] == whole[i]
    {
      assert rest[i] == whole[i];
      assert Fill(now, s + done + k, len - k, c)[i] == Fill(before, s + done, len, c)[i];
    }
  }

  /** Only the destination of a job is ever written. */
  predicate Frame(was: seq<Byte>, now: seq<Byte>, dst: nat, n: nat) {
    |was| == |now| && forall i :: 0 <= i < |was| && !(dst <= i < dst + n) ==> now[i] == was[i]
  }

  predicate IsOverlappingBuffers(dest: nat, src: nat, n: nat) {
    !(dest + n < src || src + n < dest)
  }

  /** An address in a buffer of `n` bytes or right behind it. */
  predicate Reaches(a: nat, start: nat, n: nat) {
    start <= a <= start + n
  }

  /** Buffers that only touch count as overlapping, too. */
  lemma OverlappingIffShared(dest: nat, src: nat, n: nat)
    ensures IsOverlappingBuffers(dest, src, n) <==> exists a: nat :: Reaches(a, dest, n) && Reaches(a, src, n)
  {
    if IsOverlappingBuffers(dest, src, n) {
      var a := if dest < src then src else dest;
      assert Reaches(a, dest, n) && Reaches(a, src, n);
    }
  }

  function Times(j: nat, chunk: nat): nat {
    j * chunk
  }

  lemma TimesNext(j: nat, chunk: nat)
    ensures Times(0, chunk) == 0 && Times(j + 1, chunk) == Times(j, chunk) + chunk
  {
  }

  /** A call has submitted jobs of at most `limit` bytes. */
  predicate Bounded(was: seq<nat>, now: seq<nat>, limit: nat) {
    was <= now && forall k :: |was| <= k < |now| ==> now[k] <= limit
  }

  /** The jobs of a chunked copy: all at most `threshold` bytes, within `limit` if they fit, and the first one. */
  predicate JobsSoFar(was: seq<nat>, now: seq<nat>, threshold: nat, limit: nat, fits: bool, firstJob: nat) {
    && Bounded(was, now, threshold)
    && (fits ==> Bounded(was, now, limit))
    && (|was| < |now| ==> now[|was|] == firstJob)
  }

  lemma JobAdded(was: seq<nat>, now: seq<nat>, job: nat, threshold: nat, limit: nat, fits: bool, firstJob: nat)
    requires JobsSoFar(was, now, threshold, limit, fits, firstJob)
    requires job <= threshold && (fits ==> job <= limit) && (now == was ==> job == firstJob)
    ensures JobsSoFar(was, now + [job], threshold, limit, fits, firstJob)
  {
  }

  class Dto {
    const maxTransfer: Positive
    const useStdLibCalls: bool
    /** The device's answer to each submission. */
    const device: nat -> Answer
    /** What each read of `cpu_size_fraction` and `dsa_min_size` returns: the tuner of this or another thread
        may move them between any two reads. */
    const fraction: nat -> Fraction
    const minSize: nat -> Positive

    /** The address space. */
    var mem: seq<Byte>
    // thread-local state
    var desc: Descriptor
    var compResult: nat
    var bytesCompleted: nat
    // how many answers and knob values have been used up
    var submissions: nat
    var fractionReads: nat
    var minSizeReads: nat
    /** The transfer sizes handed to the device, and the chunks the last chunked copy has finished. */
    ghost var sizes: seq<nat>
    ghost var chunks: seq<nat>

    constructor (mem: seq<Byte>, maxTransfer: Positive, useStdLibCalls: bool, device: nat -> Answer,
                 fraction: nat -> Fraction, minSize: nat -> Positive, staleResult: nat)
      ensures this.mem == mem && this.device == device && this.fraction == fraction && this.minSize == minSize
      ensures this.maxTransfer == maxTransfer && this.useStdLibCalls == useStdLibCalls
      ensures submissions == fractionReads == minSizeReads == 0 && sizes == [] && compResult == staleResult
    {
      this.mem, this.maxTransfer, this.useStdLibCalls := mem, maxTransfer, useStdLibCalls;
      this.device, this.fraction, this.minSize := device, fraction, minSize;
      desc, compResult, bytesCompleted := FillJob(0, 0, 0), staleResult, 0;
      submissions, fractionReads, minSizeReads := 0, 0, 0;
      sizes, chunks := [], [];
    }

    /** Every threshold the chunk loops can compute fits the 32-bit variable that holds it. */
    ghost predicate Valid() {
      forall k :: Threshold(maxTransfer, fraction(k)) < UINT32_LIMIT
    }

    /** The device completes every job that is within its transfer limit. */
    ghost predicate CompletesWhatItCan() {
      forall k :: device(k).refusals < ENQCMD_MAX_RETRIES && device(k).status.Completed?
    }

    /** Submission `k`, of a job of `size` bytes, is accepted and completed. */
    predicate JobDone(k: nat, size: nat) {
      size <= maxTransfer && device(k).refusals < 3 && device(k).status.Completed?
    }

    /** Of an operation cut into chunks of `chunk` bytes, each job but the first has been submitted with at least as
        many bytes left as the offload minimum that was read before it. */
    ghost predicate OnlyAbove(size: nat, chunk: nat, jobs: int, least: nat) {
      forall j :: 0 < j < jobs ==> Times(j, chunk) + minSize(least + j - 1) <= size
    }

    /** Between two turns of a chunk loop: `jobs` full chunks are done, and the minimum was read after each. */
    ghost predicate Pace(size: nat, chunk: nat, jobs: int, done: nat, read: int, least: nat) {
      0 <= jobs == read && done == Times(jobs, chunk) && OnlyAbove(size, chunk, jobs + 1, least)
    }

    lemma PaceStarts(size: nat, chunk: nat, least: nat)
      ensures Pace(size, chunk, 0, 0, 0, least)
    {
    }

    lemma PaceNext(size: nat, chunk: nat, jobs: int, done: nat, read: int, least: nat)
      requires Pace(size, chunk, jobs, done, read, least)
      ensures jobs == read && OnlyAbove(size, chunk, jobs + 1, least)
      ensures done + chunk + minSize(least + jobs) <= size ==> Pace(size, chunk, jobs + 1, done + chunk, read + 1, least)
    {
      TimesNext(jobs, chunk);
    }

    ghost predicate AllDone(from: nat, to: nat) {
      forall k :: from <= k < to ==> device(k).refusals < 3 && device(k).status.Completed?
    }

    lemma OneMoreDone(from: nat, k: nat, size: nat)
      ensures AllDone(from, from)
      ensures AllDone(from, k) && JobDone(k, size) ==> AllDone(from, k + 1)
    {
    }

    /** What an operation on `size` bytes has handed to the device, since submission `from` and read `least` of the
        offload minimum: it goes on until a job is not completed, or less is left than that minimum. */
    ghost predicate Offloaded(result: ReturnCode, size: nat, from: nat, least: nat)
      reads this`submissions, this`sizes, this`bytesCompleted, this`minSizeReads
    {
      && from < submissions && sizes != []
      && AllDone(from, submissions - 1)
      && (result == Success <==> JobDone(submissions - 1, sizes[|sizes| - 1]))
      && (result == Success ==>
            bytesCompleted == size || (least < minSizeReads && size - bytesCompleted < minSize(minSizeReads - 1)))
    }

    /** The device's answer to a job of some size: beyond the transfer limit it is an error at once. */
    function Verdict(k: nat, size: nat): Answer {
      if size <= maxTransfer then device(k) else device(k).(status := Rejected)
    }

    /** The fraction is never again below what read `k` returns. */
    ghost predicate NeverBelow(k: nat) {
      forall j :: k < j ==> fraction(k) <= fraction(j)
    }

    method ReadFraction() returns (f: Fraction)
      modifies this`fractionReads
      ensures f == fraction(old(fractionReads)) && fractionReads == old(fractionReads) + 1
    {
      f := fraction(fractionReads);
      fractionReads := fractionReads + 1;
    }

    method ReadMinSize() returns (s: Positive)
      modifies this`minSizeReads
      ensures s == minSize(old(minSizeReads)) && minSizeReads == old(minSizeReads) + 1
    {
      s := minSize(minSizeReads);
      minSizeReads := minSizeReads + 1;
    }

    method DsaSubmit() returns (result: ReturnCode)
      modifies this`submissions, this`sizes
      ensures submissions == old(submissions) + 1 && sizes == old(sizes) + [desc.size]
      ensures result == if device(old(submissions)).refusals < 3 then Success else Retries
    {
      var answer := device(submissions);
      submissions := submissions + 1;
      sizes := sizes + [desc.size];
      for r := 0 to ENQCMD_MAX_RETRIES
        invariant r <= answer.refusals
      {
        if answer.refusals <= r {
          return Success;
        }
      }
      return Retries;
    }

    /** Waits for the last job; its effect on memory is complete when this returns. The completion record's
        `result` names the direction of a partial copy. */
    method DsaWait() returns (result: ReturnCode)
      requires submissions > 0 && Fits(desc, |mem|)
      modifies this`bytesCompleted, this`compResult, this`mem
      ensures var status := Verdict(submissions - 1, desc.size).status;
        && mem == DeviceRun(old(mem), desc, status)
        && compResult == (if status.Faulted? && Backwards(desc) then 1 else 0)
        && match status
           case Completed => result == Success && bytesCompleted == old(bytesCompleted) + desc.size
           case Faulted(done) => result == PageFault && bytesCompleted == old(bytesCompleted) + if done <= desc.size then done else desc.size
           case _ => result == FailOthers && bytesCompleted == old(bytesCompleted)
    {
      var status := Verdict(submissions - 1, desc.size).status;
      mem := DeviceRun(mem, desc, status);
      compResult := if status.Faulted? && Backwards(desc) then 1 else 0;
      match status {
        case Completed =>
          bytesCompleted := bytesCompleted + desc.size;
          result := Success;
        case Faulted(_) =>
          bytesCompleted := bytesCompleted + BytesDone(desc, status);
          result := PageFault;
        case _ =>
          result := FailOthers;
      }
    }

    /** Hands the upper part of a chunk to the device, fills the lower part meanwhile, then waits. */
    method FillChunk(s: nat, c: Byte, cpuSize: nat, dsaSize: nat) returns (result: ReturnCode)
      requires s + cpuSize + dsaSize <= |mem|
      modifies this`desc, this`submissions, this`sizes, this`bytesCompleted, this`compResult, this`mem
      ensures sizes == old(sizes) + [dsaSize] && submissions == old(submissions) + 1 && |mem| == |old(mem)|
      ensures old(bytesCompleted) <= bytesCompleted <= old(bytesCompleted) + cpuSize + dsaSize
      ensures result == Success <==> JobDone(old(submissions), dsaSize)
      ensures FillLeft(old(mem), mem, s, cpuSize + dsaSize, bytesCompleted - old(bytesCompleted), c)
      ensures result == Success ==> bytesCompleted == old(bytesCompleted) + cpuSize + dsaSize
    {
      ghost var was := mem;
      desc := FillJob(s + cpuSize, c, dsaSize);
      result := DsaSubmit();
      assert mem == was;
      if result == Success {
        FillChunkLeft(was, s, c, cpuSize, dsaSize, Verdict(submissions - 1, dsaSize).status);
        if cpuSize > 0 {
          mem := Fill(mem, s, cpuSize, c);
          bytesCompleted := bytesCompleted + cpuSize;
        }
        assert mem == Fill(was, s, cpuSize, c);
        result := DsaWait();
      }
    }

    /** Either the whole operation is one job and the CPU's share, or every job but the last is the device's share
        of a full chunk. */
    method DtoMemset(s: nat, c: int, size: nat) returns (result: ReturnCode)
      requires Valid() && s + size <= |mem|
      modifies this
      ensures FillLeft(old(mem), mem, s, size, bytesCompleted, LowByte(c))
      ensures Bounded(old(sizes), sizes, maxTransfer)
      ensures Offloaded(result, size, old(submissions), old(minSizeReads))
      ensures var dsaSize := size - CpuShare(size, fraction(old(fractionReads)));
        if dsaSize <= maxTransfer then sizes == old(sizes) + [dsaSize]
        else FullChunks(old(sizes), sizes, fraction(old(fractionReads) + 1))
    {
      hide Fill, Threshold, CpuShare;
      var n := size;
      var pattern: Byte := LowByte(c);
      var f := ReadFraction();
      var cpuSize := CpuShare(n, f);
      var dsaSize := n - cpuSize;
      bytesCompleted := 0;
      if dsaSize <= maxTransfer {
        result := FillChunk(s, pattern, cpuSize, dsaSize);
      } else {
        result := DtoMemsetChunks(s, pattern, n);
      }
    }

    /** Every job but the last is the device's share of a chunk of `Threshold` bytes. */
    ghost predicate FullChunks(was: seq<nat>, now: seq<nat>, snapshot: Fraction) {
      was < now && forall k :: |was| <= k < |now| - 1 ==> now[k] == DeviceShare(Threshold(maxTransfer, snapshot), snapshot)
    }

    /** The branch of `DtoMemset` taken when the device's share exceeds one transfer. */
    method DtoMemsetChunks(s: nat, pattern: Byte, size: nat) returns (result: ReturnCode)
      requires Valid() && s + size <= |mem|
      requires size > 0 && bytesCompleted == 0
      modifies this
      ensures FillLeft(old(mem), mem, s, size, bytesCompleted, pattern)
      ensures Bounded(old(sizes), sizes, maxTransfer)
      ensures Offloaded(result, size, old(submissions), old(minSizeReads))
      ensures FullChunks(old(sizes), sizes, fraction(old(fractionReads)))
      ensures OnlyAbove(size, Threshold(maxTransfer, fraction(old(fractionReads))), submissions - old(submissions), old(minSizeReads))
    {
      hide Fill, Threshold, CpuShare, FillLeft, AllDone, JobDone, OnlyAbove, Pace;
      var n := size;
      ghost var was := mem;
      NothingFilled(was, s, size, pattern);
      PaceStarts(size, Threshold(maxTransfer, fraction(fractionReads)), minSizeReads);
      OneMoreDone(submissions, submissions, 0);
      var snapshot := ReadFraction();
      var threshold := Threshold(maxTransfer, snapshot) % UINT32_LIMIT;
      assert threshold == Threshold(maxTransfer, snapshot);
      while true
        invariant 0 < n <= size && bytesCompleted == size - n && |mem| == |was|
        invariant FillLeft(was, mem, s, size, bytesCompleted, pattern)
        invariant Bounded(old(sizes), sizes, maxTransfer)
        invariant old(submissions) <= submissions && AllDone(old(submissions), submissions)
        invariant forall k :: |old(sizes)| <= k < |sizes| ==> sizes[k] == DeviceShare(threshold, snapshot)
        invariant Pace(size, threshold, submissions - old(submissions), bytesCompleted, minSizeReads - old(minSizeReads), old(minSizeReads))
        invariant minSizeReads >= old(minSizeReads)
        decreases n
      {
        var len := if n <= threshold then n else threshold;
        var cpuSize := CpuShare(len, snapshot);
        var dsaSize := len - cpuSize;
        DeviceShareFits(maxTransfer, snapshot, len);
        ghost var before, done := mem, bytesCompleted;
        OneMoreDone(old(submissions), submissions, dsaSize);
        PaceNext(size, threshold, submissions - old(submissions), bytesCompleted, minSizeReads - old(minSizeReads), old(minSizeReads));
        result := FillChunk(s + bytesCompleted, pattern, cpuSize, dsaSize);
        FillLeftExtends(was, before, mem, s, done, len, bytesCompleted - done, size, pattern);
        if result != Success {
          break;
        }
        n := n - len;
        var least := ReadMinSize();
        if n < least {
          break;
        }
      }
    }

    /** memset as the program sees it. */
    method Memset(s: nat, c: int, n: nat)
      requires Valid() && s + n <= |mem|
      modifies this
      ensures |mem| == |old(mem)|
      ensures forall i :: 0 <= i < |mem| ==> if s <= i < s + n then (mem[i] - c) % 256 == 0 else mem[i] == old(mem)[i]
      ensures mem == Fill(old(mem), s, n, LowByte(c))
      ensures Bounded(old(sizes), sizes, maxTransfer)
      ensures sizes == old(sizes) <==> useStdLibCalls || n < minSize(old(minSizeReads))
    {
      hide CpuShare, Threshold;
      ghost var was := mem;
      var least := ReadMinSize();
      var useOrigFunc, done := useStdLibCalls || n < least, 0;
      if !useOrigFunc {
        var _ := DtoMemset(s, c, n);
        done := bytesCompleted;
        useOrigFunc := done != n;
      }
      assert FillLeft(was, mem, s, n, done, LowByte(c));
      if useOrigFunc {
        mem := Fill(mem, s + done, n - done, LowByte(c));
      } else {
        assert Fill(mem, s + done, n - done, LowByte(c)) == mem;
      }
    }

    /** Hands the upper part of a chunk to the device, copies the lower part meanwhile, then waits. */
    method CopyChunk(dest: nat, src: nat, cpuSize: nat, dsaSize: nat) returns (result: ReturnCode)
      requires dest + cpuSize + dsaSize <= |mem| && src + cpuSize + dsaSize <= |mem|
      modifies this`desc, this`submissions, this`sizes, this`bytesCompleted, this`compResult, this`mem
      ensures submissions == old(submissions) + 1 && sizes == old(sizes) + [dsaSize]
      ensures CopyChunkDone(old(mem), mem, dest, src, cpuSize, dsaSize, Verdict(old(submissions), dsaSize), result)
      ensures result == Retries ==> bytesCompleted == old(bytesCompleted) && compResult == old(compResult)
      ensures var d, status := CopyJob(dest + cpuSize, src + cpuSize, dsaSize), Verdict(old(submissions), dsaSize).status;
        result != Retries ==> bytesCompleted == old(bytesCompleted) + cpuSize + BytesDone(d, status)
                              && compResult == if status.Faulted? && Backwards(d) then 1 else 0
    {
      hide Move, DeviceRun, Backwards;
      ghost var was := mem;
      NothingMoved(was, dest, src, cpuSize);
      desc := CopyJob(dest + cpuSize, src + cpuSize, dsaSize);
      result := DsaSubmit();
      assert mem == was;
      if result == Success {
        if cpuSize > 0 {
          mem := Move(mem, dest, src, cpuSize);
          bytesCompleted := bytesCompleted + cpuSize;
        }
        assert mem == Move(was, dest, src, cpuSize);
        result := DsaWait();
      }
    }

    /** No byte is moved before the CPU takes over: the first chunk of a longer copy has no CPU share, and its
        job is beyond the transfer limit. */
    ghost predicate NothingStarts(dest: nat, src: nat, k: nat) {
      var threshold := Threshold(maxTransfer, fraction(k));
      threshold > maxTransfer && (IsOverlappingBuffers(dest, src, threshold) || CpuShare(threshold, fraction(k + 1)) == 0)
    }

    /** The copy cannot destroy source bytes, or it is done as one chunk, or not started by the device at all. */
    ghost predicate Recoverable(dest: nat, src: nat, n: nat)
      reads this`fractionReads
    {
      RecoverableAt(dest, src, n, fractionReads)
    }

    ghost predicate RecoverableAt(dest: nat, src: nat, n: nat, k: nat) {
      || dest <= src || Disjoint(dest, src, n)
      || n <= Threshold(maxTransfer, fraction(k))
      || NothingStarts(dest, src, k)
    }

    method DtoMemcpymove(dest: nat, src: nat, size: nat, isMemcpy: bool) returns (result: ReturnCode)
      requires Valid() && dest + size <= |mem| && src + size <= |mem|
      requires isMemcpy ==> Disjoint(dest, src, size)
      modifies this
      ensures bytesCompleted <= size && Frame(old(mem), mem, dest, size)
      ensures old(Recoverable(dest, src, size)) ==>
        CopyLeft(old(mem), mem, dest, src, size, bytesCompleted, if compResult == 0 then bytesCompleted else 0)
      ensures !old(Recoverable(dest, src, size)) && CompletesWhatItCan() ==>
        ChunkedSoFar(old(mem), dest, src, size, Threshold(maxTransfer, fraction(old(fractionReads)))) && chunks != []
      ensures JobsFit(dest, src, size, isMemcpy, old(fractionReads)) ==> Bounded(old(sizes), sizes, maxTransfer)
      ensures Offloaded(result, size, old(submissions), old(minSizeReads)) && old(sizes) < sizes
      ensures var cpuSize := if isMemcpy || !IsOverlappingBuffers(dest, src, size) then CpuShare(size, fraction(old(fractionReads))) else 0;
        size - cpuSize <= maxTransfer ==> sizes == old(sizes) + [size - cpuSize]
    {
      hide Move, Frame, CopyLeft, Threshold, CpuShare;
      var n := size;
      var cpuSize := 0;
      if isMemcpy || !IsOverlappingBuffers(dest, src, n) {
        var f := ReadFraction();
        cpuSize := CpuShare(n, f);
      }
      var dsaSize := n - cpuSize;
      bytesCompleted := 0;
      NothingMoved(mem, dest, src, size);
      if dsaSize <= maxTransfer {
        ghost var upward := dest <= src || Disjoint(dest, src, size);
        result := CopyStep(dest, src, size, cpuSize, dsaSize, mem, upward, !upward, false, 0);
      } else {
        result := DtoMemcpymoveChunks(dest, src, size, isMemcpy);
      }
    }

    /** What the knobs have to do so that every job is within the transfer limit: chunks that may not be split
        need a fraction of zero, and others a fraction that never falls below the one that sized them. */
    ghost predicate JobsFit(dest: nat, src: nat, n: nat, isMemcpy: bool, k: nat) {
      if isMemcpy || !IsOverlappingBuffers(dest, src, n) then NeverBelow(k + 1) else fraction(k) == 0.0
    }

    ghost predicate ChunkJobsFit(dest: nat, src: nat, n: nat, isMemcpy: bool, k: nat) {
      (isMemcpy || !IsOverlappingBuffers(dest, src, n) || fraction(k) == 0.0) && NeverBelow(k)
    }

    /** The chunks finished so far, from low to high addresses, have done this to memory. The first of them
        destroys the same source bytes first as a chunk of `threshold` bytes. */
    ghost predicate ChunkedSoFar(was: seq<Byte>, dest: nat, src: nat, size: nat, threshold: nat)
      requires dest + size <= |was| && src + size <= |was|
      reads this`chunks, this`bytesCompleted, this`mem, this`compResult
    {
      ChunkedRun(was, mem, dest, src, size, chunks, bytesCompleted, threshold) && (chunks != [] ==> compResult == 0)
    }

    /** What holds between two chunks: an upward copy has its prefix in place, and the chunks tracked for any
        other copy account for memory. */
    ghost predicate CopySoFar(was: seq<Byte>, dest: nat, src: nat, size: nat, upward: bool, tracked: bool, threshold: nat)
      requires |was| == |mem| && dest + size <= |mem| && src + size <= |mem|
      reads this`chunks, this`bytesCompleted, this`mem, this`compResult
    {
      && bytesCompleted <= size && Frame(was, mem, dest, size)
      && (upward ==> mem == Move(was, dest, src, bytesCompleted) && (bytesCompleted > 0 ==> compResult == 0))
      && (tracked ==> ChunkedSoFar(was, dest, src, size, threshold))
    }

    /** The copy is followed chunk by chunk, since it is bound to go wrong. */
    ghost predicate Tracked(dest: nat, src: nat, size: nat, k: nat) {
      !RecoverableAt(dest, src, size, k) && CompletesWhatItCan()
    }

    /** What holds before each turn of the chunk loop that began with read `k` and after the given jobs. */
    ghost predicate BetweenChunks(was: seq<Byte>, dest: nat, src: nat, size: nat, isMemcpy: bool, k: nat, jobs: seq<nat>)
      requires |was| == |mem| && dest + size <= |mem| && src + size <= |mem|
      reads this`chunks, this`bytesCompleted, this`mem, this`compResult, this`fractionReads, this`sizes
    {
      var upward := dest <= src || Disjoint(dest, src, size);
      var threshold := Threshold(maxTransfer, fraction(k));
      && CopySoFar(was, dest, src, size, upward, Tracked(dest, src, size, k), threshold)
      && fractionReads > k && (bytesCompleted == 0 ==> fractionReads == k + 1)
      && (bytesCompleted == 0 <==> sizes == jobs)
      && (!upward && RecoverableAt(dest, src, size, k) ==> bytesCompleted == 0 && mem == was)
      && jobs <= sizes
      && JobsSoFar(jobs, sizes, threshold, maxTransfer, ChunkJobsFit(dest, src, size, isMemcpy, k),
                   FirstJob(dest, src, size, isMemcpy, k))
    }

    lemma NothingCopied(was: seq<Byte>, dest: nat, src: nat, size: nat, isMemcpy: bool, k: nat, jobs: seq<nat>)
      requires was == mem && dest + size <= |mem| && src + size <= |mem|
      requires bytesCompleted == 0 && chunks == [] && fractionReads == k + 1 && sizes == jobs
      ensures BetweenChunks(was, dest, src, size, isMemcpy, k, jobs)
    {
      hide Move, Frame, ChunkedRun;
      NothingMoved(was, dest, src, size);
      NothingChunked(was, dest, src, size, Threshold(maxTransfer, fraction(k)));
    }

    /** The two shares of the next chunk; the fraction is read again unless the chunk may not be split. */
    method SplitChunk(dest: nat, src: nat, len: nat, isMemcpy: bool) returns (cpuSize: nat, dsaSize: nat)
      requires isMemcpy ==> Disjoint(dest, src, len)
      modifies this`fractionReads
      ensures cpuSize + dsaSize == len
      ensures dsaSize == JobSize(!isMemcpy && IsOverlappingBuffers(dest, src, len), len, fraction(old(fractionReads)))
      ensures fractionReads >= old(fractionReads)
      ensures cpuSize == 0 || Disjoint(dest, src, len)
    {
      cpuSize := 0;
      if isMemcpy || !IsOverlappingBuffers(dest, src, len) {
        var live := ReadFraction();
        cpuSize := CpuShare(len, live);
      }
      dsaSize := len - cpuSize;
    }

    /** The size of a chunked copy's first job, with the threshold from read `k` and the split from the next. */
    function FirstJob(dest: nat, src: nat, size: nat, isMemcpy: bool, k: nat): nat {
      var threshold := Threshold(maxTransfer, fraction(k));
      var len := if size <= threshold then size else threshold;
      JobSize(!isMemcpy && IsOverlappingBuffers(dest, src, len), len, fraction(k + 1))
    }

    lemma NextJobFits(dest: nat, src: nat, size: nat, len: nat, isMemcpy: bool, k: nat, j: nat)
      requires k < j && len <= size && len <= Threshold(maxTransfer, fraction(k))
      ensures var job := JobSize(!isMemcpy && IsOverlappingBuffers(dest, src, len), len, fraction(j));
        job <= Threshold(maxTransfer, fraction(k)) && (ChunkJobsFit(dest, src, size, isMemcpy, k) ==> job <= maxTransfer)
    {
      JobWithin(maxTransfer, fraction(k), fraction(j), !isMemcpy && IsOverlappingBuffers(dest, src, len), len);
    }

    /** The first job of an upward-overlapping copy covers all of it, or is rejected with nothing moved, or some
        part of the first chunk is moved. */
    lemma FirstChunk(dest: nat, src: nat, size: nat, k: nat)
      requires src < dest < src + size
      ensures var threshold := Threshold(maxTransfer, fraction(k));
        var job := FirstJob(dest, src, size, false, k);
        if size <= threshold then job == size
        else if NothingStarts(dest, src, k) then maxTransfer < job == threshold
        else
          && FirstClobbers(dest, src, threshold, threshold)
          && (job <= maxTransfer || FirstClobbers(dest, src, threshold - job, threshold))
    {
      hide Threshold, CpuShare;
    }

    /** The branch of `DtoMemcpymove` taken when the device's share exceeds one transfer. */
    method DtoMemcpymoveChunks(dest: nat, src: nat, size: nat, isMemcpy: bool) returns (result: ReturnCode)
      requires Valid() && dest + size <= |mem| && src + size <= |mem|
      requires isMemcpy ==> Disjoint(dest, src, size)
      requires size > 0 && bytesCompleted == 0
      modifies this
      ensures bytesCompleted <= size && Frame(old(mem), mem, dest, size)
      ensures old(Recoverable(dest, src, size)) ==>
        CopyLeft(old(mem), mem, dest, src, size, bytesCompleted, if compResult == 0 then bytesCompleted else 0)
      ensures !old(Recoverable(dest, src, size)) && CompletesWhatItCan() ==>
        ChunkedSoFar(old(mem), dest, src, size, Threshold(maxTransfer, fraction(old(fractionReads)))) && chunks != []
      ensures old(sizes) < sizes
      ensures JobsSoFar(old(sizes), sizes, Threshold(maxTransfer, fraction(old(fractionReads))), maxTransfer,
                        ChunkJobsFit(dest, src, size, isMemcpy, old(fractionReads)),
                        FirstJob(dest, src, size, isMemcpy, old(fractionReads)))
      ensures Offloaded(result, size, old(submissions), old(minSizeReads))
      ensures OnlyAbove(size, Threshold(maxTransfer, fraction(old(fractionReads))), submissions - old(submissions), old(minSizeReads))
    {
      hide OnlyAbove, Pace, Frame, BetweenChunks, CopyLeft, Threshold, RecoverableAt, ChunkedSoFar, FirstJob, JobsSoFar, AllDone, JobDone;
      var n := size;
      ghost var was, k, jobs := mem, fractionReads, sizes;
      var snapshot := ReadFraction();
      var threshold := Threshold(maxTransfer, snapshot) % UINT32_LIMIT;
      assert threshold == Threshold(maxTransfer, snapshot);
      chunks := [];
      OneMoreDone(submissions, submissions, 0);
      PaceStarts(size, threshold, minSizeReads);
      NothingCopied(was, dest, src, size, isMemcpy, k, jobs);
      while true
        invariant 0 < n <= size && bytesCompleted == size - n && |mem| == |was|
        invariant BetweenChunks(was, dest, src, size, isMemcpy, k, jobs)
        invariant old(submissions) <= submissions && AllDone(old(submissions), submissions)
        invariant Pace(size, threshold, submissions - old(submissions), bytesCompleted, minSizeReads - old(minSizeReads), old(minSizeReads))
        invariant minSizeReads >= old(minSizeReads)
        decreases n
      {
        var len := if n <= threshold then n else threshold;
        ghost var job := submissions;
        PaceNext(size, threshold, job - old(submissions), bytesCompleted, minSizeReads - old(minSizeReads), old(minSizeReads));
        result := NextChunk(dest, src, size, len, isMemcpy, was, k, jobs);
        OneMoreDone(old(submissions), job, sizes[|sizes| - 1]);
        if result != Success {
          break;
        }
        n := n - len;
        var least := ReadMinSize();
        if n < least {
          break;
        }
      }
    }

    /** One turn of the loop: splits a chunk, hands it over, and waits for it. */
    method NextChunk(dest: nat, src: nat, size: nat, len: nat, isMemcpy: bool,
                     ghost was: seq<Byte>, ghost k: nat, ghost jobs: seq<nat>) returns (result: ReturnCode)
      requires |was| == |mem| && dest + size <= |mem| && src + size <= |mem|
      requires isMemcpy ==> Disjoint(dest, src, size)
      requires 0 < size && bytesCompleted < size
      requires var threshold := Threshold(maxTransfer, fraction(k));
        len == if size - bytesCompleted <= threshold then size - bytesCompleted else threshold
      requires BetweenChunks(was, dest, src, size, isMemcpy, k, jobs)
      modifies this`fractionReads, this`desc, this`submissions, this`sizes, this`bytesCompleted, this`compResult, this`mem, this`chunks
      ensures bytesCompleted <= size && |mem| == |was| && Frame(was, mem, dest, size)
      ensures result == Success ==> bytesCompleted == old(bytesCompleted) + len
      ensures submissions == old(submissions) + 1 && sizes != []
      ensures result == Success <==> JobDone(old(submissions), sizes[|sizes| - 1])
      ensures result == Success && bytesCompleted < size ==> BetweenChunks(was, dest, src, size, isMemcpy, k, jobs)
      ensures RecoverableAt(dest, src, size, k) ==>
        CopyLeft(was, mem, dest, src, size, bytesCompleted, if compResult == 0 then bytesCompleted else 0)
      ensures Tracked(dest, src, size, k) ==>
        ChunkedSoFar(was, dest, src, size, Threshold(maxTransfer, fraction(k))) && chunks != []
      ensures jobs < sizes && JobsSoFar(jobs, sizes, Threshold(maxTransfer, fraction(k)), maxTransfer,
                                        ChunkJobsFit(dest, src, size, isMemcpy, k), FirstJob(dest, src, size, isMemcpy, k))
    {
      hide Frame, CopySoFar, CopyLeft, Threshold, CpuShare, ChunkedSoFar, FirstClobbers, NothingStarts, JobsSoFar, JobSize, Bounded,
           ChunkJobsFit, CompletesWhatItCan;
      ghost var upward := dest <= src || Disjoint(dest, src, size);
      ghost var threshold, fits := Threshold(maxTransfer, fraction(k)), ChunkJobsFit(dest, src, size, isMemcpy, k);
      if !upward {
        FirstChunk(dest, src, size, k);
      }
      NextJobFits(dest, src, size, len, isMemcpy, k, fractionReads);
      var cpuSize, dsaSize := SplitChunk(dest, src, len, isMemcpy);
      JobAdded(jobs, sizes, dsaSize, threshold, maxTransfer, fits, FirstJob(dest, src, size, isMemcpy, k));
      result := CopyStep(dest, src, size, cpuSize, dsaSize, was, upward, !upward && RecoverableAt(dest, src, size, k),
                         Tracked(dest, src, size, k), threshold);
    }

    /** One chunk of `DtoMemcpymove`, at the offset reached so far, with what it means for the whole copy. */
    method CopyStep(dest: nat, src: nat, size: nat, cpuSize: nat, dsaSize: nat,
                    ghost was: seq<Byte>, ghost upward: bool, ghost alone: bool, ghost tracked: bool, ghost threshold: nat)
      returns (result: ReturnCode)
      requires |was| == |mem| && dest + size <= |mem| && src + size <= |mem|
      requires bytesCompleted + cpuSize + dsaSize <= size
      requires CopySoFar(was, dest, src, size, upward, tracked, threshold)
      requires upward ==> dest <= src || Disjoint(dest, src, size)
      requires alone ==> mem == was && cpuSize == bytesCompleted == 0 && (dsaSize == size || dsaSize > maxTransfer)
      requires cpuSize == 0 || Disjoint(dest, src, cpuSize + dsaSize)
      requires tracked ==> CompletesWhatItCan()
      requires tracked && bytesCompleted == 0 ==>
        && FirstClobbers(dest, src, cpuSize + dsaSize, threshold)
        && (dsaSize <= maxTransfer || FirstClobbers(dest, src, cpuSize, threshold))
      modifies this`desc, this`submissions, this`sizes, this`bytesCompleted, this`compResult, this`mem, this`chunks
      ensures sizes == old(sizes) + [dsaSize] && submissions == old(submissions) + 1
      ensures result == Success <==> JobDone(old(submissions), dsaSize)
      ensures bytesCompleted <= size && |mem| == |was| && Frame(was, mem, dest, size)
      ensures result == Success ==> bytesCompleted == old(bytesCompleted) + cpuSize + dsaSize && compResult == 0
      ensures dsaSize > maxTransfer ==> result != Success
      ensures tracked ==> ChunkedSoFar(was, dest, src, size, threshold) && chunks != []
      ensures result == Success ==> CopySoFar(was, dest, src, size, upward, tracked, threshold)
      ensures upward || alone ==>
                CopyLeft(was, mem, dest, src, size, bytesCompleted, if compResult == 0 then bytesCompleted else 0)
    {
      hide Move, DeviceRun, Frame, CopyLeft, ChunkedRun, FirstClobbers;
      ghost var before, done, answer := mem, bytesCompleted, Verdict(submissions, dsaSize);
      result := CopyChunk(dest + bytesCompleted, src + bytesCompleted, cpuSize, dsaSize);
      ChunkFrame(was, before, mem, dest, src, size, done, cpuSize, dsaSize, answer, result);
      if tracked {
        ghost var moved := if result == Success then cpuSize + dsaSize else cpuSize;
        ChunkMoves(before, mem, dest + done, src + done, cpuSize, dsaSize, answer, result);
        ChunkedRunStep(was, before, mem, dest, src, size, chunks, done, moved, threshold);
        chunks := chunks + [moved];
      }
      if upward {
        ChunkAdvances(was, before, mem, dest, src, size, done, cpuSize, dsaSize, answer, result);
      } else if alone {
        SingleJobLeaves(was, mem, dest, src, size, dsaSize, answer, result);
      }
    }

    /** memcpy as the program sees it; its buffers must not overlap. */
    method Memcpy(dest: nat, src: nat, n: nat)
      requires Valid() && dest + n <= |mem| && src + n <= |mem|
      requires Disjoint(dest, src, n)
      modifies this
      ensures |mem| == |old(mem)| && mem == Move(old(mem), dest, src, n)
      ensures forall i :: 0 <= i < |mem| ==> mem[i] == old(mem)[if dest <= i < dest + n then src + (i - dest) else i]
      ensures NeverBelow(old(fractionReads) + 1) ==> Bounded(old(sizes), sizes, maxTransfer)
      ensures sizes == old(sizes) <==> useStdLibCalls || n < minSize(old(minSizeReads))
    {
      hide Move, CpuShare, Offloaded;
      MoveCells(mem, dest, src, n);
      ghost var was := mem;
      var least := ReadMinSize();
      var useOrigFunc, skip, rest := useStdLibCalls || n < least, 0, n;
      if !useOrigFunc {
        var _ := DtoMemcpymove(dest, src, n, true);
        if bytesCompleted != n {
          useOrigFunc, rest := true, n - bytesCompleted;
          if compResult == 0 {
            skip := bytesCompleted;
          }
        } else {
          CopyDone(was, mem, dest, src, n, if compResult == 0 then n else 0);
        }
      }
      if useOrigFunc {
        mem := Move(mem, dest + skip, src + skip, rest);
      }
    }

    /** memmove as the program sees it. It is right for every device and every knob setting unless the copy
        reaches the device, runs upwards into its own source, is longer than the chunk threshold, and its first
        chunk moves anything. Then, already with a device that completes every job within its limit, it loses a
        byte of the source. */
    method Memmove(dest: nat, src: nat, n: nat)
      requires Valid() && dest + n <= |mem| && src + n <= |mem|
      modifies this
      ensures Frame(old(mem), mem, dest, n)
      ensures useStdLibCalls || n < minSize(old(minSizeReads)) || old(Recoverable(dest, src, n)) ==>
        mem == Move(old(mem), dest, src, n)
      ensures var threshold := Threshold(maxTransfer, fraction(old(fractionReads)));
        !(useStdLibCalls || n < minSize(old(minSizeReads)) || old(Recoverable(dest, src, n))) && CompletesWhatItCan()
        && Marked<Byte>(old(mem), src + ClobberedOffset(dest, src, threshold), 0, 1) ==>
        mem != Move(old(mem), dest, src, n)
      ensures useStdLibCalls || n < minSize(old(minSizeReads)) || old(Recoverable(dest, src, n)) ==>
        forall i :: 0 <= i < |mem| ==> mem[i] == old(mem)[if dest <= i < dest + n then src + (i - dest) else i]
      ensures JobsFit(dest, src, n, false, old(fractionReads)) ==> Bounded(old(sizes), sizes, maxTransfer)
      ensures sizes == old(sizes) <==> useStdLibCalls || n < minSize(old(minSizeReads))
    {
      hide Move, Threshold, CpuShare, Offloaded;
      MoveCells(mem, dest, src, n);
      ghost var was, recoverable := mem, Recoverable(dest, src, n);
      ghost var threshold := Threshold(maxTransfer, fraction(fractionReads));
      var least := ReadMinSize();
      var useOrigFunc, skip, rest := useStdLibCalls || n < least, 0, n;
      ghost var reached := !useOrigFunc;
      if !useOrigFunc {
        var _ := DtoMemcpymove(dest, src, n, false);
        if bytesCompleted != n {
          useOrigFunc, rest := true, n - bytesCompleted;
          if compResult == 0 {
            skip := bytesCompleted;
          }
        } else if recoverable {
          CopyDone(was, mem, dest, src, n, if compResult == 0 then n else 0);
        }
      }
      ghost var before := mem;
      if useOrigFunc {
        mem := Move(mem, dest + skip, src + skip, rest);
        FrameKept(was, before, dest, src, n, skip, rest);
      }
      if reached && !recoverable && CompletesWhatItCan() {
        if Marked<Byte>(was, src + ClobberedOffset(dest, src, threshold), 0, 1) {
          ChunkedRunFails(was, before, dest, src, n, chunks, bytesCompleted, threshold);
        }
      }
    }
  }

  /** With `k` bytes done, copying the last `n - k` bytes from offset `skip` completes the copy. */
  predicate CopyLeft(was: seq<Byte>, now: seq<Byte>, dest: nat, src: nat, n: nat, k: nat, skip: nat) {
    && |was| == |now| && skip <= k <= n && dest + n <= |was| && src + n <= |was|
    && Move(now, dest + skip, src + skip, n - k) == Move(was, dest, src, n)
  }

  /** What an unfinished upward copy leaves to the CPU: copying the rest completes the whole copy. */
  lemma CopyResumes(was: seq<Byte>, dst: nat, src: nat, n: nat, done: nat, d: Descriptor, status: Status)
    requires dst + n <= |was| && src + n <= |was|
    requires dst <= src || Disjoint(dst, src, n)
    requires d.CopyJob? && d.dst == dst + done && d.src == src + done && done + d.size <= n
    ensures var k := done + BytesDone(d, status);
      var now := DeviceRun(Move(was, dst, src, done), d, status);
      && CopyLeft(was, now, dst, src, n, k, k)
      && (!status.Failed? ==> now == Move(was, dst, src, k))
  {
  }

  /** The same for a job that covers the whole copy, whatever the overlap. */
  lemma WholeCopyResumes(was: seq<Byte>, d: Descriptor, status: Status)
    requires d.CopyJob? && Fits(d, |was|)
    ensures var k := BytesDone(d, status);
      CopyLeft(was, DeviceRun(was, d, status), d.dst, d.src, d.size, k, if Backwards(d) && status.Faulted? then 0 else k)
  {
  }

  lemma NothingMoved(was: seq<Byte>, dst: nat, src: nat, n: nat)
    requires dst + n <= |was| && src + n <= |was|
    ensures Move(was, dst, src, 0) == was && Frame(was, was, dst, n)
  {
  }

  lemma NothingDone(was: seq<Byte>, before: seq<Byte>, dst: nat, src: nat, n: nat, done: nat)
    requires dst + n <= |was| && src + n <= |was| && done <= n
    requires dst <= src || Disjoint(dst, src, n)
    requires before == Move(was, dst, src, done)
    ensures CopyLeft(was, before, dst, src, n, done, done)
  {
    MoveThenMove(was, dst, src, done, n - done);
  }

  lemma ChunkFrame(was: seq<Byte>, before: seq<Byte>, now: seq<Byte>, dest: nat, src: nat, n: nat, done: nat,
                   cpuSize: nat, dsaSize: nat, answer: Answer, result: ReturnCode)
    requires dest + n <= |was| && src + n <= |was| && done + cpuSize + dsaSize <= n
    requires Frame(was, before, dest, n)
    requires CopyChunkDone(before, now, dest + done, src + done, cpuSize, dsaSize, answer, result)
    ensures Frame(was, now, dest, n)
  {
  }

  /** One chunk at offset `done` of a copy whose first `done` bytes are already in place. */
  lemma ChunkAdvances(was: seq<Byte>, before: seq<Byte>, now: seq<Byte>, dest: nat, src: nat, n: nat, done: nat,
                      cpuSize: nat, dsaSize: nat, answer: Answer, result: ReturnCode)
    requires dest + n <= |was| && src + n <= |was| && done + cpuSize + dsaSize <= n
    requires before == Move(was, dest, src, done) && (dest <= src || Disjoint(dest, src, n))
    requires CopyChunkDone(before, now, dest + done, src + done, cpuSize, dsaSize, answer, result)
    ensures var d := CopyJob(dest + done + cpuSize, src + done + cpuSize, dsaSize);
      var k := if result == Retries then done else done + cpuSize + BytesDone(d, answer.status);
      && !Backwards(d)
      && CopyLeft(was, now, dest, src, n, k, k)
      && (result == Success ==> now == Move(was, dest, src, k))
  {
    if result == Retries {
      NothingDone(was, before, dest, src, n, done);
    } else {
      MoveThenMove(was, dest, src, done, cpuSize);
      CopyResumes(was, dest, src, n, done + cpuSize, CopyJob(dest + done + cpuSize, src + done + cpuSize, dsaSize), answer.status);
    }
  }

  /** A chunk whose job is completed is one move; one whose job is rejected moves the CPU's share. */
  lemma ChunkMoves(before: seq<Byte>, now: seq<Byte>, dst: nat, src: nat, cpuSize: nat, dsaSize: nat,
                   answer: Answer, result: ReturnCode)
    requires dst + cpuSize + dsaSize <= |before| && src + cpuSize + dsaSize <= |before|
    requires cpuSize == 0 || Disjoint(dst, src, cpuSize + dsaSize)
    requires answer.refusals < ENQCMD_MAX_RETRIES && (answer.status.Completed? || answer.status.Rejected?)
    requires CopyChunkDone(before, now, dst, src, cpuSize, dsaSize, answer, result)
    ensures now == Move(before, dst, src, if result == Success then cpuSize + dsaSize else cpuSize)
  {
  }

  /** A first chunk of `first` bytes moves something, and the first source byte that it or a later chunk
      destroys before it is read is the same as with a first chunk of `threshold` bytes. */
  predicate FirstClobbers(dst: nat, src: nat, first: nat, threshold: nat) {
    0 < first && ClobberedOffset(dst, src, first) == ClobberedOffset(dst, src, threshold)
  }

  lemma CopyDone(was: seq<Byte>, now: seq<Byte>, dest: nat, src: nat, n: nat, skip: nat)
    requires CopyLeft(was, now, dest, src, n, n, skip)
    ensures now == Move(was, dest, src, n)
  {
    assert Move(now, dest + skip, src + skip, 0) == now;
  }

  lemma FrameKept(was: seq<Byte>, now: seq<Byte>, dest: nat, src: nat, n: nat, skip: nat, rest: nat)
    requires Frame(was, now, dest, n) && skip + rest <= n && dest + n <= |was| && src + n <= |was|
    ensures Frame(was, Move(now, dest + skip, src + skip, rest), dest, n)
  {
  }

  /** `chunks`, copied from low to high addresses, have led from memory `was` to `now`. The first of them moves
      something and destroys the same source byte first as a chunk of `threshold` bytes. */
  ghost predicate ChunkedRun(was: seq<Byte>, now: seq<Byte>, dest: nat, src: nat, size: nat, chunks: seq<nat>,
                             done: nat, threshold: nat)
    requires dest + size <= |was| && src + size <= |was|
  {
    && Sum(chunks) == done <= size
    && now == MoveChunks(was, dest, src, chunks)
    && (chunks == [] <==> done == 0)
    && (chunks != [] ==> FirstClobbers(dest, src, chunks[0], threshold))
  }

  lemma NothingChunked(was: seq<Byte>, dest: nat, src: nat, size: nat, threshold: nat)
    requires dest + size <= |was| && src + size <= |was|
    ensures ChunkedRun(was, was, dest, src, size, [], 0, threshold)
  {
  }

  lemma ChunkedRunStep(was: seq<Byte>, before: seq<Byte>, now: seq<Byte>, dest: nat, src: nat, size: nat,
                       chunks: seq<nat>, done: nat, moved: nat, threshold: nat)
    requires dest + size <= |was| && src + size <= |was| && done + moved <= size
    requires ChunkedRun(was, before, dest, src, size, chunks, done, threshold)
    requires |before| == |was| && now == Move(before, dest + done, src + done, moved)
    requires done == 0 ==> FirstClobbers(dest, src, moved, threshold)
    ensures ChunkedRun(was, now, dest, src, size, chunks + [moved], done + moved, threshold)
  {
    hide Move, MoveChunks, Sum, ClobberedOffset;
    MoveChunksSnoc(was, dest, src, chunks, moved);
  }

  lemma StaysClear(now: seq<Byte>, dest: nat, src: nat, n: nat, done: nat, wanted: seq<Byte>, q: nat)
    requires dest + n <= |now| && src + n <= |now| && done <= n && q < n && |wanted| == |now|
    requires forall i :: 0 <= i < |now| ==> now[i] == 0
    requires wanted[dest + q] == 1
    ensures now != wanted && Move(now, dest + done, src + done, n - done) != wanted
  {
    assert Move(now, dest + done, src + done, n - done)[dest + q] == 0;
  }

  /** The chunks of an upward-overlapping copy, followed by the CPU's rest, lose a marked byte. */
  lemma ChunkedRunFails(was: seq<Byte>, now: seq<Byte>, dest: nat, src: nat, n: nat, chunks: seq<nat>, done: nat, threshold: nat)
    requires dest + n <= |was| && src + n <= |was|
    requires src < dest < src + n && 0 < threshold < n
    requires ChunkedRun(was, now, dest, src, n, chunks, done, threshold) && chunks != []
    requires Marked<Byte>(was, src + ClobberedOffset(dest, src, threshold), 0, 1)
    ensures |now| == |was| && now != Move(was, dest, src, n)
    ensures Move(now, dest + done, src + done, n - done) != Move(was, dest, src, n)
  {
    hide Sum, MoveChunks, Move;
    ChunksLoseMark<Byte>(was, dest, src, chunks, 0, 1);
    MarkArrives(was, dest, src, n, ClobberedOffset(dest, src, threshold));
    StaysClear(now, dest, src, n, done, Move(was, dest, src, n), ClobberedOffset(dest, src, threshold));
  }

  lemma MarkArrives(was: seq<Byte>, dest: nat, src: nat, n: nat, q: nat)
    requires dest + n <= |was| && src + n <= |was| && q < n
    requires Marked<Byte>(was, src + q, 0, 1)
    ensures Move(was, dest, src, n)[dest + q] == 1
  {
  }

  /** One job with no CPU share, for the whole copy unless it is rejected. */
  lemma SingleJobLeaves(was: seq<Byte>, now: seq<Byte>, dest: nat, src: nat, n: nat, size: nat,
                        answer: Answer, result: ReturnCode)
    requires dest + n <= |was| && src + n <= |was|
    requires size == n || (size <= n && answer.status.Rejected?)
    requires CopyChunkDone(was, now, dest, src, 0, size, answer, result)
    ensures var d := CopyJob(dest, src, size);
      if result == Retries then CopyLeft(was, now, dest, src, n, 0, 0)
      else CopyLeft(was, now, dest, src, n, BytesDone(d, answer.status),
                    if Backwards(d) && answer.status.Faulted? then 0 else BytesDone(d, answer.status))
  {
    assert Move(was, dest, src, 0) == was;
    if size == n {
      WholeCopyResumes(was, CopyJob(dest, src, n), answer.status);
    }
  }

  /** What one chunk does to memory, given the device's answer. */
  predicate CopyChunkDone(was: seq<Byte>, now: seq<Byte>, dest: nat, src: nat, cpuSize: nat, dsaSize: nat,
                          answer: Answer, result: ReturnCode)
    requires dest + cpuSize + dsaSize <= |was| && src + cpuSize + dsaSize <= |was|
  {
    var job := CopyJob(dest + cpuSize, src + cpuSize, dsaSize);
    if answer.refusals >= ENQCMD_MAX_RETRIES then
      result == Retries && now == was
    else
      && now == DeviceRun(Move(was, dest, src, cpuSize), job, answer.status)
      && result != Retries
      && (result == Success <==> answer.status.Completed?)
  }
}
