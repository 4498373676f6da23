/** The accel-config test library: a memory move that the device stops at page faults, and that the program
    shortens, repairs and submits again until it completes. */
module Resume {
  import opened Basics
  import opened Memory

  datatype Job = Job(dst: nat, src: nat, size: nat) {
    predicate In(length: nat) {
      dst + size <= length && src + size <= length
    }
  }

  /** A partial completion: `done` bytes copied, from the end if `backward`; the access to `addr` that faulted
      was a write or a read. */
  datatype Fault = Fault(done: nat, backward: bool, write: bool, addr: nat)

  /** What a partial completion leaves to do. */
  function Rest(j: Job, f: Fault): Job
    requires f.done <= j.size
  {
    if f.backward then Job(j.dst, j.src, j.size - f.done)
    else Job(j.dst + f.done, j.src + f.done, j.size - f.done)
  }

  function Served(m: seq<Byte>, j: Job, f: Fault): (r: seq<Byte>)
    requires j.In(|m|) && f.done <= j.size
    ensures |r| == |m|
  {
    var skip := if f.backward then j.size - f.done else 0;
    Move(m, j.dst + skip, j.src + skip, f.done)
  }

  /** The program repairs the fault by flipping the byte, and flips it back only when the fault was a read. */
  function Repaired(m: seq<Byte>, f: Fault): (r: seq<Byte>)
    requires f.addr < |m|
    ensures |r| == |m|
  {
    var flipped := m[f.addr := 255 - m[f.addr]];
    if f.write then flipped else flipped[f.addr := 255 - flipped[f.addr]]
  }

  /** What the hardware may report: a direction that destroys no unread source byte, and for a write fault an
      address it had still to write. */
  predicate Legal(length: nat, j: Job, f: Fault) {
    && f.done <= j.size && f.addr < length
    && (f.backward ==> !(j.dst < j.src < j.dst + j.size))
    && (!f.backward ==> !(j.src < j.dst < j.src + j.size))
    && (f.write ==> var rest := Rest(j, f); rest.dst <= f.addr < rest.dst + rest.size)
  }

  predicate LegalRun(length: nat, j: Job, faults: seq<Fault>)
    decreases |faults|
  {
    faults != [] ==> Legal(length, j, faults[0]) && LegalRun(length, Rest(j, faults[0]), faults[1..])
  }

  /** No write fault falls on a source byte that is still to be read. */
  predicate Harmless(length: nat, j: Job, faults: seq<Fault>)
    requires LegalRun(length, j, faults)
    decreases |faults|
  {
    faults != [] ==>
      var rest := Rest(j, faults[0]);
      && (faults[0].write ==> !(rest.src <= faults[0].addr < rest.src + rest.size))
      && Harmless(length, rest, faults[1..])
  }

  /** Memory after the job has been stopped by `faults`, in turn, and then completed. */
  function Run(m: seq<Byte>, j: Job, faults: seq<Fault>): seq<Byte>
    requires j.In(|m|) && LegalRun(|m|, j, faults)
    decreases |faults|
  {
    if faults == [] then Move(m, j.dst, j.src, j.size)
    else Run(Repaired(Served(m, j, faults[0]), faults[0]), Rest(j, faults[0]), faults[1..])
  }

  class Task {
    var mem: seq<Byte>
    // descriptor
    var srcAddr: nat
    var dstAddr: nat
    var xferSize: nat
    // completion record
    var bytesCompleted: nat
    var result: nat
    var faultAddr: nat
    var faultIsWrite: bool

    constructor (mem: seq<Byte>, j: Job)
      ensures this.mem == mem && Desc() == j
    {
      this.mem := mem;
      srcAddr, dstAddr, xferSize := j.src, j.dst, j.size;
      bytesCompleted, result, faultAddr, faultIsWrite := 0, 0, 0, false;
    }

    function Desc(): Job
      reads this
    {
      Job(dstAddr, srcAddr, xferSize)
    }

    function Completion(): Fault
      reads this
    {
      Fault(bytesCompleted, result != 0, faultIsWrite, faultAddr)
    }

    method ResolvePageFault()
      requires faultAddr < |mem|
      modifies this`mem
      ensures mem == Repaired(old(mem), Completion())
    {
      mem := mem[faultAddr := 255 - mem[faultAddr]];
      if !faultIsWrite {
        mem := mem[faultAddr := 255 - mem[faultAddr]];
      }
    }

    /** Prepares the descriptor for what the partial completion has left, and repairs the fault. */
    method ReprepMemcpy()
      requires Legal(|mem|, Desc(), Completion())
      modifies this`srcAddr, this`dstAddr, this`xferSize, this`mem
      ensures Desc() == Rest(old(Desc()), old(Completion()))
      ensures mem == Repaired(old(mem), old(Completion()))
    {
      xferSize := xferSize - bytesCompleted;
      if result == 0 {
        srcAddr := srcAddr + bytesCompleted;
        dstAddr := dstAddr + bytesCompleted;
      }
      ResolvePageFault();
    }

    /** Waits for the job, resuming it after each of `faults`. */
    method WaitMemcpy(faults: seq<Fault>)
      requires Desc().In(|mem|) && LegalRun(|mem|, Desc(), faults)
      modifies this
      ensures mem == Run(old(mem), old(Desc()), faults)
    {
      hide Move, Served, Repaired;
      ghost var whole := Run(mem, Desc(), faults);
      for i := 0 to |faults|
        invariant Desc().In(|mem|) && LegalRun(|mem|, Desc(), faults[i..])
        invariant Run(mem, Desc(), faults[i..]) == whole
      {
        var f := faults[i];
        assert faults[i..][1..] == faults[i + 1..];
        mem := Served(mem, Desc(), f);
        bytesCompleted, result, faultIsWrite, faultAddr := f.done, if f.backward then 1 else 0, f.write, f.addr;
        ReprepMemcpy();
      }
      assert faults[|faults|..] == [];
      mem := Move(mem, dstAddr, srcAddr, xferSize);
    }
  }

  // ---------------------------------------------------------------------------------------------
  // When a resumed move is a move
  // ---------------------------------------------------------------------------------------------

  lemma ResumeOnce(m: seq<Byte>, j: Job, f: Fault)
    requires j.In(|m|) && Legal(|m|, j, f)
    requires f.write ==> var rest := Rest(j, f); !(rest.src <= f.addr < rest.src + rest.size)
    ensures var rest := Rest(j, f);
      Move(Repaired(Served(m, j, f), f), rest.dst, rest.src, rest.size) == Move(m, j.dst, j.src, j.size)
  {
    if !f.write {
      assert Repaired(Served(m, j, f), f) == Served(m, j, f);
    }
  }

  /** However often it is interrupted, and in whichever direction the hardware copies, a move with harmless
      faults ends as one memmove. This covers overlapping buffers when all faults are reads. */
  lemma {:induction false} ResumedMoveIsMove(m: seq<Byte>, j: Job, faults: seq<Fault>)
    requires j.In(|m|) && LegalRun(|m|, j, faults) && Harmless(|m|, j, faults)
    ensures Run(m, j, faults) == Move(m, j.dst, j.src, j.size)
    decreases |faults|
  {
    if faults != [] {
      ResumedMoveIsMove(Repaired(Served(m, j, faults[0]), faults[0]), Rest(j, faults[0]), faults[1..]);
      ResumeOnce(m, j, faults[0]);
    }
  }

  lemma {:induction false} DisjointIsHarmless(length: nat, j: Job, faults: seq<Fault>)
    requires LegalRun(length, j, faults) && Disjoint(j.dst, j.src, j.size)
    ensures Harmless(length, j, faults)
    decreases |faults|
  {
    if faults != [] {
      DisjointIsHarmless(length, Rest(j, faults[0]), faults[1..]);
    }
  }

  /** The byte-flipping repair is right under all faults exactly for buffers that do not overlap. */
  lemma FlippingRepairCorrectIff(length: nat, j: Job)
    requires j.In(length)
    ensures (forall m: seq<Byte>, faults | |m| == length && LegalRun(length, j, faults) ::
              Run(m, j, faults) == Move(m, j.dst, j.src, j.size))
            <==> Disjoint(j.dst, j.src, j.size)
  {
    if Disjoint(j.dst, j.src, j.size) {
      forall m: seq<Byte>, faults | |m| == length && LegalRun(length, j, faults)
        ensures Run(m, j, faults) == Move(m, j.dst, j.src, j.size)
      {
        DisjointIsHarmless(length, j, faults);
        ResumedMoveIsMove(m, j, faults);
      }
    } else {
      var m: seq<Byte> := seq(length, _ => 0);
      var fault := FatalFault(m, j);
      assert LegalRun(length, j, [fault]);
    }
  }

  /** A write fault on a byte of the overlap before anything is copied corrupts the copy. */
  lemma FatalFault(m: seq<Byte>, j: Job) returns (f: Fault)
    requires j.In(|m|) && !Disjoint(j.dst, j.src, j.size)
    ensures LegalRun(|m|, j, [f]) && Run(m, j, [f]) != Move(m, j.dst, j.src, j.size)
  {
    var shared := if j.dst <= j.src then j.src else j.dst;
    f := Fault(0, j.src < j.dst, true, shared);
    assert [f][1..] == [];
    var repaired := Repaired(Served(m, j, f), f);
    assert Served(m, j, f) == m;
    assert Run(m, j, [f]) == Move(repaired, j.dst, j.src, j.size);
    assert Run(m, j, [f])[j.dst + (shared - j.src)] == 255 - m[shared];
  }
}
