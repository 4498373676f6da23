/** Resuming the data-integrity operations of the accel-config test library after page faults. Each 512, 520, 4096
    or 4104-byte block carries, on one side or both, an 8-byte tag. */
module Dif {
  import opened Basics

  datatype Operation = Insert | Strip | Update | Check

  const BLOCK_SIZES := [512, 520, 4096, 4104]
  const TAG := 8

  type BlockIndex = i: nat | i < 4

  function SourceBlock(op: Operation, i: BlockIndex): (b: nat)
    ensures b > 0
  {
    if op.Insert? then BLOCK_SIZES[i] else BLOCK_SIZES[i] + TAG
  }

  /** What one source block becomes at the destination; a check writes nothing. */
  function DestBlock(op: Operation, i: BlockIndex): nat {
    match op
    case Insert => BLOCK_SIZES[i] + TAG
    case Strip => BLOCK_SIZES[i]
    case Update => BLOCK_SIZES[i] + TAG
    case Check => 0
  }

  datatype Desc = Desc(src: nat, dst: nat, size: nat)

  /** The tags a partial completion reports, and the seeds of the descriptor that go on from them. */
  datatype Tags = Tags(insApp: nat, insRef: nat, chkApp: nat, chkRef: nat, srcApp: nat, srcRef: nat, destApp: nat, destRef: nat)

  /** The reference tags of an update's source and destination. */
  datatype RefTags = RefTags(src: nat, dest: nat)

  class DifTask {
    const op: Operation
    const blkIdx: BlockIndex
    var srcAddr: nat
    var dstAddr: nat
    var xferSize: nat
    var seeds: Tags

    constructor (op: Operation, blkIdx: BlockIndex, d: Desc, seeds: Tags)
      ensures this.op == op && this.blkIdx == blkIdx && View() == d && this.seeds == seeds
    {
      this.op, this.blkIdx, this.seeds := op, blkIdx, seeds;
      srcAddr, dstAddr, xferSize := d.src, d.dst, d.size;
    }

    function View(): Desc
      reads this
    {
      Desc(srcAddr, dstAddr, xferSize)
    }

    /** The tags of `dsa_prep_dif_update`: the same seeds for both sides. */
    method PrepDifUpdate(apptag: nat, reftag: nat)
      modifies this`seeds
      ensures seeds == old(seeds).(srcApp := apptag, destApp := apptag, srcRef := reftag, destRef := reftag)
    {
      seeds := seeds.(srcApp := apptag, srcRef := reftag, destRef := reftag, destApp := apptag);
    }

    /** `dsa_reprep_dif` after `bytesCompleted` source bytes. Of an update it takes the source's reference tag
        from the destination's. */
    method ReprepDif(bytesCompleted: nat, tags: Tags)
      requires bytesCompleted <= xferSize
      modifies this
      ensures View() == Resumed(op, blkIdx, old(View()), bytesCompleted)
      ensures GoesOnFrom(tags) && (op.Update? ==> seeds.srcRef == tags.destRef)
    {
      var blk := BLOCK_SIZES[blkIdx];
      srcAddr := srcAddr + bytesCompleted;
      seeds := seeds.(insRef := tags.insRef);
      match op {
        case Insert =>
          var blksCompleted := bytesCompleted / blk;
          xferSize := xferSize - bytesCompleted;
          dstAddr := dstAddr + bytesCompleted + 8 * blksCompleted;
          seeds := seeds.(insApp := tags.insApp, insRef := tags.insRef);
        case Strip =>
          var blksCompleted := bytesCompleted / (blk + 8);
          xferSize := xferSize - bytesCompleted;
          dstAddr := dstAddr + blk * blksCompleted;
          seeds := seeds.(chkApp := tags.chkApp, chkRef := tags.chkRef);
        case Update =>
          var blksCompleted := bytesCompleted / (blk + 8);
          xferSize := xferSize - bytesCompleted;
          dstAddr := dstAddr + (blk + 8) * blksCompleted;
          seeds := seeds.(srcApp := tags.srcApp, destApp := tags.destApp, srcRef := tags.destRef, destRef := tags.destRef);
        case Check =>
          xferSize := xferSize - bytesCompleted;
          seeds := seeds.(chkApp := tags.chkApp, chkRef := tags.chkRef);
      }
    }

    /** `dsa_wait_dif`: resumes the job after each partial completion. An update that was prepared with equal
        seeds goes on with the right reference tags, however the device advances a tag. */
    method WaitDif(completions: seq<nat>, tags: seq<Tags>, ghost advance: (nat, nat) -> nat)
      requires |tags| == |completions| && Bounded(xferSize, completions)
      modifies this
      ensures View() == ResumedAll(op, blkIdx, old(View()), completions)
      ensures completions == [] ==> seeds == old(seeds)
      ensures completions != [] ==> GoesOnFrom(tags[|tags| - 1])
      ensures op.Update? && Reported(advance, old(RefSeeds()), completions, tags) ==>
        && RefSeeds() == CodeRun(advance, old(RefSeeds()), completions)
        && (old(seeds.srcRef == seeds.destRef) ==> RefSeeds() == RightRun(advance, old(RefSeeds()), completions))
    {
      hide GoesOnFrom;
      ghost var end, start := ResumedAll(op, blkIdx, View(), completions), RefSeeds();
      ghost var reported := op.Update? && Reported(advance, start, completions, tags);
      for i := 0 to |completions|
        invariant Bounded(xferSize, completions[i..]) && ResumedAll(op, blkIdx, View(), completions[i..]) == end
        invariant if i == 0 then seeds == old(seeds) else GoesOnFrom(tags[i - 1])
        invariant reported ==> Reported(advance, RefSeeds(), completions[i..], tags[i..])
        invariant reported ==> CodeRun(advance, RefSeeds(), completions[i..]) == CodeRun(advance, start, completions)
      {
        assert completions[i..][1..] == completions[i + 1..] && tags[i..][1..] == tags[i + 1..];
        ReprepDif(completions[i], tags[i]);
        if op.Update? {
          UpdateGoesOn(tags[i]);
        }
      }
      if start.src == start.dest {
        EqualSeedsStayRight(advance, start, completions);
      }
    }

    /** One update from its preparation to its end: whatever the seed, the partial completions and the way the
        device advances a tag, it goes on with the right reference tags, and the descriptor is what is left. */
    method Update(apptag: nat, reftag: nat, completions: seq<nat>, tags: seq<Tags>, ghost advance: (nat, nat) -> nat)
      requires op.Update? && |tags| == |completions| && Bounded(xferSize, completions)
      requires Reported(advance, RefTags(reftag, reftag), completions, tags)
      modifies this
      ensures RefSeeds() == RightRun(advance, RefTags(reftag, reftag), completions)
      ensures View() == ResumedAll(op, blkIdx, old(View()), completions)
    {
      PrepDifUpdate(apptag, reftag);
      WaitDif(completions, tags, advance);
    }

    /** The seeds of the operation's tags are what a completion record reports. Of an update the source's reference
        tag is a matter of its own. */
    predicate GoesOnFrom(tags: Tags)
      reads this
    {
      seeds.insRef == tags.insRef &&
      match op
      case Insert => seeds.insApp == tags.insApp
      case Strip => seeds.chkApp == tags.chkApp && seeds.chkRef == tags.chkRef
      case Check => seeds.chkApp == tags.chkApp && seeds.chkRef == tags.chkRef
      case Update => seeds.srcApp == tags.srcApp && seeds.destApp == tags.destApp && seeds.destRef == tags.destRef
    }

    lemma UpdateGoesOn(tags: Tags)
      requires op.Update? && GoesOnFrom(tags)
      ensures seeds.destRef == tags.destRef
    {
    }

    function RefSeeds(): RefTags
      reads this
    {
      RefTags(seeds.srcRef, seeds.destRef)
    }
  }

  // ---------------------------------------------------------------------------------------------
  // The reference tags of a resumed update. `advance` is what the device makes of a seed in some number of bytes;
  // both sides are prepared with the same tag flags.
  // ---------------------------------------------------------------------------------------------

  /** What the code goes on with after a partial completion, and what it should go on with. */
  function CodeStep(advance: (nat, nat) -> nat, t: RefTags, done: nat): RefTags {
    RefTags(advance(t.dest, done), advance(t.dest, done))
  }

  function RightStep(advance: (nat, nat) -> nat, t: RefTags, done: nat): RefTags {
    RefTags(advance(t.src, done), advance(t.dest, done))
  }

  function CodeRun(advance: (nat, nat) -> nat, t: RefTags, completions: seq<nat>): RefTags
    decreases |completions|
  {
    if completions == [] then t else CodeRun(advance, CodeStep(advance, t, completions[0]), completions[1..])
  }

  function RightRun(advance: (nat, nat) -> nat, t: RefTags, completions: seq<nat>): RefTags
    decreases |completions|
  {
    if completions == [] then t else RightRun(advance, RightStep(advance, t, completions[0]), completions[1..])
  }

  /** Each completion record reports how far the seeds of the resumed descriptor have come. */
  predicate Reported(advance: (nat, nat) -> nat, t: RefTags, completions: seq<nat>, tags: seq<Tags>)
    requires |tags| == |completions|
    decreases |completions|
  {
    completions != [] ==>
      && RefTags(tags[0].srcRef, tags[0].destRef) == RightStep(advance, t, completions[0])
      && Reported(advance, CodeStep(advance, t, completions[0]), completions[1..], tags[1..])
  }

  lemma {:induction false} EqualSeedsStayRight(advance: (nat, nat) -> nat, t: RefTags, completions: seq<nat>)
    requires t.src == t.dest
    ensures CodeRun(advance, t, completions) == RightRun(advance, t, completions)
    ensures CodeRun(advance, t, completions).src == CodeRun(advance, t, completions).dest
    decreases |completions|
  {
    if completions != [] {
      EqualSeedsStayRight(advance, CodeStep(advance, t, completions[0]), completions[1..]);
    }
  }

  /** The reference tags are right in every run of partial completions exactly when the update started with the
      same reference tag on both sides; otherwise a fault on the first byte already spoils the source's. */
  lemma UpdateTagsRightIff(advance: (nat, nat) -> nat, t: RefTags)
    requires advance(t.src, 0) == t.src && advance(t.dest, 0) == t.dest
    ensures (forall completions :: TagsRight(advance, t, completions)) <==> t.src == t.dest
  {
    if t.src == t.dest {
      forall completions ensures TagsRight(advance, t, completions) {
        EqualSeedsStayRight(advance, t, completions);
      }
    } else {
      FirstByteFault(advance, t);
      assert !TagsRight(advance, t, [0]);
    }
  }

  /** The code goes on from these partial completions with the reference tags it should go on with. */
  predicate TagsRight(advance: (nat, nat) -> nat, t: RefTags, completions: seq<nat>) {
    CodeRun(advance, t, completions) == RightRun(advance, t, completions)
  }

  lemma FirstByteFault(advance: (nat, nat) -> nat, t: RefTags)
    requires advance(t.src, 0) == t.src && advance(t.dest, 0) == t.dest
    ensures CodeRun(advance, t, [0]) == RefTags(t.dest, t.dest) && RightRun(advance, t, [0]) == t
  {
    assert [0][1..] == [];
    assert CodeRun(advance, CodeStep(advance, t, 0), []) == RefTags(t.dest, t.dest);
    assert RightRun(advance, RightStep(advance, t, 0), []) == t;
  }

  /** The destination bytes that the code skips for `done` completed source bytes. */
  function DestAdvance(op: Operation, i: BlockIndex, done: nat): nat {
    var blk := BLOCK_SIZES[i];
    match op
    case Insert => done + 8 * (done / blk)
    case Strip => blk * (done / (blk + 8))
    case Update => (blk + 8) * (done / (blk + 8))
    case Check => 0
  }

  function Resumed(op: Operation, i: BlockIndex, d: Desc, done: nat): (r: Desc)
    requires done <= d.size
  {
    Desc(d.src + done, d.dst + DestAdvance(op, i, done), d.size - done)
  }

  /** Each partial completion is within what is left. */
  predicate Bounded(size: nat, completions: seq<nat>)
    decreases |completions|
  {
    completions != [] ==> completions[0] <= size && Bounded(size - completions[0], completions[1..])
  }

  function ResumedAll(op: Operation, i: BlockIndex, d: Desc, completions: seq<nat>): Desc
    requires Bounded(d.size, completions)
    decreases |completions|
  {
    if completions == [] then d else ResumedAll(op, i, Resumed(op, i, d, completions[0]), completions[1..])
  }

  predicate WholeBlocks(op: Operation, i: BlockIndex, done: nat) {
    done % SourceBlock(op, i) == 0
  }

  /** The block mapping: where `done` source bytes, a whole number of blocks, end at the destination. */
  function Image(op: Operation, i: BlockIndex, done: nat): nat {
    done / SourceBlock(op, i) * DestBlock(op, i)
  }

  lemma AdvanceByBlocks(op: Operation, i: BlockIndex, blocks: nat, done: nat, source: nat, data: nat)
    requires source == SourceBlock(op, i) && data == BLOCK_SIZES[i] && done == blocks * source
    ensures DestAdvance(op, i, done) == blocks * DestBlock(op, i)
  {
    hide BLOCK_SIZES;
    Distribute(data, 8, blocks);
    RemainderIs(done, blocks, 0, source);
  }

  /** The code's advance is the block mapping. */
  lemma AdvanceIsImage(op: Operation, i: BlockIndex, done: nat)
    requires WholeBlocks(op, i, done)
    ensures DestAdvance(op, i, done) == Image(op, i, done)
  {
    AdvanceByBlocks(op, i, done / SourceBlock(op, i), done, SourceBlock(op, i), BLOCK_SIZES[i]);
  }

  /** What the operations make of whole blocks: an insertion adds the tag, a removal takes it away, an update
      replaces it, and a check writes nothing. */
  lemma BlocksAtDestination(i: BlockIndex, blocks: nat)
    ensures var data := [512, 520, 4096, 4104][i];
      && DestAdvance(Insert, i, blocks * data) == blocks * (data + 8)
      && DestAdvance(Strip, i, blocks * (data + 8)) == blocks * data
      && DestAdvance(Update, i, blocks * (data + 8)) == blocks * (data + 8)
      && DestAdvance(Check, i, blocks * (data + 8)) == 0
      && SourceBlock(Insert, i) == data
      && SourceBlock(Strip, i) == SourceBlock(Update, i) == SourceBlock(Check, i) == data + 8
  {
    var data := [512, 520, 4096, 4104][i];
    RemainderIs(blocks * data, blocks, 0, data);
    RemainderIs(blocks * (data + 8), blocks, 0, data + 8);
  }

  lemma ImageAdds(op: Operation, i: BlockIndex, m: nat, n: nat)
    requires WholeBlocks(op, i, m) && WholeBlocks(op, i, n)
    ensures WholeBlocks(op, i, m + n) && Image(op, i, m + n) == Image(op, i, m) + Image(op, i, n)
  {
    hide SourceBlock, DestBlock;
    var b := SourceBlock(op, i);
    var p, q := m / b, n / b;
    Distribute(p, q, b);
    Distribute(p, q, DestBlock(op, i));
    RemainderIs(m + n, p + q, 0, b);
  }

  /** All of `completions` end on block boundaries. */
  predicate Aligned(op: Operation, i: BlockIndex, completions: seq<nat>) {
    forall k :: 0 <= k < |completions| ==> WholeBlocks(op, i, completions[k])
  }

  /** After any sequence of block-aligned partial completions the source range still ends where it did, and the
      destination is the image of the source under the block mapping. */
  lemma {:induction false} ResumedStaysOnImage(op: Operation, i: BlockIndex, d: Desc, completions: seq<nat>)
    requires Bounded(d.size, completions) && Aligned(op, i, completions)
    ensures var r, done := ResumedAll(op, i, d, completions), Sum(completions);
      && r.src + r.size == d.src + d.size && r.src == d.src + done
      && WholeBlocks(op, i, done) && r.dst == d.dst + Image(op, i, done)
    decreases |completions|
  {
    if completions != [] {
      hide Image, DestAdvance, WholeBlocks;
      SumSplit(completions);
      var first, rest := completions[0], completions[1..];
      ResumedStaysOnImage(op, i, Resumed(op, i, d, first), rest);
      AdvanceIsImage(op, i, first);
      ImageAdds(op, i, first, Sum(rest));
    }
  }

  /** The pieces of the resumed job tile both ranges: after `k` completions the next piece starts, at the source
      and at the destination, exactly where the previous one ended. */
  lemma PiecesTile(op: Operation, i: BlockIndex, d: Desc, completions: seq<nat>, k: nat)
    requires Bounded(d.size, completions) && Aligned(op, i, completions) && k < |completions|
    ensures Bounded(d.size, completions[..k]) && Bounded(d.size, completions[..k + 1])
    ensures var r, t, done := ResumedAll(op, i, d, completions[..k]), ResumedAll(op, i, d, completions[..k + 1]), completions[k];
      && t.src == r.src + done && t.dst == r.dst + Image(op, i, done)
      && done <= r.size && t.size == r.size - done
    decreases k
  {
    hide Image, DestAdvance, WholeBlocks;
    if k == 0 {
      assert completions[..1] == [completions[0]] && completions[..1][1..] == [] && completions[..0] == [];
      AdvanceIsImage(op, i, completions[0]);
      assert ResumedAll(op, i, d, completions[..1]) == ResumedAll(op, i, Resumed(op, i, d, completions[0]), []);
    } else {
      PiecesTile(op, i, Resumed(op, i, d, completions[0]), completions[1..], k - 1);
      assert completions[1..][..k - 1] == completions[..k][1..] && completions[1..][..k] == completions[..k + 1][1..];
    }
  }

  /** The destination keeps pace with the source, byte for byte of a block, exactly when a whole number of blocks
      has completed. */
  lemma KeepsPaceIff(op: Operation, i: BlockIndex, done: nat)
    requires !op.Check?
    ensures SourceBlock(op, i) * DestAdvance(op, i, done) == DestBlock(op, i) * done <==> WholeBlocks(op, i, done)
  {
    var b := SourceBlock(op, i);
    assert done == done / b * b + done % b;
  }
}
