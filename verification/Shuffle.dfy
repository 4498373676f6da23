/** The shuffled, batched page copy of the kernel tests: a random permutation of the pages, scatter tables in that
    order, batches of copy descriptors, and the split of the pages over several work queues. */
module Shuffle {
  import opened Basics
  import opened Memory

  /** `arr` names each of the pages `0..n` exactly once. */
  predicate IsPermutation(arr: seq<nat>, n: nat) {
    && |arr| == n
    && (forall k :: 0 <= k < n ==> arr[k] < n)
    && (forall j, k :: 0 <= j < k < n ==> arr[j] != arr[k])
  }

  /** The swap loop, for every sequence of random numbers. */
  method RandomArr(npages: nat, random: nat -> nat) returns (arr: array<nat>)
    ensures fresh(arr) && IsPermutation(arr[..], npages) && arr[..] == Swapped(npages, random, npages)
  {
    arr := new nat[npages];
    for i := 0 to npages
      invariant forall k :: 0 <= k < i ==> arr[k] == k
    {
      arr[i] := i;
    }
    assert arr[..] == Swapped(npages, random, 0);
    hide IsPermutation, Place, Exchanged;
    for i := 0 to npages
      invariant IsPermutation(arr[..], npages) && arr[..] == Swapped(npages, random, i)
    {
      ghost var before := arr[..];
      var tmp := Place(npages, random(i));
      var tmp2 := arr[i];
      arr[i] := arr[tmp];
      arr[tmp] := tmp2;
      assert arr[..] == Exchanged(before, i, tmp);
      ExchangeKeeps(before, npages, i, tmp);
    }
  }

  /** The pages in order, after the first `k` swaps: turn `i` swaps place `i` with the place that the random number
      gives. */
  function Swapped(n: nat, random: nat -> nat, k: nat): (r: seq<nat>)
    requires k <= n
    ensures |r| == n
  {
    if k == 0 then seq(n, i => i)
    else
      Exchanged(Swapped(n, random, k - 1), k - 1, Place(n, random(k - 1)))
  }

  function Place(n: nat, number: nat): (p: nat)
    requires n > 0
    ensures p < n
  {
    number / 2 % n
  }

  function Exchanged(s: seq<nat>, i: nat, j: nat): (r: seq<nat>)
    requires i < |s| && j < |s|
    ensures |r| == |s| && r[i] == s[j] && r[j] == s[i]
    ensures forall k :: 0 <= k < |s| && k != i && k != j ==> r[k] == s[k]
  {
    s[i := s[j]][j := s[i]]
  }

  lemma ExchangeKeeps(s: seq<nat>, n: nat, i: nat, j: nat)
    requires IsPermutation(s, n) && i < n && j < n
    ensures IsPermutation(Exchanged(s, i, j), n)
  {
  }

  lemma {:induction false} SwappedIsPermutation(n: nat, random: nat -> nat, k: nat)
    requires k <= n
    ensures IsPermutation(Swapped(n, random, k), n)
    decreases k
  {
    if k > 0 {
      SwappedIsPermutation(n, random, k - 1);
      ExchangeKeeps(Swapped(n, random, k - 1), n, k - 1, Place(n, random(k - 1)));
    }
  }

  lemma {:induction false} SwappedAgrees(n: nat, r: nat -> nat, s: nat -> nat, k: nat)
    requires k <= n && forall i :: 0 <= i < k ==> r(i) == s(i)
    ensures Swapped(n, r, k) == Swapped(n, s, k)
    decreases k
  {
    if k > 0 {
      SwappedAgrees(n, r, s, k - 1);
    }
  }

  lemma SwappedStep(n: nat, random: nat -> nat, k: nat)
    requires 0 < k <= n
    ensures Swapped(n, random, k) == Exchanged(Swapped(n, random, k - 1), k - 1, Place(n, random(k - 1)))
  {
  }

  /** Random numbers after which the first `k` places hold what `arr` has there. */
  lemma {:induction false} PrefixArises(arr: seq<nat>, n: nat, k: nat) returns (random: nat -> nat)
    requires IsPermutation(arr, n) && k <= n
    ensures Swapped(n, random, k)[..k] == arr[..k]
    decreases k
  {
    hide IsPermutation, Place, Exchanged, Swapped;
    if k == 0 {
      random := i => 0;
    } else {
      var before := PrefixArises(arr, n, k - 1);
      var pages := Swapped(n, before, k - 1);
      SwappedIsPermutation(n, before, k - 1);
      var p := PlaceIn(arr, pages, n, k - 1);
      random := i => if i == k - 1 then 2 * p else before(i);
      SwappedAgrees(n, random, before, k - 1);
      SwappedStep(n, random, k);
      PlaceOfDouble(n, p);
      PrefixGrows(arr, pages, n, k, p);
    }
  }

  lemma PlaceIn(arr: seq<nat>, pages: seq<nat>, n: nat, i: nat) returns (p: nat)
    requires IsPermutation(arr, n) && IsPermutation(pages, n) && i < n
    ensures p < n == |arr| == |pages| && pages[p] == arr[i]
  {
    PermutationNamesAll(pages, n, arr[i]);
    p :| 0 <= p < n && pages[p] == arr[i];
  }

  lemma PlaceOfDouble(n: nat, p: nat)
    requires p < n
    ensures Place(n, 2 * p) == p
  {
  }

  lemma PrefixGrows(arr: seq<nat>, pages: seq<nat>, n: nat, k: nat, p: nat)
    requires IsPermutation(arr, n) && IsPermutation(pages, n) && 0 < k <= n && p < n
    requires pages[..k - 1] == arr[..k - 1] && pages[p] == arr[k - 1]
    ensures Exchanged(pages, k - 1, p)[..k] == arr[..k]
  {
    var after := Exchanged(pages, k - 1, p);
    forall i | 0 <= i < k - 1 ensures pages[i] == arr[i] {
      assert pages[..k - 1][i] == arr[..k - 1][i];
    }
    assert k - 1 <= p;
    assert forall i :: 0 <= i < k ==> after[i] == arr[i];
  }

  /** Every permutation of the pages comes from some sequence of random numbers. */
  lemma EveryPermutationArises(arr: seq<nat>, n: nat)
    requires IsPermutation(arr, n)
    ensures exists random :: Swapped(n, random, n) == arr
  {
    var random := PrefixArises(arr, n, n);
    assert Swapped(n, random, n)[..n] == Swapped(n, random, n) && arr[..n] == arr;
  }

  /** Pigeonhole: a permutation names every page. */
  lemma {:induction false} PermutationNamesAll(arr: seq<nat>, n: nat, p: nat)
    requires IsPermutation(arr, n) && p < n
    ensures Names(arr, p)
    decreases n
  {
    var last := arr[n - 1];
    if p != last {
      // Rename the top page to the last one's number, so that the rest is a permutation of one page fewer.
      var rest := seq(n - 1, k requires 0 <= k < n - 1 => if arr[k] == n - 1 then last else arr[k]);
      assert forall k :: 0 <= k < n - 1 ==> arr[k] != last;
      assert IsPermutation(rest, n - 1);
      var q := if p == n - 1 then last else p;
      PermutationNamesAll(rest, n - 1, q);
      var k :| 0 <= k < |rest| && rest[k] == q;
      assert arr[k] == p;
    } else {
      assert arr[n - 1] == p;
    }
  }

  // ---------------------------------------------------------------------------------------------
  // Batches
  // ---------------------------------------------------------------------------------------------

  /** One copy descriptor of a batch: a source page and a destination page. */
  datatype SubDesc = SubDesc(src: nat, dst: nat)

  function Pairs(src: seq<nat>, dst: seq<nat>, n: nat): (r: seq<SubDesc>)
    requires n <= |src| && n <= |dst|
    ensures |r| == n
  {
    seq(n, k requires 0 <= k < n => SubDesc(src[k], dst[k]))
  }

  function Flatten(batches: seq<seq<SubDesc>>): seq<SubDesc> {
    if batches == [] then [] else Flatten(batches[..|batches| - 1]) + batches[|batches| - 1]
  }

  /** `idxd_desc_dma_submit_memcpy_sg`: one batch from two cursors, which it advances. */
  method SubmitMemcpySg(dst: seq<nat>, src: seq<nat>, sgDst: nat, sgSrc: nat, ents: nat)
    returns (batch: seq<SubDesc>, nextDst: nat, nextSrc: nat)
    requires sgDst + ents <= |dst| && sgSrc + ents <= |src|
    ensures |batch| == ents && batch == Pairs(src[sgSrc..], dst[sgDst..], ents) && nextDst == sgDst + ents && nextSrc == sgSrc + ents
    ensures forall i :: 0 <= i < ents ==> batch[i].src == src[sgSrc + i] && batch[i].dst == dst[sgDst + i]
  {
    batch, nextDst, nextSrc := [], sgDst, sgSrc;
    for i := 0 to ents
      invariant batch == Pairs(src[sgSrc..], dst[sgDst..], i) && nextDst == sgDst + i && nextSrc == sgSrc + i
    {
      batch := batch + [SubDesc(src[nextSrc], dst[nextDst])];
      nextSrc, nextDst := nextSrc + 1, nextDst + 1;
    }
  }

  function Min(a: nat, b: nat): nat {
    if a > b then b else a
  }

  lemma PairsAt(src: seq<nat>, dst: seq<nat>, n: nat)
    requires n <= |src| && n <= |dst|
    ensures forall k :: 0 <= k < n ==> Pairs(src, dst, n)[k].src == src[k] && Pairs(src, dst, n)[k].dst == dst[k]
  {
  }

  /** The batching loop of `dsa_copy`: the batches together pair up the tables entry by entry, in order, and
      every batch is within the device's limit. */
  method DsaCopyBatches(src: seq<nat>, dst: seq<nat>, maxBatch: nat) returns (batches: seq<seq<SubDesc>>)
    requires maxBatch >= 1 && src != [] && dst != []
    ensures Flatten(batches) == Pairs(src, dst, if |src| > 1 && |dst| > 1 then Min(|src|, |dst|) else 1)
    ensures forall k :: 0 <= k < |Flatten(batches)| ==>
              k < |src| && k < |dst| && Flatten(batches)[k].src == src[k] && Flatten(batches)[k].dst == dst[k]
    ensures forall b :: 0 <= b < |batches| ==> 1 <= |batches[b]| <= maxBatch
  {
    hide Flatten, Pairs, Start, BatchesNeeded;
    PairsAt(src, dst, if |src| > 1 && |dst| > 1 then Min(|src|, |dst|) else 1);
    FlattenFew(src, dst);
    if |src| > 1 && |dst| > 1 {
      var total := Min(|src|, |dst|);
      var nents := BatchesNeeded(total, maxBatch);
      var sgSrc, sgDst := 0, 0;
      batches := [];
      BatchCount(total, maxBatch);
      for i := 0 to nents
        invariant sgSrc == sgDst == Min(Start(i, maxBatch), total)
        invariant Flatten(batches) == Pairs(src, dst, sgSrc)
        invariant forall b :: 0 <= b < |batches| ==> 1 <= |batches[b]| <= maxBatch
      {
        BatchStarts(i, nents, maxBatch, total);
        ghost var from := sgSrc;
        var leftEnts := total - Start(i, maxBatch);
        var batchSize := if leftEnts > maxBatch then maxBatch else leftEnts;
        var batch;
        batch, sgDst, sgSrc := SubmitMemcpySg(dst, src, sgDst, sgSrc, batchSize);
        FlattenSnoc(batches, batch);
        PairsGrow(src, dst, from, batchSize);
        batches := batches + [batch];
      }
    } else {
      batches := [[SubDesc(src[0], dst[0])]];
    }
  }

  lemma FlattenSnoc(batches: seq<seq<SubDesc>>, batch: seq<SubDesc>)
    ensures Flatten(batches + [batch]) == Flatten(batches) + batch
  {
    assert (batches + [batch])[..|batches|] == batches;
  }

  lemma FlattenFew(src: seq<nat>, dst: seq<nat>)
    requires src != [] && dst != []
    ensures Flatten([]) == Pairs(src, dst, 0) == []
    ensures Flatten([[SubDesc(src[0], dst[0])]]) == Pairs(src, dst, 1)
  {
    var one := [[SubDesc(src[0], dst[0])]];
    assert one[..0] == [] && Flatten(one[..0]) + one[0] == one[0];
  }

  lemma PairsGrow(src: seq<nat>, dst: seq<nat>, n: nat, more: nat)
    requires n + more <= |src| && n + more <= |dst|
    ensures Pairs(src, dst, n + more) == Pairs(src, dst, n) + Pairs(src[n..], dst[n..], more)
  {
  }

  /** How many entries lie before batch `i`. */
  function Start(i: nat, max: nat): nat {
    i * max
  }

  function BatchesNeeded(total: nat, max: nat): nat
    requires max >= 1
  {
    total / max + if total % max != 0 then 1 else 0
  }

  lemma BatchCount(total: nat, max: nat)
    requires max >= 1
    ensures var nents := BatchesNeeded(total, max);
      Start(0, max) == 0 && (nents > 0 ==> Start(nents - 1, max) < total) && total <= Start(nents, max)
  {
    assert total == total / max * max + total % max;
    assert (total / max + 1) * max == total / max * max + max;
    assert (total / max - 1) * max == total / max * max - max;
  }

  lemma BatchStarts(i: nat, nents: nat, max: nat, total: nat)
    requires i < nents && Start(nents - 1, max) < total
    ensures Start(i, max) < total && Start(i + 1, max) == Start(i, max) + max
  {
    Distribute(nents - 1 - i, i, max);
    Distribute(i, 1, max);
  }

  // ---------------------------------------------------------------------------------------------
  // Executing the batches
  // ---------------------------------------------------------------------------------------------

  /** `done` lists the same descriptors as `wanted`, in some order. */
  predicate SameDescs(done: seq<SubDesc>, wanted: seq<SubDesc>) {
    multiset(done) == multiset(wanted)
  }

  function SourcePages(descs: seq<SubDesc>): (r: seq<nat>)
    ensures |r| == |descs|
  {
    seq(|descs|, k requires 0 <= k < |descs| => descs[k].src)
  }

  /** Whatever the permutation and the order in which the device executes the descriptors, the destination area
      ends as a copy of the source area. Memory is counted in pages: the source area is `0..n`, the destination
      area `n..2n`. */
  lemma ShuffledCopyIsCopy<Page>(m: seq<Page>, arr: seq<nat>, n: nat, done: seq<SubDesc>)
    requires n > 0 && |m| == 2 * n && IsPermutation(arr, n) && SameDescs(done, Pairs(arr, arr, n))
    ensures forall k :: 0 <= k < |done| ==> done[k].src == done[k].dst < n
    ensures Within(SourcePages(done), n)
    ensures CopyInOrder(m, n, 0, n, SourcePages(done)) == Move(m, n, 0, n)
  {
    var wanted := Pairs(arr, arr, n);
    forall k | 0 <= k < |done| ensures done[k].src == done[k].dst < n {
      assert done[k] in multiset(wanted);
      assert done[k] in wanted;
    }
    forall p: nat | p < n ensures Names(SourcePages(done), p) {
      PermutationNamesAll(arr, n, p);
      var k :| 0 <= k < |arr| && arr[k] == p;
      assert wanted[k] in multiset(wanted);
      assert wanted[k] in done;
      var j :| 0 <= j < |done| && done[j] == wanted[k];
      assert SourcePages(done)[j] == p;
    }
    AnyOrderIsMove(m, n, 0, n, SourcePages(done));
  }

  /** Memory after the descriptors have been executed in the given order. */
  function Executed<Page>(m: seq<Page>, n: nat, descs: seq<SubDesc>): seq<Page>
    requires |m| == 2 * n && forall k :: 0 <= k < |descs| ==> descs[k].src == descs[k].dst < n
  {
    CopyInOrder(m, n, 0, n, SourcePages(descs))
  }

  /** The whole test: whatever the random numbers, the batch limit and the order of execution, the source area is
      copied and nothing else changes. */
  method ShuffledCopy<Page>(m: seq<Page>, n: nat, random: nat -> nat, maxBatch: nat, order: seq<SubDesc> -> seq<SubDesc>)
    returns (r: seq<Page>)
    requires n > 0 && |m| == 2 * n && maxBatch >= 1
    requires forall descs :: SameDescs(order(descs), descs)
    ensures r == Move(m, n, 0, n)
  {
    var arr := RandomArr(n, random);
    var batches := DsaCopyBatches(arr[..], arr[..], maxBatch);
    var done := order(Flatten(batches));
    ShuffledCopyIsCopy(m, arr[..], n, done);
    r := Executed(m, n, done);
  }

  // ---------------------------------------------------------------------------------------------
  // The split over several work queues
  // ---------------------------------------------------------------------------------------------

  function EntriesPerQueue(npages: nat, queues: nat): nat
    requires queues > 0
  {
    if npages % queues == 0 then npages / queues else npages / queues + 1
  }

  lemma RoundedUp(npages: nat, queues: nat)
    requires queues > 0
    ensures EntriesPerQueue(npages, queues) == (npages + queues - 1) / queues
  {
    var q, r := npages / queues, npages % queues;
    if r == 0 {
      RemainderIs(npages + queues - 1, q, queues - 1, queues);
    } else {
      assert (q + 1) * queues == q * queues + queues;
      RemainderIs(npages + queues - 1, q + 1, r - 1, queues);
    }
  }

  /** Entry `j` of queue `i`'s table: the next page of the permutation, or nothing past its end. */
  function Share(arr: seq<nat>, nents: nat, i: nat): seq<Option<nat>> {
    seq(nents, j requires 0 <= j < nents => if i * nents + j < |arr| then Some(arr[i * nents + j]) else None)
  }

  /** The table-filling loops, which run the index `idx` through both tables of a queue before the next one. */
  method VmallocToSgtables(arr: seq<nat>, queues: nat) returns (src: seq<seq<Option<nat>>>, dst: seq<seq<Option<nat>>>)
    requires queues > 0
    ensures |src| == |dst| == queues
    ensures forall i :: 0 <= i < queues ==> src[i] == dst[i] == Share(arr, EntriesPerQueue(|arr|, queues), i)
    ensures var nents := (|arr| + queues - 1) / queues;
      forall i, j :: 0 <= i < queues && 0 <= j < nents ==>
        |src[i]| == nents && src[i][j] == if i * nents + j < |arr| then Some(arr[i * nents + j]) else None
  {
    var nents := EntriesPerQueue(|arr|, queues);
    RoundedUp(|arr|, queues);
    src, dst := [], [];
    var idx := 0;
    for i := 0 to queues
      invariant |src| == |dst| == i
      invariant idx == Min(i * nents, |arr|)
      invariant forall k :: 0 <= k < i ==> src[k] == dst[k] == Share(arr, nents, k)
    {
      var srcTable: seq<Option<nat>> := seq(nents, _ => None);
      var j := 0;
      while j < nents && idx + j < |arr|
        invariant 0 <= j <= nents && |srcTable| == nents
        invariant forall k :: 0 <= k < nents ==>
          srcTable[k] == if k < j && idx + k < |arr| then Some(arr[idx + k]) else None
      {
        srcTable := srcTable[j := Some(arr[idx + j])];
        j := j + 1;
      }
      var dstTable: seq<Option<nat>> := seq(nents, _ => None);
      ghost var first := idx;
      j := 0;
      while j < nents && idx < |arr|
        invariant 0 <= j <= nents && |dstTable| == nents && idx == Min(first + j, |arr|)
        invariant forall k :: 0 <= k < nents ==>
          dstTable[k] == if k < j && first + k < |arr| then Some(arr[first + k]) else None
      {
        dstTable := dstTable[j := Some(arr[idx])];
        idx := idx + 1;
        j := j + 1;
      }
      assert (i + 1) * nents == i * nents + nents;
      assert srcTable == Share(arr, nents, i);
      assert dstTable == Share(arr, nents, i);
      src, dst := src + [srcTable], dst + [dstTable];
    }
  }

  /** Entry `j` of queue `i`'s table names page `p`. */
  predicate Entry(arr: seq<nat>, queues: nat, i: nat, j: nat, p: nat)
    requires queues > 0
  {
    var nents := EntriesPerQueue(|arr|, queues);
    i < queues && j < nents && Share(arr, nents, i)[j] == Some(p)
  }

  /** The place in the permutation of entry `j` of table `i`. */
  function Slot(i: nat, j: nat, nents: nat): nat {
    i * nents + j
  }

  lemma EntryIsSlot(arr: seq<nat>, queues: nat, i: nat, j: nat, p: nat)
    requires queues > 0
    ensures var nents := EntriesPerQueue(|arr|, queues);
      Entry(arr, queues, i, j, p) <==> i < queues && j < nents && Slot(i, j, nents) < |arr| && arr[Slot(i, j, nents)] == p
  {
    hide EntriesPerQueue;
  }

  /** Whatever the permutation and the number of queues, every page is named by exactly one entry of one queue's
      table. */
  lemma SharesPartition(arr: seq<nat>, npages: nat, queues: nat, p: nat)
    requires queues > 0 && IsPermutation(arr, npages) && p < npages
    ensures exists i: nat, j: nat :: Entry(arr, queues, i, j, p)
                                     && forall x: nat, y: nat :: Entry(arr, queues, x, y, p) ==> x == i && y == j
  {
    hide EntriesPerQueue, Entry, Slot;
    var nents := EntriesPerQueue(npages, queues);
    PermutationNamesAll(arr, npages, p);
    var k :| 0 <= k < |arr| && arr[k] == p;
    var i, j := PlaceOf(npages, queues, k);
    EntryIsSlot(arr, queues, i, j, p);
    forall x: nat, y: nat | Entry(arr, queues, x, y, p)
      ensures x == i && y == j
    {
      EntryIsSlot(arr, queues, x, y, p);
      assert Slot(x, y, nents) == k;
      SlotsDiffer(i, j, x, y, nents);
    }
  }

  lemma PlaceOf(npages: nat, queues: nat, k: nat) returns (i: nat, j: nat)
    requires queues > 0 && k < npages
    ensures var nents := EntriesPerQueue(npages, queues);
      i < queues && j < nents && Slot(i, j, nents) == k
  {
    hide EntriesPerQueue;
    var nents := EntriesPerQueue(npages, queues);
    EnoughEntries(npages, queues);
    i, j := k / nents, k % nents;
    QuotientBelow(k, nents, queues);
  }

  lemma SlotsDiffer(i: nat, j: nat, x: nat, y: nat, n: nat)
    requires j < n && y < n && Slot(i, j, n) == Slot(x, y, n)
    ensures i == x && j == y
  {
    RemainderIs(Slot(i, j, n), i, j, n);
    RemainderIs(Slot(x, y, n), x, y, n);
  }

  lemma QuotientBelow(k: nat, n: nat, bound: nat)
    requires n > 0 && k < bound * n
    ensures k / n < bound
  {
    assert k == k / n * n + k % n;
    Product(k / n - bound, n);
    assert (k / n - bound) * n == k / n * n - bound * n;
  }

  lemma EnoughEntries(npages: nat, queues: nat)
    requires queues > 0
    ensures var nents := EntriesPerQueue(npages, queues);
      npages <= queues * nents && (npages > 0 ==> nents > 0) && (queues * nents == npages <==> npages % queues == 0)
  {
    var q, r := npages / queues, npages % queues;
    assert npages == queues * q + r;
    assert queues * (q + 1) == queues * q + queues;
  }

  lemma EntryBelow(i: nat, j: nat, queues: nat, nents: nat)
    requires i < queues && j < nents
    ensures i * nents + j < queues * nents
    ensures (queues - 1) * nents + (nents - 1) == queues * nents - 1
  {
    assert (queues - 1 - i) * nents >= 0;
    assert queues * nents == (queues - 1 - i) * nents + i * nents + nents;
  }

  /** Every table entry has a page exactly when the number of queues divides the number of pages. */
  lemma TablesFullIff(arr: seq<nat>, queues: nat)
    requires queues > 0 && arr != []
    ensures var nents := EntriesPerQueue(|arr|, queues);
      (forall i, j :: 0 <= i < queues && 0 <= j < nents ==> Share(arr, nents, i)[j].Some?) <==> |arr| % queues == 0
  {
    hide EntriesPerQueue;
    var nents := EntriesPerQueue(|arr|, queues);
    EnoughEntries(|arr|, queues);
    EntryBelow(queues - 1, nents - 1, queues, nents);
    if |arr| % queues == 0 {
      forall i, j | 0 <= i < queues && 0 <= j < nents ensures Share(arr, nents, i)[j].Some? {
        EntryBelow(i, j, queues, nents);
      }
    } else {
      assert Share(arr, nents, queues - 1)[nents - 1].None?;
    }
  }

  /** The pages of a full table. */
  method PagesOf(table: seq<Option<nat>>) returns (pages: seq<nat>)
    requires forall j :: 0 <= j < |table| ==> table[j].Some?
    ensures |pages| == |table| && forall j :: 0 <= j < |table| ==> table[j] == Some(pages[j])
  {
    pages := [];
    for i := 0 to |table|
      invariant |pages| == i && forall j :: 0 <= j < i ==> table[j] == Some(pages[j])
    {
      pages := pages + [table[i].value];
    }
  }

  /** A full share is the next stretch of the permutation. */
  lemma ShareIsStretch(arr: seq<nat>, nents: nat, i: nat, pages: seq<nat>)
    requires Slot(i, nents, nents) <= |arr| && |pages| == nents
    requires forall j :: 0 <= j < nents ==> Share(arr, nents, i)[j] == Some(pages[j])
    ensures pages == arr[i * nents..i * nents + nents]
    ensures Pairs(arr, arr, i * nents) + Pairs(pages, pages, nents) == Pairs(arr, arr, i * nents + nents)
  {
    var start := i * nents;
    forall j | 0 <= j < nents ensures pages[j] == arr[start + j] {
      assert Share(arr, nents, i)[j] == Some(arr[start + j]);
    }
    PairsGrow(arr, arr, start, nents);
    assert Pairs(arr[start..], arr[start..], nents) == Pairs(pages, pages, nents);
  }

  lemma StretchFits(i: nat, queues: nat, nents: nat, n: nat)
    requires i < queues && queues * nents == n
    ensures Slot(i, nents, nents) == (i + 1) * nents == i * nents + nents <= n
  {
    Distribute(i, 1, nents);
    Distribute(queues - 1 - i, i + 1, nents);
  }

  /** The descriptors of the first `i` queues. */
  function QueuesDescs(arr: seq<nat>, nents: nat, i: nat): seq<SubDesc> {
    Pairs(arr, arr, Min(i * nents, |arr|))
  }

  lemma NoneAndAll(arr: seq<nat>, nents: nat, queues: nat)
    requires queues * nents == |arr|
    ensures QueuesDescs(arr, nents, 0) == [] && QueuesDescs(arr, nents, queues) == Pairs(arr, arr, |arr|)
  {
  }

  /** One queue's descriptors, batched. */
  method QueueDescs(arr: seq<nat>, queues: nat, i: nat, src: seq<Option<nat>>, dst: seq<Option<nat>>, maxBatch: nat)
    returns (descs: seq<SubDesc>)
    requires arr != [] && i < queues && |arr| % queues == 0 && maxBatch >= 1
    requires src == dst == Share(arr, EntriesPerQueue(|arr|, queues), i)
    ensures var nents := EntriesPerQueue(|arr|, queues);
      QueuesDescs(arr, nents, i) + descs == QueuesDescs(arr, nents, i + 1)
  {
    hide Flatten, Pairs, EntriesPerQueue, Slot;
    ghost var nents := EntriesPerQueue(|arr|, queues);
    EnoughEntries(|arr|, queues);
    StretchFits(i, queues, nents, |arr|);
    TablesFullIff(arr, queues);
    assert forall j :: 0 <= j < nents ==> Share(arr, nents, i)[j].Some?;
    var srcPages := PagesOf(src);
    var dstPages := PagesOf(dst);
    assert srcPages == dstPages;
    ShareIsStretch(arr, nents, i, srcPages);
    var batches := DsaCopyBatches(srcPages, dstPages, maxBatch);
    descs := Flatten(batches);
  }

  /** The test with several devices: if the queues divide the pages, then whatever the random numbers, each
      queue's batch limit, and the order in which all the queues' descriptors are executed, the source area is
      copied and nothing else changes. */
  method ShuffledCopyOverQueues<Page>(m: seq<Page>, n: nat, random: nat -> nat, queues: nat, maxBatch: nat -> nat,
                                      order: seq<SubDesc> -> seq<SubDesc>)
    returns (r: seq<Page>)
    requires n > 0 && |m| == 2 * n && queues > 0 && n % queues == 0 && forall q :: maxBatch(q) >= 1
    requires forall descs :: SameDescs(order(descs), descs)
    ensures r == Move(m, n, 0, n)
  {
    hide Share, Pairs, EntriesPerQueue, Move, IsPermutation, SameDescs, QueuesDescs;
    var pages := RandomArr(n, random);
    var arr := pages[..];
    PermutationLength(arr, n);
    var src, dst := VmallocToSgtables(arr, queues);
    ghost var nents := EntriesPerQueue(n, queues);
    EnoughEntries(n, queues);
    NoneAndAll(arr, nents, queues);
    var all: seq<SubDesc> := [];
    for i := 0 to queues
      invariant all == QueuesDescs(arr, nents, i)
    {
      var descs := QueueDescs(arr, queues, i, src[i], dst[i], maxBatch(i));
      all := all + descs;
    }
    var done := order(all);
    ShuffledCopyIsCopy(m, arr, n, done);
    r := Executed(m, n, done);
  }

  lemma PermutationLength(arr: seq<nat>, n: nat)
    requires IsPermutation(arr, n)
    ensures |arr| == n
  {
  }
}
