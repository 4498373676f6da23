/** The arithmetic that cuts one memory operation into chunks and each chunk into a CPU and a device share. */
module Chunking {
  import opened Basics
  import opened Memory

  /** The tunable share of the work that the CPU keeps. */
  type Fraction = f: real | 0.0 <= f < 1.0

  lemma ScaleOrder(a: real, b: real, c: real)
    requires a <= b && c >= 0.0
    ensures a * c <= b * c
  {
    assert (b - a) * c == b * c - a * c;
  }

  lemma ScaleStrictly(a: real, b: real, c: real)
    requires a < b && c > 0.0
    ensures a * c < b * c
  {
    assert (b - a) * c > 0.0;
    assert (b - a) * c == b * c - a * c;
  }

  lemma Complement(x: real, f: real)
    ensures x * (1.0 - f) == x - x * f
  {
  }

  lemma ShareBounds(x: real, f: Fraction)
    requires x >= 0.0
    ensures 0.0 <= x * f <= x
    ensures x > 0.0 ==> x * f < x
  {
    ScaleOrder(f, 1.0, x);
    if x > 0.0 {
      ScaleStrictly(f, 1.0, x);
    }
  }

  function Scaled(x: real, f: Fraction): (r: real)
    requires x >= 0.0
    ensures 0.0 <= r <= x && (x > 0.0 ==> r < x)
  {
    ShareBounds(x, f);
    x * f
  }

  /** What C's conversion of a non-negative double to an integer yields. */
  function Truncate(r: real): (t: nat)
    requires r >= 0.0
    ensures t as real <= r < t as real + 1.0
  {
    r.Floor
  }

  /** The CPU's part of a chunk: its fraction of the length, rounded down. */
  function CpuShare(len: nat, f: Fraction): (share: nat)
    ensures share as real <= len as real * f < share as real + 1.0
    ensures share <= len && (len > 0 ==> share < len)
  {
    Truncate(Scaled(len as real, f))
  }

  function DeviceShare(len: nat, f: Fraction): nat {
    len - CpuShare(len, f)
  }

  /** The longest chunk that is cut off at a time. */
  function Threshold(maxTransfer: nat, f: Fraction): (t: nat)
    ensures maxTransfer <= t
  {
    QuotientGrows(maxTransfer as real, 1.0 - f);
    Truncate(maxTransfer as real / (1.0 - f))
  }

  lemma ThresholdBounds(maxTransfer: nat, f: Fraction)
    ensures var t := Threshold(maxTransfer, f) as real;
      t * (1.0 - f) <= maxTransfer as real < (t + 1.0) * (1.0 - f)
  {
    var t := Threshold(maxTransfer, f) as real;
    QuotientGrows(maxTransfer as real, 1.0 - f);
    QuotientScaled(maxTransfer as real, 1.0 - f, t);
    QuotientScaled(maxTransfer as real, 1.0 - f, t + 1.0);
  }

  lemma QuotientGrows(x: real, room: real)
    requires x >= 0.0 && 0.0 < room <= 1.0
    ensures x / room >= x
  {
    var q := x / room;
    assert q * room == x;
    if q < x {
      ScaleStrictly(q, x, room);
      ScaleOrder(room, 1.0, x);
    }
  }

  lemma QuotientScaled(x: real, room: real, t: real)
    requires 0.0 < room
    ensures t <= x / room ==> t * room <= x
    ensures x / room < t ==> x < t * room
  {
    var q := x / room;
    assert q * room == x;
    if t <= q {
      ScaleOrder(t, q, room);
    } else {
      ScaleStrictly(q, t, room);
    }
  }

  /** Every chunk no longer than the threshold leaves the device at most one full transfer. */
  lemma DeviceShareFits(maxTransfer: nat, f: Fraction, len: nat)
    requires len <= Threshold(maxTransfer, f)
    ensures DeviceShare(len, f) <= maxTransfer
  {
    ThresholdBounds(maxTransfer, f);
    ScaleOrder(len as real, Threshold(maxTransfer, f) as real, 1.0 - f);
    Complement(len as real, f);
    var whole, kept := len as real, len as real * f;
    assert whole - kept <= maxTransfer as real;
    assert CpuShare(len, f) as real > kept - 1.0;
    assert DeviceShare(len, f) as real == whole - CpuShare(len, f) as real;
    assert DeviceShare(len, f) as real < maxTransfer as real + 1.0;
  }

  /** The device's job for a chunk; a chunk of overlapping buffers is not split. */
  function JobSize(overlapping: bool, len: nat, f: Fraction): nat {
    if overlapping then len else DeviceShare(len, f)
  }

  /** When a chunk is sized with one fraction and split with another (the copy loop reads the live value again),
      the device's job stays within every transfer limit exactly when the second fraction is not below the
      first; a chunk that is not split is one split with a fraction of zero. */
  lemma JobFitsIff(overlapping: bool, snapshot: Fraction, live: Fraction)
    ensures (forall maxTransfer: nat, len: nat :: len <= Threshold(maxTransfer, snapshot)
                                                  ==> JobSize(overlapping, len, live) <= maxTransfer)
            <==> snapshot <= if overlapping then 0.0 else live
  {
    hide Threshold, CpuShare;
    if snapshot <= if overlapping then 0.0 else live {
      forall maxTransfer: nat, len: nat | len <= Threshold(maxTransfer, snapshot)
        ensures JobSize(overlapping, len, live) <= maxTransfer
      {
        JobWithin(maxTransfer, snapshot, live, overlapping, len);
      }
    } else {
      var max := OverflowingLimit(snapshot, if overlapping then 0.0 else live);
      var len := Threshold(max, snapshot);
      assert !(JobSize(overlapping, len, live) <= max);
    }
  }

  lemma JobWithin(maxTransfer: nat, snapshot: Fraction, live: Fraction, overlapping: bool, len: nat)
    requires len <= Threshold(maxTransfer, snapshot)
    ensures JobSize(overlapping, len, live) <= Threshold(maxTransfer, snapshot)
    ensures snapshot <= (if overlapping then 0.0 else live) ==> JobSize(overlapping, len, live) <= maxTransfer
  {
    var split := if overlapping then 0.0 else live;
    if snapshot <= split {
      DeviceShareFits(maxTransfer, snapshot, len);
      CpuShareMonotone(len, snapshot, split);
    }
  }

  lemma CpuShareMonotone(len: nat, f: Fraction, g: Fraction)
    requires f <= g
    ensures CpuShare(len, f) <= CpuShare(len, g)
  {
    ScaleOrder(f, g, len as real);
    TruncateMonotone(Scaled(len as real, f), Scaled(len as real, g));
  }

  lemma TruncateMonotone(a: real, b: real)
    requires 0.0 <= a <= b
    ensures Truncate(a) <= Truncate(b)
  {
    assert Truncate(a) as real < Truncate(b) as real + 1.0;
  }

  lemma Regroup(t: real, snapshot: real, live: real)
    ensures t - t * live == (t + 1.0) * (1.0 - snapshot) + t * (snapshot - live) - (1.0 - snapshot)
  {
  }

  /** A transfer limit that a chunk sized with `snapshot` but split with the smaller `live` exceeds. */
  lemma OverflowingLimit(snapshot: Fraction, live: Fraction) returns (max: nat)
    requires live < snapshot
    ensures DeviceShare(Threshold(max, snapshot), live) > max
  {
    var gap := snapshot - live;
    var room := 2.0 / gap;
    assert room * gap == 2.0;
    max := room.Floor + 1;
    var t := Threshold(max, snapshot) as real;
    assert t >= max as real >= room;
    ThresholdBounds(max, snapshot);
    ScaleOrder(room, t, gap);
    Regroup(t, snapshot, live);
    assert t * gap >= 2.0;
    assert t - t * live > max as real + 1.0;
  }

  // ---------------------------------------------------------------------------------------------
  // A copy made chunk by chunk, from low to high addresses
  // ---------------------------------------------------------------------------------------------

  function MoveChunks<T>(m: seq<T>, dst: nat, src: nat, lens: seq<nat>): (r: seq<T>)
    requires dst + Sum(lens) <= |m| && src + Sum(lens) <= |m|
    ensures |r| == |m|
    decreases |lens|
  {
    if lens == [] then m
    else
      var front, last := lens[..|lens| - 1], lens[|lens| - 1];
      Move(MoveChunks(m, dst, src, front), dst + Sum(front), src + Sum(front), last)
  }

  lemma MoveChunksSnoc<T>(m: seq<T>, dst: nat, src: nat, lens: seq<nat>, n: nat)
    requires dst + Sum(lens) + n <= |m| && src + Sum(lens) + n <= |m|
    ensures Sum(lens + [n]) == Sum(lens) + n
    ensures MoveChunks(m, dst, src, lens + [n]) == Move(MoveChunks(m, dst, src, lens), dst + Sum(lens), src + Sum(lens), n)
  {
    assert (lens + [n])[..|lens + [n]| - 1] == lens;
  }

  /** Two adjacent copies are one when no cell of the second source was written by the first. */
  lemma MoveThenMove<T>(m: seq<T>, dst: nat, src: nat, a: nat, b: nat)
    requires dst + a + b <= |m| && src + a + b <= |m|
    requires dst <= src || Disjoint(dst, src, a + b)
    ensures Move(Move(m, dst, src, a), dst + a, src + a, b) == Move(m, dst, src, a + b)
  {
  }

  lemma {:induction false} ChunksAreOneMove<T>(m: seq<T>, dst: nat, src: nat, lens: seq<nat>)
    requires dst + Sum(lens) <= |m| && src + Sum(lens) <= |m|
    requires dst <= src || Disjoint(dst, src, Sum(lens))
    ensures MoveChunks(m, dst, src, lens) == Move(m, dst, src, Sum(lens))
    decreases |lens|
  {
    if lens != [] {
      var front, last := lens[..|lens| - 1], lens[|lens| - 1];
      ChunksAreOneMove(m, dst, src, front);
      MoveThenMove(m, dst, src, Sum(front), last);
    }
  }

  /** Memory holding `one` in the single cell `p`, and `zero` everywhere else. */
  predicate Marked<T(==)>(m: seq<T>, p: nat, zero: T, one: T) {
    p < |m| && zero != one && m[p] == one && forall i :: 0 <= i < |m| && i != p ==> m[i] == zero
  }

  /** The first source offset that the first chunk of an upward-overlapping copy destroys before it is read. */
  function ClobberedOffset(dst: nat, src: nat, first: nat): nat {
    if src <= dst && first < dst - src then dst - src else first
  }

  /** Chunked from low to high, an upward-overlapping copy loses a byte of its source: with a single marked
      byte there, no trace of it is left anywhere. */
  lemma {:induction false} ChunksLoseMark<T>(m: seq<T>, dst: nat, src: nat, lens: seq<nat>, zero: T, one: T)
    requires dst + Sum(lens) <= |m| && src + Sum(lens) <= |m|
    requires lens != [] && 0 < lens[0] && src < dst
    requires Marked(m, src + ClobberedOffset(dst, src, lens[0]), zero, one)
    ensures forall i :: 0 <= i < |m| ==> MoveChunks(m, dst, src, lens)[i] == zero
    decreases |lens|
  {
    var front, last := lens[..|lens| - 1], lens[|lens| - 1];
    if |lens| == 1 {
      assert front == [] && Sum(front) == 0;
      assert MoveChunks(m, dst, src, lens) == Move(m, dst, src, lens[0]);
    } else {
      ChunksLoseMark(m, dst, src, front, zero, one);
    }
  }

  /** A copy cut into chunks (none of them empty) works for every memory content exactly when it is a single
      chunk, or the destination does not lie strictly above the source and inside it. */
  lemma ChunkedMoveCorrectIff(size: nat, dst: nat, src: nat, lens: seq<nat>)
    requires dst + Sum(lens) <= size && src + Sum(lens) <= size
    requires forall i :: 0 <= i < |lens| ==> lens[i] > 0
    ensures (forall m: seq<int> | |m| == size :: MoveChunks(m, dst, src, lens) == Move(m, dst, src, Sum(lens)))
            <==> |lens| <= 1 || dst <= src || src + Sum(lens) <= dst
  {
    if dst <= src || src + Sum(lens) <= dst {
      forall m: seq<int> | |m| == size
        ensures MoveChunks(m, dst, src, lens) == Move(m, dst, src, Sum(lens))
      {
        ChunksAreOneMove(m, dst, src, lens);
      }
    } else if |lens| <= 1 {
      forall m: seq<int> | |m| == size
        ensures MoveChunks(m, dst, src, lens) == Move(m, dst, src, Sum(lens))
      {
        if |lens| == 1 {
          assert lens[..0] == [] && Sum(lens) == lens[0];
        }
      }
    } else {
      SumSplit(lens);
      SumSplit(lens[1..]);
      var m := ChunkedMoveFails(size, dst, src, lens);
    }
  }

  /** The witness of failure: one marked byte at the first clobbered offset. */
  lemma MarkedMoveFails<T>(m: seq<T>, dst: nat, src: nat, lens: seq<nat>, zero: T, one: T)
    requires dst + Sum(lens) <= |m| && src + Sum(lens) <= |m|
    requires lens != [] && 0 < lens[0] < Sum(lens)
    requires src < dst < src + Sum(lens)
    requires Marked(m, src + ClobberedOffset(dst, src, lens[0]), zero, one)
    ensures MoveChunks(m, dst, src, lens) != Move(m, dst, src, Sum(lens))
  {
    var q := ClobberedOffset(dst, src, lens[0]);
    ChunksLoseMark(m, dst, src, lens, zero, one);
    assert Move(m, dst, src, Sum(lens))[dst + q] == one;
  }

  lemma ChunkedMoveFails(size: nat, dst: nat, src: nat, lens: seq<nat>) returns (m: seq<int>)
    requires dst + Sum(lens) <= size && src + Sum(lens) <= size
    requires lens != [] && 0 < lens[0] < Sum(lens)
    requires src < dst < src + Sum(lens)
    ensures |m| == size && MoveChunks(m, dst, src, lens) != Move(m, dst, src, Sum(lens))
  {
    var p := src + ClobberedOffset(dst, src, lens[0]);
    m := seq(size, i => if i == p then 1 else 0);
    assert Marked(m, p, 0, 1);
    MarkedMoveFails(m, dst, src, lens, 0, 1);
  }
}
