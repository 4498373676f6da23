/** The performance monitor of the idxd driver: counting with counters of limited width, and the assignment of
    events to counters. */
module Perfmon {
  import opened Basics

  // ---------------------------------------------------------------------------------------------
  // Counting
  // ---------------------------------------------------------------------------------------------

  function Pow2(k: nat): (p: nat)
    ensures p > 0
  {
    if k == 0 then 1 else 2 * Pow2(k - 1)
  }

  const U64 := Pow2(64)

  lemma SmallPowers()
    ensures Pow2(0) == 1 && Pow2(1) == 2 && Pow2(2) == 4
  {
  }

  /** The range of a 64-bit word, and of the smallest counters. */
  lemma WordSize()
    ensures U64 == 0x1_0000_0000_0000_0000 && Pow2(1) == 2 && Pow2(8) == 256
  {
    hide Pow2;
    SmallPowers();
    Pow2Add(2, 2);
    Pow2Add(4, 4);
    Pow2Add(8, 8);
    Pow2Add(16, 16);
    Pow2Add(32, 32);
  }

  /** The difference that `perfmon_pmu_event_update` adds: both readings shifted up to the top of a 64-bit word,
      subtracted there, and shifted down again. */
  function Delta(prev: nat, now: nat, width: nat): nat
    requires 1 <= width <= 64
  {
    ShiftedDifference(prev, now, Pow2(64 - width), U64)
  }

  function ShiftedDifference(prev: nat, now: nat, unit: nat, word: nat): nat
    requires unit > 0 && word > 0
  {
    var n: int, p: int := (now * unit) % word, (prev * unit) % word;
    ((n - p) % word) / unit
  }

  lemma {:induction false} Pow2Add(a: nat, b: nat)
    ensures Pow2(a + b) == Pow2(a) * Pow2(b)
  {
    if a > 0 {
      Pow2Add(a - 1, b);
      assert Pow2(a + b) == 2 * (Pow2(a - 1) * Pow2(b));
    }
  }

  lemma ScaleParts(q: int, m: int, r: int, unit: int)
    ensures (q * m + r) * unit == q * (m * unit) + r * unit
  {
    assert (q * m) * unit == q * (m * unit);
  }

  lemma ScaledBounds(r: int, m: int, unit: int)
    requires 0 <= r < m && 0 < unit
    ensures 0 <= r * unit < m * unit
  {
    Product(m - r, unit);
    assert (m - r) * unit == m * unit - r * unit;
  }

  /** Scaling by `unit` commutes with taking remainders. */
  lemma ScaledRemainder(a: int, unit: nat, m: nat)
    requires unit > 0 && m > 0 && m * unit > 0
    ensures (a * unit) % (m * unit) == (a % m) * unit
  {
    var q, r := a / m, a % m;
    ScaleParts(q, m, r, unit);
    ScaledBounds(r, m, unit);
    RemainderIs(a * unit, q, r * unit, m * unit);
  }

  lemma DifferenceOfRemainders(a: int, b: int, m: nat)
    requires m > 0
    ensures (a % m - b % m) % m == (a - b) % m
  {
    var p, q := a / m, b / m;
    var d := a % m - b % m;
    var s, r := d / m, d % m;
    assert d == s * m + r;
    assert a - b == (p - q + s) * m + r;
    RemainderIs(a - b, p - q + s, r, m);
  }

  /** For every width the shifted subtraction is the difference modulo two to the width. */
  lemma DeltaIsModular(prev: nat, now: nat, width: nat)
    requires 1 <= width <= 64
    ensures Delta(prev, now, width) == (now - prev) % Pow2(width)
  {
    hide Pow2;
    var unit, m := Pow2(64 - width), Pow2(width);
    Pow2Add(width, 64 - width);
    ScaledRemainder(now, unit, m);
    ScaledRemainder(prev, unit, m);
    var d: int := now % m as int - prev % m as int;
    SubtractScaled(now % m, prev % m, unit);
    ScaledRemainder(d, unit, m);
    DifferenceOfRemainders(now, prev, m);
    RemainderIs((d % m) * unit, d % m, 0, unit);
  }

  lemma SubtractScaled(a: int, b: int, unit: int)
    ensures a * unit - b * unit == (a - b) * unit
  {
  }

  class PerfEvent {
    var prevCount: nat
    var count: nat
    const counterWidth: nat
    /** The true number of events at the start and at each reading. */
    ghost var truth: seq<nat>

    constructor (width: nat, start: nat, ghost total: nat)
      requires 1 <= width <= 64
      ensures counterWidth == width && prevCount == start && count == 0 && truth == [total]
      ensures start == total % Pow2(width) ==> Tracks()
    {
      hide Pow2;
      counterWidth, prevCount, count, truth := width, start, 0, [total];
      RemainderIs(0, 0, 0, U64);
    }

    /** The counter has always shown the true number of events modulo its range. */
    ghost predicate Tracks()
      reads this
    {
      && 1 <= counterWidth <= 64 && truth != []
      && prevCount == truth[|truth| - 1] % Pow2(counterWidth)
      && count == Accumulated(truth, counterWidth) % U64
    }

    /** Reads the counter and adds what it has advanced since the last reading. */
    method EventUpdate(newRawCount: nat, ghost total: nat)
      requires 1 <= counterWidth <= 64
      modifies this
      ensures prevCount == newRawCount && truth == old(truth) + [total]
      ensures count == (old(count) + (newRawCount - old(prevCount)) % Pow2(counterWidth)) % U64
      ensures old(Tracks()) && newRawCount == total % Pow2(counterWidth) ==> Tracks()
      ensures old(Tracks()) && newRawCount == total % Pow2(counterWidth) && Grows(truth) ==>
                (count + truth[0] == total <==> ReadOftenEnough(truth, counterWidth) && total - truth[0] < U64)
    {
      hide Pow2, Accumulated, ReadOftenEnough, Grows;
      var unit := Pow2(64 - counterWidth);
      var n := (newRawCount * unit) % U64;
      var p := (prevCount * unit) % U64;
      var delta := ((n - p) % U64) / unit;
      DeltaIsModular(prevCount, newRawCount, counterWidth);
      if Tracks() && newRawCount == total % Pow2(counterWidth) {
        AccumulatedSnoc(truth, total, counterWidth);
        SumOfRemainders(Accumulated(truth, counterWidth), delta, U64);
        if Grows(truth + [total]) {
          CountIsTrueIff(truth + [total], counterWidth);
        }
      }
      prevCount := newRawCount;
      count := (count + delta) % U64;
      truth := truth + [total];
    }
  }

  lemma AccumulatedSnoc(truth: seq<nat>, total: nat, width: nat)
    requires 1 <= width <= 64 && truth != []
    ensures Accumulated(truth + [total], width)
      == Accumulated(truth, width) + Delta(truth[|truth| - 1] % Pow2(width), total % Pow2(width), width)
  {
    hide Pow2, Delta;
    assert (truth + [total])[..|truth|] == truth;
  }

  lemma SumOfRemainders(a: nat, b: nat, m: nat)
    requires m > 0
    ensures (a % m + b) % m == (a + b) % m
  {
    var q, r := a / m, a % m;
    var s, t := (r + b) / m, (r + b) % m;
    assert a + b == (q + s) * m + t;
    RemainderIs(a + b, q + s, t, m);
  }

  /** What a run of updates adds up to, when the counter holds the true number of events modulo its width. */
  function Accumulated(truth: seq<nat>, width: nat): nat
    requires 1 <= width <= 64
    decreases |truth|
  {
    if |truth| <= 1 then 0
    else
      var k := |truth| - 1;
      Accumulated(truth[..k], width) + Delta(truth[k - 1] % Pow2(width), truth[k] % Pow2(width), width)
  }

  predicate Grows(truth: seq<nat>) {
    forall k :: 0 < k < |truth| ==> truth[k - 1] <= truth[k]
  }

  predicate ReadOftenEnough(truth: seq<nat>, width: nat) {
    forall k :: 0 < k < |truth| ==> truth[k] < truth[k - 1] + Pow2(width)
  }

  lemma {:induction false} AccumulatedBounds(truth: seq<nat>, width: nat)
    requires 1 <= width <= 64 && truth != [] && Grows(truth)
    ensures Accumulated(truth, width) + truth[0] <= truth[|truth| - 1]
    ensures Accumulated(truth, width) + truth[0] == truth[|truth| - 1] <==> ReadOftenEnough(truth, width)
    decreases |truth|
  {
    if |truth| > 1 {
      hide Pow2, Delta;
      var k := |truth| - 1;
      var front := truth[..k];
      AccumulatedBounds(front, width);
      LastGap(truth[k - 1], truth[k], width);
      ReadOftenSnoc(truth, width);
    }
  }

  lemma ReadOftenSnoc(truth: seq<nat>, width: nat)
    requires |truth| > 1
    ensures var k := |truth| - 1;
      ReadOftenEnough(truth, width) <==> ReadOftenEnough(truth[..k], width) && truth[k] < truth[k - 1] + Pow2(width)
  {
    hide Pow2;
    var k := |truth| - 1;
    if ReadOftenEnough(truth[..k], width) && truth[k] < truth[k - 1] + Pow2(width) {
      forall j | 0 < j < |truth| ensures truth[j] < truth[j - 1] + Pow2(width) {
        if j < k {
          assert truth[..k][j] < truth[..k][j - 1] + Pow2(width);
        }
      }
    }
    if ReadOftenEnough(truth, width) {
      forall j | 0 < j < k ensures truth[..k][j] < truth[..k][j - 1] + Pow2(width) {
        assert truth[j] < truth[j - 1] + Pow2(width);
      }
    }
  }

  lemma LastGap(before: nat, after: nat, width: nat)
    requires 1 <= width <= 64 && before <= after
    ensures var d := Delta(before % Pow2(width), after % Pow2(width), width);
      before + d <= after && (before + d == after <==> after < before + Pow2(width))
  {
    hide Pow2, Delta;
    var m := Pow2(width);
    DeltaIsModular(before % m, after % m, width);
    DifferenceOfRemainders(after, before, m);
    GapRemainder(after - before, m);
  }

  lemma GapRemainder(gap: nat, m: nat)
    requires m > 0
    ensures gap % m <= gap && (gap % m == gap <==> gap < m)
  {
  }

  /** The count, kept in 64 bits, is the true number of events since the start exactly when every gap between
      readings is shorter than the counter's range and the number fits 64 bits. */
  lemma CountIsTrueIff(truth: seq<nat>, width: nat)
    requires 1 <= width <= 64 && truth != [] && Grows(truth)
    ensures Accumulated(truth, width) % U64 + truth[0] == truth[|truth| - 1]
            <==> ReadOftenEnough(truth, width) && truth[|truth| - 1] - truth[0] < U64
  {
    hide Pow2, Accumulated;
    AccumulatedBounds(truth, width);
    GapRemainder(Accumulated(truth, width), U64);
  }
}
