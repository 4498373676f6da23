/** DTO's auto-tuner: it samples how long threads wait for the device and moves two knobs, the CPU's share of
    each job and the smallest job worth offloading. */
module Tuner {
  import opened Basics

  const DESCS_PER_RUN := 0xF0
  const NUM_DESCS := 16
  const MAX_CPU_SIZE_FRACTION := 0.9
  const CSF_STEP := 0.01
  const MAX_DSA_MIN_SIZE := 65536
  const MIN_DSA_MIN_SIZE := 6144
  const DMS_STEP := 1024
  const UINT64_LIMIT := 0x1_0000_0000_0000_0000

  /** Average waits per descriptor below `least` ask for more load on the device, above `most` for less. */
  datatype Band = Band(least: real, most: real)

  datatype State = State(numDescs: nat, adjustDescs: nat, adjustWaits: nat, fraction: real, minSize: nat)

  /** `n & DESCS_PER_RUN == DESCS_PER_RUN`: bits 4 to 7 are all set. */
  predicate Sampled(n: nat) {
    n % 256 >= DESCS_PER_RUN
  }

  /** Less load on the device: a larger CPU share, and once that is exhausted a larger offload minimum. */
  function Relieve(s: State): State {
    if s.fraction < MAX_CPU_SIZE_FRACTION then s.(fraction := s.fraction + CSF_STEP)
    else if s.minSize < MAX_DSA_MIN_SIZE then s.(minSize := s.minSize + DMS_STEP)
    else s
  }

  function Load(s: State): State {
    if s.fraction >= CSF_STEP then s.(fraction := s.fraction - CSF_STEP)
    else if s.minSize > MIN_DSA_MIN_SIZE then s.(minSize := s.minSize - DMS_STEP)
    else s
  }

  /** The state after one wait that took `waits` polls. */
  function AfterWait(s: State, waits: nat, band: Band): State {
    var t := s.(numDescs := (s.numDescs + 1) % UINT64_LIMIT);
    if !Sampled(t.numDescs) then t
    else
      var u := t.(adjustDescs := s.adjustDescs + 1, adjustWaits := s.adjustWaits + waits);
      if u.adjustDescs < NUM_DESCS then u
      else
        var average := u.adjustWaits as real / u.adjustDescs as real;
        var v := u.(adjustDescs := 0, adjustWaits := 0);
        if average > band.most then Relieve(v) else if average < band.least then Load(v) else v
  }

  class Tuner {
    var numDescs: nat
    var adjustNumDescs: nat
    var adjustNumWaits: nat
    var cpuSizeFraction: real
    var dsaMinSize: nat
    const minAvgWaits: real
    const maxAvgWaits: real

    constructor (fraction: real, minSize: nat, band: Band)
      ensures View() == State(0, 0, 0, fraction, minSize)
      ensures minAvgWaits == band.least && maxAvgWaits == band.most
    {
      numDescs, adjustNumDescs, adjustNumWaits := 0, 0, 0;
      cpuSizeFraction, dsaMinSize := fraction, minSize;
      minAvgWaits, maxAvgWaits := band.least, band.most;
    }

    function View(): State
      reads this
    {
      State(numDescs, adjustNumDescs, adjustNumWaits, cpuSizeFraction, dsaMinSize)
    }

    /** One wait for a completion record that `localNumWaits` polls find unwritten. */
    method DsaWaitAndAdjust(localNumWaits: nat)
      modifies this
      ensures View() == AfterWait(old(View()), localNumWaits, Band(minAvgWaits, maxAvgWaits))
    {
      numDescs := (numDescs + 1) % UINT64_LIMIT;
      if !Sampled(numDescs) {
        return;
      }
      adjustNumDescs := adjustNumDescs + 1;
      adjustNumWaits := adjustNumWaits + localNumWaits;
      if adjustNumDescs >= NUM_DESCS {
        var avgNumWaits := adjustNumWaits as real / adjustNumDescs as real;
        adjustNumDescs, adjustNumWaits := 0, 0;
        if avgNumWaits > maxAvgWaits {
          if cpuSizeFraction < MAX_CPU_SIZE_FRACTION {
            cpuSizeFraction := cpuSizeFraction + CSF_STEP;
          } else if dsaMinSize < MAX_DSA_MIN_SIZE {
            dsaMinSize := dsaMinSize + DMS_STEP;
          }
        } else if avgNumWaits < minAvgWaits {
          if cpuSizeFraction >= CSF_STEP {
            cpuSizeFraction := cpuSizeFraction - CSF_STEP;
          } else if dsaMinSize > MIN_DSA_MIN_SIZE {
            dsaMinSize := dsaMinSize - DMS_STEP;
          }
        }
      }
    }
  }

  // ---------------------------------------------------------------------------------------------
  // All runs
  // ---------------------------------------------------------------------------------------------

  function Run(s: State, waits: seq<nat>, band: Band): State
    decreases |waits|
  {
    if waits == [] then s else AfterWait(Run(s, waits[..|waits| - 1], band), waits[|waits| - 1], band)
  }

  predicate Usable(s: State) {
    0.0 <= s.fraction < 1.0 && s.minSize >= 1
  }

  /** The sampling counters are a function of the descriptor count alone. */
  predicate InStep(s: State) {
    && s.numDescs < UINT64_LIMIT
    && s.adjustDescs == (if 240 <= s.numDescs % 256 < 255 then s.numDescs % 256 - 239 else 0)
    && (s.adjustDescs == 0 ==> s.adjustWaits == 0)
  }

  /** From usable knobs every run keeps the share in [0, 1) and the minimum positive, and takes the sampling
      window as a full block of sixteen descriptors. */
  lemma {:induction false} RunStaysUsable(s: State, waits: seq<nat>, band: Band)
    requires Usable(s) && InStep(s)
    ensures Usable(Run(s, waits, band)) && InStep(Run(s, waits, band))
    decreases |waits|
  {
    if waits != [] {
      RunStaysUsable(s, waits[..|waits| - 1], band);
      StepStaysInStep(Run(s, waits[..|waits| - 1], band), waits[|waits| - 1], band);
    }
  }

  lemma {:induction false} WindowSums(s: State, waits: seq<nat>, band: Band)
    requires InStep(s) && s.numDescs % 256 == 239 && |waits| <= 15
    ensures var t := Run(s, waits, band);
      && InStep(t) && t.numDescs % 256 == 239 + |waits|
      && t.adjustWaits == Sum(waits) && t.fraction == s.fraction && t.minSize == s.minSize
    decreases |waits|
  {
    if waits != [] {
      var front := waits[..|waits| - 1];
      hide InStep, Run;
      WindowSums(s, front, band);
      StepAccumulates(Run(s, front, band), waits[|waits| - 1], band);
      RunUnfolds(s, waits, band);
    }
  }

  lemma RunUnfolds(s: State, waits: seq<nat>, band: Band)
    requires waits != []
    ensures Run(s, waits, band) == AfterWait(Run(s, waits[..|waits| - 1], band), waits[|waits| - 1], band)
  {
  }

  lemma StepAccumulates(s: State, waits: nat, band: Band)
    requires InStep(s) && 239 <= s.numDescs % 256 < 254
    ensures var t := AfterWait(s, waits, band);
      && InStep(t) && t.numDescs % 256 == s.numDescs % 256 + 1
      && t.adjustWaits == s.adjustWaits + waits && t.fraction == s.fraction && t.minSize == s.minSize
  {
    StepStaysInStep(s, waits, band);
    NextPosition(s.numDescs);
  }

  /** Each window of sixteen descriptors adjusts the knobs by the sum of all its waits. */
  lemma WindowAdjusts(s: State, waits: seq<nat>, band: Band)
    requires InStep(s) && s.numDescs % 256 == 239 && |waits| == 16 && band.least <= band.most
    ensures Adjusted(s, Run(s, waits, band), Sum(waits) as real, band)
  {
    hide InStep, AfterWait;
    WindowSums(s, waits[..15], band);
    StepFollowsWaits(Run(s, waits[..15], band), waits[15], band);
    RunUnfolds(s, waits, band);
  }

  lemma NextPosition(n: nat)
    requires n < UINT64_LIMIT
    ensures ((n + 1) % UINT64_LIMIT) % 256 == if n % 256 == 255 then 0 else n % 256 + 1
  {
    if n + 1 == UINT64_LIMIT {
      assert n % 256 == 255;
    }
  }

  lemma StepStaysInStep(s: State, waits: nat, band: Band)
    requires InStep(s)
    ensures var t := AfterWait(s, waits, band);
      && InStep(t)
      && t.numDescs % 256 == (if s.numDescs % 256 == 255 then 0 else s.numDescs % 256 + 1)
      && (t.fraction != s.fraction || t.minSize != s.minSize ==> s.numDescs % 256 == 254)
  {
    NextPosition(s.numDescs);
  }

  /** The knobs move only at every 256th descriptor: after a move, the next 255 waits leave them alone. */
  lemma {:induction false} KnobsRestBetweenWindows(s: State, waits: seq<nat>, band: Band)
    requires InStep(s) && s.numDescs % 256 == 255 && |waits| <= 255
    ensures var t := Run(s, waits, band);
      && t.fraction == s.fraction && t.minSize == s.minSize && InStep(t)
      && t.numDescs % 256 == if waits == [] then 255 else |waits| - 1
    decreases |waits|
  {
    if waits != [] {
      var front := waits[..|waits| - 1];
      hide AfterWait, InStep;
      KnobsRestBetweenWindows(s, front, band);
      StepStaysInStep(Run(s, front, band), waits[|waits| - 1], band);
    }
  }

  /** The knobs after a window with `total` waits for its sixteen descriptors. Long waits take load off the device
      by a step while there is room, the CPU's share first; short waits put load on it in the same way; anything
      between the two bounds leaves the knobs alone. */
  predicate Adjusted(s: State, t: State, total: real, band: Band) {
    && (total > band.most * 16.0 ==>
          if s.fraction < 0.9 then t.fraction == s.fraction + 0.01 && t.minSize == s.minSize
          else t.fraction == s.fraction && t.minSize == if s.minSize < 65536 then s.minSize + 1024 else s.minSize)
    && (total < band.least * 16.0 ==>
          if s.fraction >= 0.01 then t.fraction == s.fraction - 0.01 && t.minSize == s.minSize
          else t.fraction == s.fraction && t.minSize == if s.minSize > 6144 then s.minSize - 1024 else s.minSize)
    && (band.least * 16.0 <= total <= band.most * 16.0 ==> t.fraction == s.fraction && t.minSize == s.minSize)
  }

  lemma StepFollowsWaits(s: State, waits: nat, band: Band)
    requires InStep(s) && s.numDescs % 256 == 254 && band.least <= band.most
    ensures var t := AfterWait(s, waits, band);
      Adjusted(s, t, (s.adjustWaits + waits) as real, band) && t.adjustWaits == 0
  {
    StepStaysInStep(s, waits, band);
    assert (s.numDescs + 1) % UINT64_LIMIT == s.numDescs + 1;
  }
}
