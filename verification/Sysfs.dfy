/** Resource accounting behind the idxd driver's sysfs files: which queues and engines belong to which group, how
    many read buffers are reserved, and how much queue space is claimed. */
module Sysfs {
  import opened Basics

  /** A store returns its byte count or an error. */
  datatype Code = Stored | EINVAL | EPERM | EOPNOTSUPP

  const NO_GROUP := -1
  const U32_LIMIT := 0x1_0000_0000
  const INT_LIMIT := 0x8000_0000
  const U64_LIMIT := 0x1_0000_0000_0000_0000
  /** The capability field that holds the total queue size has 16 bits. */
  const WQ_SIZE_LIMIT := 0x1_0000
  const WQ_DEFAULT_QUEUE_DEPTH := 16

  function Members(group: seq<int>, g: int): nat {
    if group == [] then 0 else Members(group[..|group| - 1], g) + if group[|group| - 1] == g then 1 else 0
  }

  lemma {:induction false} MembersUpdate(group: seq<int>, i: nat, x: int, g: int)
    requires i < |group|
    ensures Members(group[i := x], g) == Members(group, g) - (if group[i] == g then 1 else 0) + if x == g then 1 else 0
    ensures group[i] == g ==> Members(group, g) > 0
    decreases |group|
  {
    var n := |group| - 1;
    if i < n {
      MembersUpdate(group[..n], i, x, g);
      assert group[i := x][..n] == group[..n][i := x];
    } else {
      assert group[i := x][..n] == group[..n];
    }
  }

  lemma {:induction false} MembersNone(group: seq<int>, g: int)
    requires forall k :: 0 <= k < |group| ==> group[k] != g
    ensures Members(group, g) == 0
    decreases |group|
  {
    if group != [] {
      MembersNone(group[..|group| - 1], g);
    }
  }

  lemma {:induction false} SumUpdate(s: seq<nat>, i: nat, x: nat)
    requires i < |s|
    ensures Sum(s[i := x]) + s[i] == Sum(s) + x
    decreases |s|
  {
    var n := |s| - 1;
    if i < n {
      SumUpdate(s[..n], i, x);
      assert s[i := x][..n] == s[..n][i := x];
    } else {
      assert s[i := x][..n] == s[..n];
    }
  }

  lemma {:induction false} SumZero(s: seq<nat>)
    requires forall k :: 0 <= k < |s| ==> s[k] == 0
    ensures Sum(s) == 0
    decreases |s|
  {
    if s != [] {
      SumZero(s[..|s| - 1]);
    }
  }

  /** Each group's counter is the number of its members. */
  ghost predicate Counted(counters: seq<int>, group: seq<int>) {
    && (forall g :: 0 <= g < |counters| ==> counters[g] == Members(group, g))
    && (forall k :: 0 <= k < |group| ==> NO_GROUP <= group[k] < |counters|)
  }

  /** The counters after member `i` has left its group, if any, and joined group `id`, if one. */
  function Moved(counters: seq<int>, from: int, to: int): seq<int>
    requires NO_GROUP <= from < |counters| && NO_GROUP <= to < |counters|
  {
    var left := if from == NO_GROUP then counters else counters[from := counters[from] - 1];
    if to == NO_GROUP then left else left[to := left[to] + 1]
  }

  lemma MovedCounts(counters: seq<int>, group: seq<int>, i: nat, to: int)
    requires Counted(counters, group) && i < |group| && NO_GROUP <= to < |counters|
    ensures Counted(Moved(counters, group[i], to), group[i := to])
  {
    forall g | 0 <= g < |counters|
      ensures Moved(counters, group[i], to)[g] == Members(group[i := to], g)
    {
      MembersUpdate(group, i, to, g);
    }
  }

  /** The C int with the low 32 bits of `x`. */
  function AsInt(x: int): (r: int)
    ensures -INT_LIMIT <= r < INT_LIMIT && (x - r) % U32_LIMIT == 0
  {
    (x + INT_LIMIT) % U32_LIMIT - INT_LIMIT
  }

  lemma AsIntAdds(x: int, y: int)
    ensures AsInt(AsInt(x) + y) == AsInt(x + y)
  {
    var q := (x + INT_LIMIT) / U32_LIMIT;
    assert AsInt(x) == x - q * U32_LIMIT;
    var p := (x + y + INT_LIMIT) / U32_LIMIT;
    RemainderIs(AsInt(x) + y + INT_LIMIT, p - q, (x + y + INT_LIMIT) % U32_LIMIT, U32_LIMIT);
  }

  /** What the 64-bit check of a new size for a queue of size `own` sees: modulo 32 bits it is the new total. */
  lemma CheckedSum(size: nat, total: nat, own: nat)
    requires own <= total && size < U64_LIMIT
    ensures var checked := (size + AsInt(total) - own) % U64_LIMIT;
      && checked % U32_LIMIT == (size % U32_LIMIT + (total - own)) % U32_LIMIT
      && (total < INT_LIMIT && size + (total - own) < U64_LIMIT ==> checked == size + (total - own))
  {
    var k := (total + INT_LIMIT) / U32_LIMIT;
    assert AsInt(total) == total - k * U32_LIMIT;
    var sum := size + AsInt(total) - own;
    var a, b, c := sum / U64_LIMIT, size / U32_LIMIT, (size % U32_LIMIT + (total - own)) / U32_LIMIT;
    var rest := (size % U32_LIMIT + (total - own)) % U32_LIMIT;
    RemainderIs(sum % U64_LIMIT, b + c - k - a * U32_LIMIT, rest, U32_LIMIT);
    if total < INT_LIMIT && size + (total - own) < U64_LIMIT {
      RemainderIs(sum, 0, size + (total - own), U64_LIMIT);
    }
  }

  lemma StoredFits(sum: nat, checked: nat)
    requires checked % U32_LIMIT == sum % U32_LIMIT && checked < U32_LIMIT
    ensures sum < U32_LIMIT ==> sum == checked
  {
  }

  class Idxd {
    const configurable: bool
    const isIax: bool
    const maxGroups: nat
    const maxRdbufs: nat
    const maxWqSize: nat
    var enabled: bool
    var nrRdbufs: int
    // engines
    var engineGroup: seq<int>
    // work queues
    var wqGroup: seq<int>
    var wqSize: seq<nat>
    var wqDisabled: seq<bool>
    // groups
    var numEngines: seq<int>
    var numWqs: seq<int>
    var rdbufsReserved: seq<nat>

    constructor (configurable: bool, isIax: bool, groups: nat, engines: nat, wqs: nat, maxRdbufs: nat, maxWqSize: nat)
      requires maxWqSize < WQ_SIZE_LIMIT
      ensures Valid() && SizesFit() && BuffersExact()
      ensures this.configurable == configurable && !enabled && this.maxWqSize == maxWqSize
      ensures wqSize == seq(wqs, _ => 0)
    {
      this.configurable, this.isIax := configurable, isIax;
      maxGroups, this.maxRdbufs, this.maxWqSize := groups, maxRdbufs, maxWqSize;
      enabled, nrRdbufs := false, maxRdbufs;
      engineGroup, wqGroup := seq(engines, _ => NO_GROUP), seq(wqs, _ => NO_GROUP);
      wqSize, wqDisabled := seq(wqs, _ => 0), seq(wqs, _ => true);
      numEngines, numWqs, rdbufsReserved := seq(groups, _ => 0), seq(groups, _ => 0), seq(groups, _ => 0);
      new;
      NoMembers();
    }

    lemma NoMembers()
      requires forall k :: 0 <= k < |engineGroup| ==> engineGroup[k] == NO_GROUP
      requires forall k :: 0 <= k < |wqGroup| ==> wqGroup[k] == NO_GROUP
      requires forall k :: 0 <= k < |wqSize| ==> wqSize[k] == 0
      requires forall k :: 0 <= k < |rdbufsReserved| ==> rdbufsReserved[k] == 0
      ensures Sum(wqSize) == Sum(rdbufsReserved) == 0
      ensures forall g :: 0 <= g ==> Members(engineGroup, g) == Members(wqGroup, g) == 0
    {
      SumZero(wqSize);
      SumZero(rdbufsReserved);
      forall g | 0 <= g ensures Members(engineGroup, g) == Members(wqGroup, g) == 0 {
        MembersNone(engineGroup, g);
        MembersNone(wqGroup, g);
      }
    }

    ghost predicate Valid()
      reads this
    {
      && |numEngines| == |numWqs| == |rdbufsReserved| == maxGroups
      && |wqGroup| == |wqSize| == |wqDisabled| && maxWqSize < WQ_SIZE_LIMIT
      && (forall k :: 0 <= k < |wqSize| ==> wqSize[k] < U32_LIMIT)
      && Counted(numEngines, engineGroup) && Counted(numWqs, wqGroup)
      && nrRdbufs >= 0 && nrRdbufs + Sum(rdbufsReserved) <= maxRdbufs
    }

    /** The claimed queue space fits the device. */
    ghost predicate SizesFit()
      reads this
    {
      Sum(wqSize) <= maxWqSize
    }

    /** Every read buffer is either reserved or counted as free. */
    ghost predicate BuffersExact()
      reads this
    {
      nrRdbufs + Sum(rdbufsReserved) == maxRdbufs
    }

    method EngineGroupIdStore(e: nat, parsed: Option<int>) returns (r: Code)
      requires Valid() && e < |engineGroup|
      modifies this`engineGroup, this`numEngines
      ensures Valid()
      ensures r == Stored ==> parsed.Some? && engineGroup == old(engineGroup)[e := parsed.value]
      ensures r != Stored ==> engineGroup == old(engineGroup) && numEngines == old(numEngines)
      ensures r == if parsed.None? then EINVAL else if !configurable then EPERM
                   else if -1 <= parsed.value < maxGroups then Stored else EINVAL
    {
      if parsed.None? { return EINVAL; }
      var id := parsed.value;
      if !configurable { return EPERM; }
      if id > maxGroups - 1 || id < -1 { return EINVAL; }
      MovedCounts(numEngines, engineGroup, e, id);
      var prevg := engineGroup[e];
      if id == -1 {
        if prevg != NO_GROUP {
          numEngines := numEngines[prevg := numEngines[prevg] - 1];
        }
        engineGroup := engineGroup[e := NO_GROUP];
        return Stored;
      }
      if prevg != NO_GROUP {
        numEngines := numEngines[prevg := numEngines[prevg] - 1];
      }
      engineGroup := engineGroup[e := id];
      numEngines := numEngines[id := numEngines[id] + 1];
      r := Stored;
    }

    method WqGroupIdStore(w: nat, parsed: Option<int>) returns (r: Code)
      requires Valid() && w < |wqGroup|
      modifies this`wqGroup, this`numWqs
      ensures Valid()
      ensures r == Stored ==> parsed.Some? && wqGroup == old(wqGroup)[w := parsed.value]
      ensures r != Stored ==> wqGroup == old(wqGroup) && numWqs == old(numWqs)
      ensures r == if parsed.None? then EINVAL else if !configurable || !wqDisabled[w] then EPERM
                   else if -1 <= parsed.value < maxGroups then Stored else EINVAL
    {
      if parsed.None? { return EINVAL; }
      var id := parsed.value;
      if !configurable || !wqDisabled[w] { return EPERM; }
      if id > maxGroups - 1 || id < -1 { return EINVAL; }
      MovedCounts(numWqs, wqGroup, w, id);
      var prevg := wqGroup[w];
      if id == -1 {
        if prevg != NO_GROUP {
          numWqs := numWqs[prevg := numWqs[prevg] - 1];
        }
        wqGroup := wqGroup[w := NO_GROUP];
        return Stored;
      }
      if prevg != NO_GROUP {
        numWqs := numWqs[prevg := numWqs[prevg] - 1];
      }
      wqGroup := wqGroup[w := id];
      numWqs := numWqs[id := numWqs[id] + 1];
      r := Stored;
    }

    /** `idxd_set_free_rdbufs`. */
    method SetFreeRdbufs()
      requires |rdbufsReserved| == maxGroups
      modifies this`nrRdbufs
      ensures BuffersExact()
    {
      var rdbufs := 0;
      for i := 0 to maxGroups
        invariant rdbufs == Sum(rdbufsReserved[..i])
      {
        assert rdbufsReserved[..i + 1][..i] == rdbufsReserved[..i];
        rdbufs := rdbufs + rdbufsReserved[i];
      }
      assert rdbufsReserved[..maxGroups] == rdbufsReserved;
      nrRdbufs := maxRdbufs - rdbufs;
    }

    method RdbufsReservedStore(g: nat, parsed: Option<nat>) returns (r: Code)
      requires Valid() && g < maxGroups
      modifies this`rdbufsReserved, this`nrRdbufs
      ensures Valid()
      ensures r == Stored ==> parsed.Some? && rdbufsReserved == old(rdbufsReserved)[g := parsed.value] && BuffersExact()
      ensures r != Stored ==> rdbufsReserved == old(rdbufsReserved) && nrRdbufs == old(nrRdbufs)
      ensures r == if parsed.None? then EINVAL else if isIax then EOPNOTSUPP else if !configurable || enabled then EPERM
                   else if parsed.value <= old(nrRdbufs) + old(rdbufsReserved)[g] then Stored else EINVAL
    {
      if parsed.None? { return EINVAL; }
      var val := parsed.value;
      if isIax { return EOPNOTSUPP; }
      if !configurable || enabled { return EPERM; }
      SumUpdate(rdbufsReserved, g, 0);
      SumUpdate(rdbufsReserved, g, val);
      if val > maxRdbufs { return EINVAL; }
      if val > nrRdbufs + rdbufsReserved[g] { return EINVAL; }
      rdbufsReserved := rdbufsReserved[g := val];
      SetFreeRdbufs();
      r := Stored;
    }

    /** `total_claimed_wq_size`, which adds the sizes up in a C int. */
    method TotalClaimedWqSize() returns (total: int)
      ensures total == AsInt(Sum(wqSize))
    {
      total := 0;
      for i := 0 to |wqSize|
        invariant total == AsInt(Sum(wqSize[..i]))
      {
        assert wqSize[..i + 1][..i] == wqSize[..i];
        AsIntAdds(Sum(wqSize[..i]), wqSize[i]);
        total := AsInt(total + wqSize[i]);
      }
      assert wqSize[..|wqSize|] == wqSize;
    }

    /** The bound is checked on an unsigned 64-bit sum and the size stored in 32 bits. Whatever was claimed before,
        an accepted store leaves the claimed total within the device exactly when the size stored and those of the
        other queues add up without wrapping around 32 bits. */
    method WqSizeStore(w: nat, parsed: Option<nat>) returns (r: Code)
      requires Valid() && w < |wqSize|
      requires parsed.Some? ==> parsed.value < U64_LIMIT
      modifies this`wqSize
      ensures Valid()
      ensures r != Stored ==> wqSize == old(wqSize)
      ensures r == Stored ==> parsed.Some? && wqSize == old(wqSize)[w := parsed.value % U32_LIMIT]
      ensures r == if parsed.None? then EINVAL else if !configurable || enabled then EPERM
                   else if (parsed.value + AsInt(Sum(old(wqSize))) - old(wqSize)[w]) % U64_LIMIT <= maxWqSize then Stored else EINVAL
      ensures r == Stored ==>
        (SizesFit() <==> parsed.value % U32_LIMIT + (Sum(old(wqSize)) - old(wqSize)[w]) < U32_LIMIT)
      ensures parsed.Some? && configurable && !enabled && Sum(old(wqSize)) < INT_LIMIT ==>
        (parsed.value + (Sum(old(wqSize)) - old(wqSize)[w]) <= maxWqSize ==> r == Stored)
    {
      hide AsInt, Sum, Counted;
      if parsed.None? { return EINVAL; }
      var size := parsed.value;
      if !configurable || enabled { return EPERM; }
      SumUpdate(wqSize, w, 0);
      SumUpdate(wqSize, w, size % U32_LIMIT);
      var total := TotalClaimedWqSize();
      CheckedSum(size, Sum(wqSize), wqSize[w]);
      var checked := (size + total - wqSize[w]) % U64_LIMIT;
      if checked > maxWqSize { return EINVAL; }
      StoredFits(size % U32_LIMIT + (Sum(wqSize) - wqSize[w]), checked);
      wqSize := wqSize[w := size % U32_LIMIT];
      r := Stored;
    }

    /** Writing the configuration of a typed queue of size zero gives it the default depth: the one growth of the
        claimed total that no store checks. */
    method WqConfigWrite(w: nat, typed: bool)
      requires Valid() && w < |wqSize|
      modifies this`wqSize
      ensures Valid()
      ensures wqSize == if old(wqGroup)[w] != NO_GROUP && typed && old(wqSize)[w] == 0 then old(wqSize)[w := 16] else old(wqSize)
      ensures Sum(wqSize) == Sum(old(wqSize)) +
        if old(wqGroup)[w] != NO_GROUP && typed && old(wqSize)[w] == 0 then WQ_DEFAULT_QUEUE_DEPTH else 0
    {
      if wqGroup[w] == NO_GROUP { return; }
      if wqSize[w] == 0 && typed {
        SumUpdate(wqSize, w, WQ_DEFAULT_QUEUE_DEPTH);
        wqSize := wqSize[w := WQ_DEFAULT_QUEUE_DEPTH];
      }
    }

    /** `idxd_device_clear_state`. It forgets all reservations but leaves the count of free buffers as it was, so
        that count stays exact only if nothing was reserved. */
    method DeviceClearState()
      requires Valid()
      modifies this
      ensures Valid() && !enabled
      ensures configurable ==> SizesFit() && forall k :: 0 <= k < |wqSize| ==> wqSize[k] == 0 && wqGroup[k] == NO_GROUP
      ensures configurable ==> forall k :: 0 <= k < |engineGroup| ==> engineGroup[k] == NO_GROUP
      ensures configurable ==> forall k :: 0 <= k < |wqDisabled| ==> wqDisabled[k]
      ensures configurable ==> forall g :: 0 <= g < maxGroups ==> numWqs[g] == numEngines[g] == rdbufsReserved[g] == 0
      ensures |wqSize| == |old(wqSize)| && |engineGroup| == |old(engineGroup)| && nrRdbufs == old(nrRdbufs)
      ensures configurable && old(BuffersExact()) ==> (BuffersExact() <==> Sum(old(rdbufsReserved)) == 0)
      ensures !configurable ==>
        && wqSize == old(wqSize) && wqGroup == old(wqGroup) && wqDisabled == old(wqDisabled)
        && engineGroup == old(engineGroup) && rdbufsReserved == old(rdbufsReserved)
    {
      hide Sum, Members;
      if configurable {
        wqGroup, wqSize := seq(|wqGroup|, _ => NO_GROUP), seq(|wqSize|, _ => 0);
        wqDisabled := seq(|wqDisabled|, _ => true);
        numEngines, numWqs, rdbufsReserved := seq(maxGroups, _ => 0), seq(maxGroups, _ => 0), seq(maxGroups, _ => 0);
        engineGroup := seq(|engineGroup|, _ => NO_GROUP);
        NoMembers();
      }
      enabled := false;
    }
  }

  /** A size that wraps around is accepted: with 16 claimed by queue 1, storing 2^64 - 16 for queue 0 passes the
      check as a total of zero, and the claimed total exceeds the device. */
  method WrappingStore() returns (dev: Idxd, r: Code)
    ensures fresh(dev) && dev.Valid() && r == Stored
    ensures dev.wqSize == [U32_LIMIT - 16, 16] && !dev.SizesFit()
  {
    dev := new Idxd(true, false, 1, 1, 2, 0, 64);
    SumTwo(0, 0);
    AsIntSmall(0);
    assert dev.wqSize == [0, 0];
    var first := dev.WqSizeStore(1, Some(16));
    SumTwo(0, 16);
    AsIntSmall(16);
    assert dev.wqSize == [0, 16];
    r := dev.WqSizeStore(0, Some(U64_LIMIT - 16));
    SumTwo(U32_LIMIT - 16, 16);
  }

  lemma SumTwo(a: nat, b: nat)
    ensures Sum([a, b]) == a + b
  {
    assert Sum([]) == 0;
    assert [a][..0] == [] && Sum([a]) == a;
    assert [a, b][..1] == [a];
  }

  lemma AsIntSmall(x: nat)
    requires x < INT_LIMIT
    ensures AsInt(x) == x
  {
  }
}
