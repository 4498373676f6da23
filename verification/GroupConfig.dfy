/** The group configuration registers of the idxd driver: one bit per queue and per engine, and the packing of
    the operation capability map. A 64-bit register is the sequence of its bits, least significant first. */
module GroupConfig {

  const WORD_BITS := 64
  const NO_GROUP := -1
  const GRPWQCFG_STRIDES := 4

  type Word = w: seq<bool> | |w| == WORD_BITS witness seq(64, _ => false)

  const ZERO: Word := seq(WORD_BITS, _ => false)

  /** `w | BIT(i)`. */
  function WithBit(w: Word, i: nat): Word
    requires i < WORD_BITS
  {
    w[i := true]
  }

  // ---------------------------------------------------------------------------------------------
  // Membership bits
  // ---------------------------------------------------------------------------------------------

  /** Register word `i` of group `g`: bit `j` says that item `64 * i + j` is in the group. */
  function MemberWord(group: seq<int>, g: int, i: nat): Word {
    seq(WORD_BITS, j requires 0 <= j < WORD_BITS => WORD_BITS * i + j < |group| && group[WORD_BITS * i + j] == g)
  }

  function MemberWords(group: seq<int>, g: int): seq<Word> {
    seq(GRPWQCFG_STRIDES, i requires 0 <= i < GRPWQCFG_STRIDES => MemberWord(group, g, i))
  }

  predicate IsAssignment(group: seq<int>, groups: nat) {
    forall k :: 0 <= k < |group| ==> NO_GROUP <= group[k] < groups
  }

  datatype Code = Ok | Einval

  class Device {
    const maxGroups: nat
    const sharedUnsupported: set<nat>   // shared queues on a device without shared mode
    var wqGroup: seq<int>
    var engineGroup: seq<int>
    var grpcfgWqs: seq<seq<Word>>
    var grpcfgEngines: seq<Word>

    constructor (groups: nat, wqGroup: seq<int>, engineGroup: seq<int>, sharedUnsupported: set<nat>,
                 wqs: seq<seq<Word>>, engines: seq<Word>)
      requires |wqGroup| < 256 && |engineGroup| <= WORD_BITS && IsAssignment(wqGroup, groups) && IsAssignment(engineGroup, groups)
      requires |wqs| == |engines| == groups && forall g :: 0 <= g < groups ==> |wqs[g]| == GRPWQCFG_STRIDES
      ensures Valid() && this.wqGroup == wqGroup && this.engineGroup == engineGroup && maxGroups == groups
      ensures grpcfgWqs == wqs && grpcfgEngines == engines && this.sharedUnsupported == sharedUnsupported
    {
      maxGroups, this.sharedUnsupported := groups, sharedUnsupported;
      this.wqGroup, this.engineGroup := wqGroup, engineGroup;
      grpcfgWqs, grpcfgEngines := wqs, engines;
    }

    predicate Valid()
      reads this
    {
      && |wqGroup| < 256 && |engineGroup| <= WORD_BITS
      && IsAssignment(wqGroup, maxGroups) && IsAssignment(engineGroup, maxGroups)
      && |grpcfgWqs| == |grpcfgEngines| == maxGroups
      && forall g :: 0 <= g < maxGroups ==> |grpcfgWqs[g]| == GRPWQCFG_STRIDES
    }

    /** The registers say of every group which queues it has. */
    predicate WqsEncode(group: seq<int>)
      reads this
    {
      |grpcfgWqs| == maxGroups && forall g :: 0 <= g < maxGroups ==> grpcfgWqs[g] == MemberWords(group, g)
    }

    predicate EnginesEncode(group: seq<int>)
      reads this
    {
      |grpcfgEngines| == maxGroups && forall g :: 0 <= g < maxGroups ==> grpcfgEngines[g] == MemberWord(group, g, 0)
    }

    /** `idxd_wqs_setup`. */
    method WqsSetup() returns (r: Code)
      requires Valid()
      modifies this`grpcfgWqs
      ensures Valid()
      ensures r == Ok ==> WqsEncode(wqGroup)
      ensures r == Ok ==> forall g, k :: 0 <= g < maxGroups && 0 <= k < 256 ==>
        (grpcfgWqs[g][k / 64][k % 64] <==> k < |wqGroup| && wqGroup[k] == g)
      ensures r == Ok <==>
        (exists i :: 0 <= i < |wqGroup| && wqGroup[i] != NO_GROUP)
        && forall i :: 0 <= i < |wqGroup| && wqGroup[i] != NO_GROUP ==> i !in sharedUnsupported
    {
      grpcfgWqs := seq(maxGroups, _ => seq(GRPWQCFG_STRIDES, _ => ZERO));
      NoMembers();
      var configured := 0;
      for i := 0 to |wqGroup|
        invariant Valid()
        invariant forall g :: 0 <= g < maxGroups ==> grpcfgWqs[g] == MemberWords(wqGroup[..i], g)
        invariant configured == 0 <==> forall k :: 0 <= k < i ==> wqGroup[k] == NO_GROUP
        invariant configured >= 0
        invariant forall k :: 0 <= k < i && wqGroup[k] != NO_GROUP ==> k !in sharedUnsupported
      {
        var g := wqGroup[i];
        WordsGrow(wqGroup, i);
        if g != NO_GROUP {
          if i in sharedUnsupported {
            return Einval;
          }
          var words: seq<Word> := grpcfgWqs[g];
          words := words[i / 64 := WithBit(words[i / 64], i % 64)];
          grpcfgWqs := grpcfgWqs[g := words];
          configured := configured + 1;
        }
      }
      assert wqGroup[..|wqGroup|] == wqGroup;
      r := if configured == 0 then Einval else Ok;
    }

    /** `idxd_engines_setup`. */
    method EnginesSetup() returns (r: Code)
      requires Valid()
      modifies this`grpcfgEngines
      ensures Valid() && EnginesEncode(engineGroup)
      ensures forall g, k :: 0 <= g < maxGroups && 0 <= k < 64 ==>
        (grpcfgEngines[g][k] <==> k < |engineGroup| && engineGroup[k] == g)
      ensures r == Ok <==> exists i :: 0 <= i < |engineGroup| && engineGroup[i] != NO_GROUP
    {
      grpcfgEngines := seq(maxGroups, _ => ZERO);
      NoMembers();
      var engines := 0;
      for i := 0 to |engineGroup|
        invariant Valid()
        invariant forall g :: 0 <= g < maxGroups ==> grpcfgEngines[g] == MemberWord(engineGroup[..i], g, 0)
        invariant engines >= 0 && (engines == 0 <==> forall k :: 0 <= k < i ==> engineGroup[k] == NO_GROUP)
      {
        var g := engineGroup[i];
        forall h ensures MemberWord(engineGroup[..i + 1], h, 0) == MemberWord(engineGroup[..i], h, 0)[i := h == g] {
        }
        if g != NO_GROUP {
          grpcfgEngines := grpcfgEngines[g := WithBit(grpcfgEngines[g], i)];
          engines := engines + 1;
        }
      }
      assert engineGroup[..|engineGroup|] == engineGroup;
      r := if engines == 0 then Einval else Ok;
    }

    /** `idxd_group_load_config`: every item whose bit is set joins the group; the others stay where they are. */
    method GroupLoadConfig(g: nat)
      requires Valid() && g < maxGroups
      modifies this`wqGroup, this`engineGroup
      ensures Valid()
      ensures |wqGroup| == |old(wqGroup)| && |engineGroup| == |old(engineGroup)|
      ensures forall k :: 0 <= k < |wqGroup| ==>
        wqGroup[k] == if grpcfgWqs[g][k / 64][k % 64] then g else old(wqGroup)[k]
      ensures forall k :: 0 <= k < |engineGroup| ==>
        engineGroup[k] == if grpcfgEngines[g][k] then g else old(engineGroup)[k]
    {
      var i := 0;
      while i < GRPWQCFG_STRIDES && i * 64 < |wqGroup|
        invariant 0 <= i <= GRPWQCFG_STRIDES && Valid() && |wqGroup| == |old(wqGroup)| && engineGroup == old(engineGroup)
        invariant forall k :: 0 <= k < |wqGroup| ==>
          wqGroup[k] == if k < 64 * i && grpcfgWqs[g][k / 64][k % 64] then g else old(wqGroup)[k]
      {
        var j := 0;
        while j < 64 && i * 64 + j < |wqGroup|
          invariant 0 <= j <= 64 && Valid() && |wqGroup| == |old(wqGroup)| && engineGroup == old(engineGroup)
          invariant forall k :: 0 <= k < |wqGroup| ==>
            wqGroup[k] == if k < 64 * i + j && grpcfgWqs[g][k / 64][k % 64] then g else old(wqGroup)[k]
        {
          var id := i * 64 + j;
          if grpcfgWqs[g][i][j] {
            wqGroup := wqGroup[id := g];
          }
          j := j + 1;
        }
        i := i + 1;
      }
      i := 0;
      ghost var wqs := wqGroup;
      while i < 64 && i < |engineGroup|
        invariant wqGroup == wqs && 0 <= i <= 64 && Valid() && |engineGroup| == |old(engineGroup)|
        invariant forall k :: 0 <= k < |engineGroup| ==>
          engineGroup[k] == if k < i && grpcfgEngines[g][k] then g else old(engineGroup)[k]
      {
        if grpcfgEngines[g][i] {
          engineGroup := engineGroup[i := g];
        }
        i := i + 1;
      }
    }

    /** Loading the registers of all groups recovers the assignments they encode; items without a group keep
        what they had. */
    method DeviceLoadConfig(ghost wqs: seq<int>, ghost engines: seq<int>)
      requires Valid() && WqsEncode(wqs) && EnginesEncode(engines)
      requires |wqs| == |wqGroup| && |engines| == |engineGroup|
      requires IsAssignment(wqs, maxGroups) && IsAssignment(engines, maxGroups)
      modifies this`wqGroup, this`engineGroup
      ensures Valid() && |wqGroup| == |wqs| && |engineGroup| == |engines|
      ensures forall k :: 0 <= k < |wqs| ==> wqGroup[k] == if wqs[k] == NO_GROUP then old(wqGroup)[k] else wqs[k]
      ensures forall k :: 0 <= k < |engines| ==> engineGroup[k] == if engines[k] == NO_GROUP then old(engineGroup)[k] else engines[k]
      ensures (forall k :: 0 <= k < |wqs| ==> old(wqGroup)[k] == NO_GROUP) ==> wqGroup == wqs
      ensures (forall k :: 0 <= k < |engines| ==> old(engineGroup)[k] == NO_GROUP) ==> engineGroup == engines
    {
      for g := 0 to maxGroups
        invariant Valid() && |wqGroup| == |wqs| && |engineGroup| == |engines|
        invariant forall k :: 0 <= k < |wqs| ==> wqGroup[k] == if 0 <= wqs[k] < g then wqs[k] else old(wqGroup)[k]
        invariant forall k :: 0 <= k < |engines| ==> engineGroup[k] == if 0 <= engines[k] < g then engines[k] else old(engineGroup)[k]
      {
        GroupLoadConfig(g);
        BitIsMembership(wqs, g);
      }
    }
  }

  /** Item `i` adds one bit to the words of its own group and changes no other group. */
  lemma WordsGrow(group: seq<int>, i: nat)
    requires i < |group| < 256
    ensures forall g: int :: g != group[i] ==> MemberWords(group[..i + 1], g) == MemberWords(group[..i], g)
    ensures var words := MemberWords(group[..i], group[i]);
      MemberWords(group[..i + 1], group[i]) == words[i / 64 := WithBit(words[i / 64], i % 64)]
  {
    forall g: int, k | 0 <= k < GRPWQCFG_STRIDES
      ensures g != group[i] || k != i / 64 ==> MemberWord(group[..i + 1], g, k) == MemberWord(group[..i], g, k)
    {
    }
    assert MemberWord(group[..i + 1], group[i], i / 64) == WithBit(MemberWord(group[..i], group[i], i / 64), i % 64);
  }

  lemma NoMembers()
    ensures forall g: int :: MemberWords([], g) == seq(GRPWQCFG_STRIDES, _ => ZERO) && MemberWord([], g, 0) == ZERO
  {
    forall g: int, i | 0 <= i < GRPWQCFG_STRIDES ensures MemberWord([], g, i) == ZERO {
    }
    forall g: int ensures MemberWords([], g) == seq(GRPWQCFG_STRIDES, _ => ZERO) && MemberWord([], g, 0) == ZERO {
    }
  }

  lemma BitIsMembership(group: seq<int>, g: int)
    requires |group| < 256
    ensures forall k :: 0 <= k < |group| ==> MemberWords(group, g)[k / 64][k % 64] == (group[k] == g)
  {
  }

  // ---------------------------------------------------------------------------------------------
  // The operation map
  // ---------------------------------------------------------------------------------------------

  const MAX_OPCAP_BITS := 256

  function Packed(bmap: seq<bool>): seq<Word>
    requires |bmap| == MAX_OPCAP_BITS
  {
    seq(4, i requires 0 <= i < 4 => seq(WORD_BITS, j requires 0 <= j < WORD_BITS => bmap[64 * i + j]))
  }

  function Unpacked(words: seq<Word>): seq<bool> {
    seq(64 * |words|, n requires 0 <= n < 64 * |words| => words[n / 64][n % 64])
  }

  /** Packing a map into register words loses nothing, and neither does unpacking them. */
  lemma PackingRoundTrip(bmap: seq<bool>, words: seq<Word>)
    requires |bmap| == MAX_OPCAP_BITS && |words| == 4
    ensures Unpacked(Packed(bmap)) == bmap && Packed(Unpacked(words)) == words
  {
    forall i | 0 <= i < 4 ensures Packed(Unpacked(words))[i] == words[i] {
      assert forall j :: 0 <= j < 64 ==> Packed(Unpacked(words))[i][j] == Unpacked(words)[64 * i + j];
    }
  }

  /** `multi_u64_to_bmap`, into a map that starts empty. */
  method MultiU64ToBmap(val: seq<Word>) returns (bmap: seq<bool>)
    ensures bmap == Unpacked(val)
    ensures |bmap| == 64 * |val| && forall n :: 0 <= n < |bmap| ==> bmap[n] == val[n / 64][n % 64]
  {
    bmap := seq(64 * |val|, _ => false);
    var nr := 0;
    for i := 0 to |val|
      invariant |bmap| == 64 * |val| && nr == 64 * i
      invariant forall n :: 0 <= n < |bmap| ==> bmap[n] == (n < 64 * i && val[n / 64][n % 64])
    {
      for j := 0 to 64
        invariant |bmap| == 64 * |val| && nr == 64 * i + j
        invariant forall n :: 0 <= n < |bmap| ==> bmap[n] == (n < 64 * i + j && val[n / 64][n % 64])
      {
        if val[i][j] {
          bmap := bmap[nr := true];
        }
        nr := nr + 1;
      }
    }
  }

  /** The loop of `idxd_wq_config_write` over the set bits of the map. */
  method PackOpConfig(bmap: seq<bool>) returns (words: seq<Word>)
    requires |bmap| == MAX_OPCAP_BITS
    ensures words == Packed(bmap)
    ensures |words| == 4 && forall i, j :: 0 <= i < 4 && 0 <= j < 64 ==> words[i][j] == bmap[64 * i + j]
  {
    words := seq(4, _ => ZERO);
    for n := 0 to MAX_OPCAP_BITS
      invariant |words| == 4
      invariant forall i, j :: 0 <= i < 4 && 0 <= j < 64 ==> words[i][j] == (64 * i + j < n && bmap[64 * i + j])
    {
      if bmap[n] {
        var pos, idx := n % 64, n / 64;
        words := words[idx := WithBit(words[idx], pos)];
      }
    }
    assert forall i :: 0 <= i < 4 ==> words[i] == Packed(bmap)[i];
  }
}
