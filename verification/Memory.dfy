/** Memory as a sequence of cells, and what the C library's copy and fill functions do to it. */
module Memory {
  import opened Basics

  /** The conversion of an int to an unsigned char: the byte that differs from it by a multiple of 256. */
  function LowByte(c: int): (b: Byte)
    ensures (b - c) % 256 == 0
  {
    c % 256
  }

  /** `m` after the `n` cells at `src` have been copied to `dst`, as memmove does. */
  function Move<T>(m: seq<T>, dst: nat, src: nat, n: nat): (r: seq<T>)
    requires dst + n <= |m| && src + n <= |m|
    ensures |r| == |m|
  {
    seq(|m|, i requires 0 <= i < |m| => if dst <= i < dst + n then m[src + (i - dst)] else m[i])
  }

  /** `m` after the `n` cells at `dst` have been set to `c`, as memset does. */
  function Fill<T>(m: seq<T>, dst: nat, n: nat, c: T): (r: seq<T>)
    requires dst + n <= |m|
    ensures |r| == |m|
  {
    seq(|m|, i requires 0 <= i < |m| => if dst <= i < dst + n then c else m[i])
  }

  /** The two ranges of `n` cells have no cell in common. */
  predicate Disjoint(dst: nat, src: nat, n: nat) {
    dst + n <= src || src + n <= dst
  }

  /** The copy used before initialisation: upwards when the source is not below the destination, else downwards. */
  method InternalMemcpymove<T>(mem: array<T>, dest: nat, src: nat, n: nat)
    requires dest + n <= mem.Length && src + n <= mem.Length
    modifies mem
    ensures mem[..] == Move(old(mem[..]), dest, src, n)
    ensures forall i :: 0 <= i < mem.Length ==> mem[i] == old(mem[if dest <= i < dest + n then src + (i - dest) else i])
  {
    hide Move;
    ghost var was := mem[..];
    MoveCells(was, dest, src, n);
    if src >= dest {
      MoveNone(was, dest, src);
      for i := 0 to n
        invariant mem[..] == Move(was, dest, src, i)
      {
        MoveUp(was, dest, src, i);
        ghost var now := mem[..];
        mem[dest + i] := mem[src + i];
        assert mem[..] == now[dest + i := now[src + i]];
      }
    } else {
      MoveNone(was, dest + n, src + n);
      for i := n downto 0
        invariant mem[..] == Move(was, dest + i, src + i, n - i)
      {
        MoveDown(was, dest + i, src + i, n - i - 1);
        ghost var now := mem[..];
        mem[dest + i] := mem[src + i];
        assert mem[..] == now[dest + i := now[src + i]];
      }
    }
    assert forall i :: 0 <= i < mem.Length ==> mem[i] == mem[..][i];
  }

  lemma MoveCells<T>(m: seq<T>, dst: nat, src: nat, n: nat)
    requires dst + n <= |m| && src + n <= |m|
    ensures forall i :: 0 <= i < |m| ==> Move(m, dst, src, n)[i] == m[if dst <= i < dst + n then src + (i - dst) else i]
  {
  }

  lemma MoveNone<T>(m: seq<T>, dst: nat, src: nat)
    requires dst <= |m| && src <= |m|
    ensures Move(m, dst, src, 0) == m
  {
  }

  /** One more cell of an upward copy whose source is not below its destination. */
  lemma MoveUp<T>(m: seq<T>, dst: nat, src: nat, n: nat)
    requires dst + n < |m| && src + n < |m| && dst <= src
    ensures var now := Move(m, dst, src, n); now[dst + n := now[src + n]] == Move(m, dst, src, n + 1)
  {
  }

  lemma MoveDown<T>(m: seq<T>, dst: nat, src: nat, n: nat)
    requires dst + n < |m| && src + n < |m| && src < dst
    ensures var now := Move(m, dst + 1, src + 1, n); now[dst := now[src]] == Move(m, dst, src, n + 1)
  {
  }

  /** The fill used before initialisation. */
  method InternalMemset(mem: array<Byte>, s: nat, c: int, n: nat)
    requires s + n <= mem.Length
    modifies mem
    ensures forall i :: 0 <= i < mem.Length ==> if s <= i < s + n then (mem[i] - c) % 256 == 0 else mem[i] == old(mem[i])
    ensures mem[..] == Fill(old(mem[..]), s, n, LowByte(c))
  {
    ghost var was := mem[..];
    for i := 0 to n
      invariant mem[..] == Fill(was, s, i, LowByte(c))
    {
      mem[s + i] := LowByte(c);
    }
    forall i | 0 <= i < mem.Length
      ensures if s <= i < s + n then (mem[i] - c) % 256 == 0 else mem[i] == was[i]
    {
      assert mem[i] == mem[..][i];
    }
  }

  // ---------------------------------------------------------------------------------------------
  // Copies made of many single-cell copies
  // ---------------------------------------------------------------------------------------------

  /** `k` is one of the offsets in `order`. */
  predicate Names(order: seq<nat>, k: int) {
    exists j :: 0 <= j < |order| && order[j] == k
  }

  predicate Within(order: seq<nat>, n: nat) {
    forall j :: 0 <= j < |order| ==> order[j] < n
  }

  /** `m` after copying, for each offset of `order` in turn, the cell `src + offset` to `dst + offset`. */
  function CopyInOrder<T>(m: seq<T>, dst: nat, src: nat, n: nat, order: seq<nat>): (r: seq<T>)
    requires dst + n <= |m| && src + n <= |m|
    requires Within(order, n)
    ensures |r| == |m|
    decreases |order|
  {
    if order == [] then m
    else
      var before := CopyInOrder(m, dst, src, n, order[..|order| - 1]);
      var k := order[|order| - 1];
      before[dst + k := before[src + k]]
  }

  /** Between disjoint ranges, single-cell copies in any order write exactly the cells they name, each with
      its original source: two agents copying concurrently cannot disturb each other. */
  lemma {:induction false} CopyInOrderCell<T>(m: seq<T>, dst: nat, src: nat, n: nat, order: seq<nat>, i: nat)
    requires dst + n <= |m| && src + n <= |m| && i < |m|
    requires Within(order, n)
    requires Disjoint(dst, src, n)
    ensures Names(order, i - dst) ==> 0 <= i - dst < n && CopyInOrder(m, dst, src, n, order)[i] == m[src + (i - dst)]
    ensures !Names(order, i - dst) ==> CopyInOrder(m, dst, src, n, order)[i] == m[i]
    decreases |order|
  {
    if order != [] {
      var front, k := order[..|order| - 1], order[|order| - 1];
      CopyInOrderCell(m, dst, src, n, front, i);
      CopyInOrderCell(m, dst, src, n, front, src + k);
      assert Names(order, i - dst) <==> Names(front, i - dst) || k == i - dst by {
        if Names(front, i - dst) {
          var p :| 0 <= p < |front| && front[p] == i - dst;
          assert order[p] == i - dst;
        }
        assert order[|order| - 1] == k;
      }
    }
  }

  /** Any order, with repetitions, that names every offset performs the whole copy. */
  lemma AnyOrderIsMove<T>(m: seq<T>, dst: nat, src: nat, n: nat, order: seq<nat>)
    requires dst + n <= |m| && src + n <= |m|
    requires Disjoint(dst, src, n)
    requires Within(order, n) && forall k :: 0 <= k < n ==> Names(order, k)
    ensures CopyInOrder(m, dst, src, n, order) == Move(m, dst, src, n)
  {
    forall i | 0 <= i < |m|
      ensures CopyInOrder(m, dst, src, n, order)[i] == Move(m, dst, src, n)[i]
    {
      CopyInOrderCell(m, dst, src, n, order, i);
    }
  }
}
