/** Small definitions and arithmetic facts that several modules share. */
module Basics {

  datatype Option<+T> = None | Some(value: T)

  type Byte = b: int | 0 <= b < 256

  function Sum(s: seq<nat>): nat {
    if s == [] then 0 else Sum(s[..|s| - 1]) + s[|s| - 1]
  }

  lemma {:induction false} SumSplit(s: seq<nat>)
    requires s != []
    ensures Sum(s) == s[0] + Sum(s[1..])
    decreases |s|
  {
    if |s| > 1 {
      SumSplit(s[..|s| - 1]);
      assert s[1..][..|s| - 2] == s[..|s| - 1][1..];
    }
  }

  // Facts about products and remainders, to keep them out of other proofs.

  lemma Product(d: int, m: int)
    requires m >= 0
    ensures d >= 1 ==> d * m >= m
    ensures d == 0 ==> d * m == 0
    ensures d <= -1 ==> d * m <= -m
  {
    if d >= 1 {
      assert (d - 1) * m >= 0;
    } else if d <= -1 {
      assert (-1 - d) * m >= 0;
    }
  }

  lemma Distribute(p: int, q: int, x: int)
    ensures (p + q) * x == p * x + q * x
  {
  }

  /** Quotient and remainder are unique. */
  lemma RemainderIs(a: int, q: int, r: nat, m: nat)
    requires r < m && a == q * m + r
    ensures a % m == r && a / m == q
  {
    var p, t := a / m, a % m;
    assert a == p * m + t;
    assert (q - p) * m == t - r;
    Product(q - p, m);
  }
}
