/** Positions around a circle of slots: probe orders and ring buffers. */
module Circular {

  /** How many steps lead from slot `from` to slot `i` around a circle of n slots. */
  function Dist(from: nat, i: nat, n: nat): (d: nat)
    requires from < n && i < n
    ensures d < n
  {
    if from <= i then i - from else i + n - from
  }

  /** The slot reached from `from` after d steps: the inverse of Dist. */
  function Ahead(from: nat, d: nat, n: nat): (i: nat)
    requires from < n && d <= n
    ensures i < n && (d < n ==> Dist(from, i, n) == d)
  {
    if from + d < n then from + d else from + d - n
  }

  lemma {:induction false} NextSlot(i: nat, n: nat)
    requires i < n
    ensures (i + 1) % n == Ahead(i, 1, n)
  {
  }

  lemma {:induction false} RemainderOnce(x: nat, n: nat)
    requires 0 < n <= x < 2 * n
    ensures x % n == x - n
  {
    var q := x / n;
    assert x == q * n + x % n;
    if q >= 2 { AtLeastTwice(q, n); }
  }

  lemma {:induction false} RemainderNone(x: nat, n: nat)
    requires x < n
    ensures x % n == x
  {
  }

  lemma {:induction false} AtLeastTwice(q: nat, n: nat)
    requires q >= 2
    ensures q * n >= 2 * n
  {
  }

  lemma {:induction false} AheadIs(from: nat, d: nat, n: nat)
    requires from < n && d <= n
    ensures Ahead(from, d, n) == (from + d) % n
  {
    if from + d >= n { RemainderOnce(from + d, n); } else { RemainderNone(from + d, n); }
  }

  lemma {:induction false} SameDist(from: nat, i: nat, j: nat, n: nat)
    requires from < n && i < n && j < n
    ensures Dist(from, i, n) == Dist(from, j, n) <==> i == j
  {
  }
}
