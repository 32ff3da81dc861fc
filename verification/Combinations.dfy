/**
 Lexicographic enumeration of r-combinations, as golay23.c steps through error patterns.
 A combination is the increasing sequence of its elements; its rank is its position in
 lexicographic order.
 */
module Combinations {

  /** Binomial coefficients. */
  function Choose(n: nat, k: nat): nat {
    if k == 0 then 1 else if n == 0 then 0 else Choose(n - 1, k) + Choose(n - 1, k - 1)
  }

  /** c lists a |c|-element subset of {lo + 1, ..., n} in increasing order. */
  predicate IsComb(c: seq<int>, lo: nat, n: nat) {
    |c| == 0 || (lo < c[0] <= n && IsComb(c[1..], c[0], n))
  }

  /** The number of combinations of the same size that precede c. */
  function Rank(c: seq<int>, lo: nat, n: nat): int
    requires lo <= n && IsComb(c, lo, n)
  {
    if |c| == 0 then 0
    else Choose(n - lo, |c|) - Choose(n - c[0] + 1, |c|) + Rank(c[1..], c[0], n)
  }

  /** The last combination: the |c| largest elements. */
  predicate IsLast(c: seq<int>, n: nat) {
    forall i :: 0 <= i < |c| ==> c[i] == n - |c| + 1 + i
  }

  /** next is c with the element at position p raised by one and its successors as small as can be. */
  predicate Advanced(c: seq<int>, next: seq<int>, p: nat, n: nat) {
    && p < |c| == |next|
    && c[p] < n - |c| + 1 + p
    && (forall i :: p < i < |c| ==> c[i] == n - |c| + 1 + i)
    && (forall i :: 0 <= i < p ==> next[i] == c[i])
    && (forall i :: p <= i < |c| ==> next[i] == c[p] + 1 + (i - p))
  }

  lemma {:induction false} ChooseSmall(n: nat, k: nat)
    requires n <= k
    ensures Choose(n, k) == if n == k then 1 else 0
  {
    if k > 0 && n > 0 {
      ChooseSmall(n - 1, k);
      ChooseSmall(n - 1, k - 1);
    }
  }

  lemma {:induction false} CombBounds(c: seq<int>, lo: nat, n: nat, i: nat)
    requires IsComb(c, lo, n) && i < |c|
    ensures lo + i < c[i] <= n - |c| + 1 + i
    ensures i + 1 < |c| ==> c[i] < c[i + 1]
  {
    if i > 0 {
      CombBounds(c[1..], c[0], n, i - 1);
    } else if |c| > 1 {
      CombBounds(c[1..], c[0], n, 0);
    }
  }

  lemma {:induction false} CombFromOrder(c: seq<int>, lo: nat, n: nat)
    requires forall i :: 0 <= i < |c| ==> lo < c[i] <= n
    requires forall i :: 0 < i < |c| ==> c[i - 1] < c[i]
    ensures IsComb(c, lo, n)
  {
    if |c| > 0 {
      var t := c[1..];
      assert forall i :: 0 < i < |t| ==> t[i] == c[i + 1] && t[i - 1] == c[i];
      assert forall i :: 0 < i < |t| ==> t[i - 1] < t[i];
      RestAboveHead(c, |c| - 1);
      CombFromOrder(t, c[0], n);
    }
  }

  lemma {:induction false} RestAboveHead(c: seq<int>, k: nat)
    requires k < |c|
    requires forall i :: 0 < i < |c| ==> c[i - 1] < c[i]
    ensures forall i :: 0 < i <= k ==> c[0] < c[i]
  {
    if k > 0 {
      RestAboveHead(c, k - 1);
      assert c[k - 1] < c[k];
    }
  }

  lemma {:induction false} RankBound(c: seq<int>, lo: nat, n: nat)
    requires lo <= n && IsComb(c, lo, n)
    ensures Rank(c, lo, n) < Choose(n - lo, |c|)
  {
    if |c| > 0 { RankBound(c[1..], c[0], n); }
  }

  lemma {:induction false} RankOfLast(c: seq<int>, lo: nat, n: nat)
    requires lo <= n && IsComb(c, lo, n) && IsLast(c, n)
    ensures Rank(c, lo, n) == Choose(n - lo, |c|) - 1
  {
    if |c| > 0 {
      RankOfLast(c[1..], c[0], n);
      ChooseSmall(|c|, |c|);
      ChooseSmall(|c| - 1, |c| - 1);
    }
  }

  lemma {:induction false} RankOfFirst(c: seq<int>, lo: nat, n: nat)
    requires lo <= n && IsComb(c, lo, n)
    requires forall i :: 0 <= i < |c| ==> c[i] == lo + 1 + i
    ensures Rank(c, lo, n) == 0
  {
    if |c| > 0 { RankOfFirst(c[1..], c[0], n); }
  }

  lemma AdvancedIsComb(c: seq<int>, next: seq<int>, p: nat, lo: nat, n: nat)
    requires IsComb(c, lo, n) && Advanced(c, next, p, n)
    ensures IsComb(next, lo, n)
  {
    forall i | 0 <= i < |c| ensures lo < next[i] <= n {
      CombBounds(c, lo, n, i);
      CombBounds(c, lo, n, p);
    }
    forall i | 0 < i < |c| ensures next[i - 1] < next[i] {
      CombBounds(c, lo, n, i - 1);
    }
    CombFromOrder(next, lo, n);
  }

  /** Advancing moves to the immediate successor in lexicographic order. */
  lemma {:induction false} AdvancedRank(c: seq<int>, next: seq<int>, p: nat, lo: nat, n: nat)
    requires lo <= n && IsComb(c, lo, n) && IsComb(next, lo, n) && Advanced(c, next, p, n)
    ensures Rank(next, lo, n) == Rank(c, lo, n) + 1
  {
    if p == 0 {
      RankOfLast(c[1..], c[0], n);
      RankOfFirst(next[1..], next[0], n);
    } else {
      AdvancedRank(c[1..], next[1..], p - 1, c[0], n);
    }
  }

  /** Distinct combinations have distinct ranks, so counting through the ranks meets each exactly once. */
  lemma {:induction false} RankInjective(c: seq<int>, d: seq<int>, lo: nat, n: nat)
    requires lo <= n && IsComb(c, lo, n) && IsComb(d, lo, n) && |c| == |d|
    requires Rank(c, lo, n) == Rank(d, lo, n)
    ensures c == d
  {
    if |c| > 0 {
      if c[0] < d[0] {
        RankHeads(c, d, lo, n);
      } else if d[0] < c[0] {
        RankHeads(d, c, lo, n);
      } else {
        RankInjective(c[1..], d[1..], c[0], n);
        assert c == [c[0]] + c[1..] && d == [d[0]] + d[1..];
      }
    }
  }

  lemma RankHeads(c: seq<int>, d: seq<int>, lo: nat, n: nat)
    requires lo <= n && IsComb(c, lo, n) && IsComb(d, lo, n) && |c| == |d| > 0
    requires c[0] < d[0]
    ensures Rank(c, lo, n) < Rank(d, lo, n)
  {
    RankBound(c[1..], c[0], n);
    ChooseMono(n - d[0] + 1, n - c[0], |c|);
    RankNonNegative(d[1..], d[0], n);
  }

  lemma {:induction false} ChooseMono(m: nat, n: nat, k: nat)
    requires m <= n
    ensures Choose(m, k) <= Choose(n, k)
    decreases n
  {
    if m < n { ChooseMono(m, n - 1, k); }
  }

  lemma {:induction false} RankNonNegative(c: seq<int>, lo: nat, n: nat)
    requires lo <= n && IsComb(c, lo, n)
    ensures Rank(c, lo, n) >= 0
  {
    if |c| > 0 {
      RankNonNegative(c[1..], c[0], n);
      ChooseMono(n - c[0] + 1, n - lo, |c|);
    }
  }

  /** The next r-combination of {1, ..., n}, computed in place in a[1 .. r]. */
  method NextComb(n: nat, r: nat, a: array<int>)
    requires 1 <= r < a.Length && IsComb(a[1..r + 1], 0, n)
    requires Rank(a[1..r + 1], 0, n) + 1 < Choose(n, r)
    modifies a
    ensures IsComb(a[1..r + 1], 0, n)
    ensures Rank(a[1..r + 1], 0, n) == old(Rank(a[1..r + 1], 0, n)) + 1
  {
    hide Rank;
    hide Choose;
    ghost var c := a[1..r + 1];
    assert forall i :: 1 <= i <= r ==> a[i] == c[i - 1];
    a[r] := a[r] + 1;
    if a[r] <= n {
      Finish(c, a[1..r + 1], r - 1, n);
      return;
    }
    CombBounds(c, 0, n, r - 1);
    var j := r - 1;
    NotLast(c, n, j);
    while a[j] == n - r + j
      invariant 1 <= j <= r - 1
      invariant forall i :: 1 <= i < r ==> a[i] == c[i - 1]
      invariant forall i :: j <= i < r ==> c[i] == n - r + 1 + i
      decreases j
    {
      j := j - 1;
      NotLast(c, n, j);
    }
    CombBounds(c, 0, n, j - 1);
    ghost var pivot := c[j - 1];
    var i := r;
    while i >= j
      invariant j - 1 <= i <= r
      invariant forall k :: 1 <= k < j ==> a[k] == c[k - 1]
      invariant i >= j ==> a[j] == pivot
      invariant forall k :: i < k <= r ==> a[k] == pivot + 1 + (k - j)
    {
      a[i] := a[j] + i - j + 1;
      i := i - 1;
    }
    ghost var next := a[1..r + 1];
    assert forall k :: 0 <= k < j - 1 ==> next[k] == a[k + 1] == c[k];
    assert forall k :: j - 1 <= k < r ==> next[k] == a[k + 1];
    Finish(c, next, j - 1, n);
  }

  lemma Finish(c: seq<int>, next: seq<int>, p: nat, n: nat)
    requires IsComb(c, 0, n) && Advanced(c, next, p, n)
    ensures IsComb(next, 0, n) && Rank(next, 0, n) == Rank(c, 0, n) + 1
  {
    AdvancedIsComb(c, next, p, 0, n);
    AdvancedRank(c, next, p, 0, n);
  }

  /** A combination that has a successor is not made of the largest elements only. */
  lemma NotLast(c: seq<int>, n: nat, j: nat)
    requires IsComb(c, 0, n) && Rank(c, 0, n) + 1 < Choose(n, |c|)
    requires forall i :: j <= i < |c| ==> c[i] == n - |c| + 1 + i
    ensures j >= 1
  {
    if j == 0 { RankOfLast(c, 0, n); }
  }
}
