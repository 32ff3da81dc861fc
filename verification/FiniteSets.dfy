/** Counting in finite sets of integers. */
module FiniteSets {

  /** The numbers from 0 up to m, m excluded. */
  ghost function Below(m: nat): (r: set<int>)
    ensures |r| == m && forall j :: j in r <==> 0 <= j < m
  {
    if m == 0 then {} else Below(m - 1) + {m - 1}
  }

  lemma SubsetOfSameSize(a: set<int>, b: set<int>)
    requires a <= b && |a| == |b|
    ensures a == b
  {
    assert |b - a| == |b| - |a|;
  }
}
