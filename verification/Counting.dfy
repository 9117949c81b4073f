/** Sizes of finite sets of numbers, and the pigeonhole principle. */
module Counting {
  function Below(n: nat): set<int> { if n == 0 then {} else Below(n - 1) + {n - 1} }

  lemma {:induction false} BelowHas(n: nat)
    ensures (forall i :: i in Below(n) <==> 0 <= i < n) && |Below(n)| == n
  {
    if n > 0 { BelowHas(n - 1); }
  }

  lemma SubsetSize(a: set<int>, b: set<int>)
    requires a <= b
    ensures |a| <= |b|
  {
    assert b == a + (b - a);
  }

  function Elements(f: seq<int>): set<int> { if f == [] then {} else {f[0]} + Elements(f[1..]) }

  lemma {:induction false} ElementsOf(f: seq<int>)
    ensures forall x :: x in Elements(f) <==> x in f
  {
    if f != [] {
      ElementsOf(f[1..]);
      assert f == [f[0]] + f[1..];
    }
  }

  lemma {:induction false} DistinctCount(f: seq<int>)
    requires forall i, j :: 0 <= i < j < |f| ==> f[i] != f[j]
    ensures |Elements(f)| == |f|
  {
    if f != [] {
      DistinctCount(f[1..]);
      ElementsOf(f[1..]);
      assert f[0] !in f[1..];
    }
  }

  /** Distinct numbers below `n` are at most `n` many. */
  lemma Pigeonhole(f: seq<int>, n: nat)
    requires forall i :: 0 <= i < |f| ==> 0 <= f[i] < n
    requires forall i, j :: 0 <= i < j < |f| ==> f[i] != f[j]
    ensures |f| <= n
  {
    DistinctCount(f);
    ElementsOf(f);
    BelowHas(n);
    forall x | x in Elements(f)
      ensures x in Below(n)
    {
      assert x in f;
    }
    SubsetSize(Elements(f), Below(n));
  }
}
