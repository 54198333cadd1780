// Counting facts about finite sets and repetition-free sequences.
module Finite {

  ghost predicate Distinct<T>(p: seq<T>)
  {
    forall i, j :: 0 <= i < j < |p| ==> p[i] != p[j]
  }

  /** The numbers below `n`. */
  ghost function Below(n: nat): (all: set<nat>)
    ensures |all| == n
    ensures forall i :: i in all <==> 0 <= i < n
  {
    if n == 0 then {} else Below(n - 1) + {n - 1}
  }

  ghost function Elements<T>(p: seq<T>): set<T>
  {
    set x | x in p
  }

  lemma SubsetSize<T>(a: set<T>, b: set<T>)
    requires a <= b
    ensures |a| <= |b|
    ensures |a| == |b| ==> a == b
  {
    assert b == a + (b - a);
  }

  lemma {:induction false} DistinctSize<T>(p: seq<T>)
    requires Distinct(p)
    ensures |Elements(p)| == |p|
    decreases |p|
  {
    if p != [] {
      var t := p[..|p| - 1];
      DistinctSize(t);
      assert Elements(p) == Elements(t) + {p[|p| - 1]};
    }
  }

  /** Pigeonhole: repetition-free numbers below `n` are at most `n`, and exactly
      `n` only when none is missing. */
  lemma DistinctFits(p: seq<nat>, n: nat)
    requires Distinct(p) && forall i :: 0 <= i < |p| ==> p[i] < n
    ensures |p| <= n
    ensures |p| == n <==> forall i :: 0 <= i < n ==> i in p
  {
    DistinctSize(p);
    assert Elements(p) <= Below(n);
    SubsetSize(Elements(p), Below(n));
    if forall i :: 0 <= i < n ==> i in p {
      assert Below(n) <= Elements(p);
      SubsetSize(Below(n), Elements(p));
    }
    if |p| == n {
      assert Elements(p) == Below(n);
      forall i | 0 <= i < n ensures i in p {
        assert i in Elements(p);
      }
    }
  }

  // ------------------------------------------------------------------ maps

  lemma SameSize<K, V>(a: map<K, V>, b: map<K, V>)
    requires a.Keys == b.Keys
    ensures |a| == |b|
  {
    assert |a| == |a.Keys| && |b| == |b.Keys|;
  }

  lemma SubmapSize<K, V>(a: map<K, V>, b: map<K, V>)
    requires a.Keys <= b.Keys
    ensures |a| <= |b|
  {
    SubsetSize(a.Keys, b.Keys);
    assert |a| == |a.Keys| && |b| == |b.Keys|;
  }

  lemma RemoveSize<K, V>(m: map<K, V>, k: K)
    requires k in m
    ensures |m - {k}| == |m| - 1
  {
    assert (m - {k}).Keys == m.Keys - {k};
    assert |m - {k}| == |(m - {k}).Keys| && |m| == |m.Keys|;
  }

  lemma PutSize<K, V>(m: map<K, V>, k: K, v: V)
    ensures |m[k := v]| == if k in m then |m| else |m| + 1
  {
    assert m[k := v].Keys == m.Keys + {k};
    assert |m[k := v]| == |m[k := v].Keys| && |m| == |m.Keys|;
  }
}
