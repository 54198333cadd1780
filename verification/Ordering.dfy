// The order Python sorts strings and paths in: element by element, a prefix before
// its extensions. `rank` gives the elements their order.
module Ordering {
  predicate Before<T(==)>(rank: T -> int, a: seq<T>, b: seq<T>)
  {
    a == [] || (b != [] && (rank(a[0]) < rank(b[0]) || (a[0] == b[0] && Before(rank, a[1..], b[1..]))))
  }

  lemma {:induction false} BeforeAntisymmetric<T>(rank: T -> int, a: seq<T>, b: seq<T>)
    requires Before(rank, a, b) && Before(rank, b, a)
    ensures a == b
  {
    if a != [] && b != [] {
      BeforeAntisymmetric(rank, a[1..], b[1..]);
      assert a == [a[0]] + a[1..] && b == [b[0]] + b[1..];
    }
  }

  ghost predicate Sorted<T>(rank: T -> int, s: seq<seq<T>>)
  {
    forall i, j :: 0 <= i <= j < |s| ==> Before(rank, s[i], s[j])
  }

  /** A sorted list is determined by what is in it. */
  lemma {:induction false} SortedUnique<T>(rank: T -> int, a: seq<seq<T>>, b: seq<seq<T>>)
    requires Sorted(rank, a) && Sorted(rank, b) && multiset(a) == multiset(b)
    ensures a == b
    decreases |a|
  {
    assert |a| == |multiset(a)| == |multiset(b)| == |b|;
    if a != [] {
      LeastFirst(rank, a, b);
      LeastFirst(rank, b, a);
      BeforeAntisymmetric(rank, a[0], b[0]);
      TailSorted(rank, a);
      TailSorted(rank, b);
      SortedUnique(rank, a[1..], b[1..]);
    }
  }

  lemma TailSorted<T>(rank: T -> int, a: seq<seq<T>>)
    requires Sorted(rank, a) && a != []
    ensures Sorted(rank, a[1..]) && multiset(a[1..]) == multiset(a) - multiset{a[0]} && a == [a[0]] + a[1..]
  {
    assert a == [a[0]] + a[1..];
    assert forall i :: 0 <= i < |a[1..]| ==> a[1..][i] == a[i + 1];
  }

  lemma LeastFirst<T>(rank: T -> int, a: seq<seq<T>>, b: seq<seq<T>>)
    requires Sorted(rank, a) && multiset(a) == multiset(b) && |a| > 0 && |b| > 0
    ensures Before(rank, a[0], b[0])
  {
    assert b[0] in multiset(a);
    var i :| 0 <= i < |a| && a[i] == b[0];
  }

  function CodePoint(c: char): int
  {
    c as int
  }
}
