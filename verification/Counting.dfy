/** Duplicate-free index lists and their sizes. */
module Counting {

  ghost predicate Distinct<T>(s: seq<T>) {
    forall i, j | 0 <= i < j < |s| :: s[i] != s[j]
  }

  function Elements<T>(s: seq<T>): set<T> {
    set x | x in s
  }

  ghost predicate Ascending(s: seq<nat>) {
    forall i, j | 0 <= i < j < |s| :: s[i] < s[j]
  }

  lemma {:induction false} DistinctCount<T>(s: seq<T>)
    requires Distinct(s)
    ensures |Elements(s)| == |s|
  {
    if s != [] {
      var rest := s[..|s| - 1];
      DistinctCount(rest);
      assert Elements(s) == Elements(rest) + {s[|s| - 1]};
    }
  }

  /** The indices below n. */
  ghost function Below(n: nat): (r: set<nat>)
    ensures forall i: nat :: i in r <==> i < n
    ensures |r| == n
  {
    if n == 0 then {} else Below(n - 1) + {n - 1}
  }

  lemma SubsetCount<T>(a: set<T>, b: set<T>)
    requires a <= b
    ensures |a| <= |b|
    ensures |a| == |b| ==> a == b
  {
    assert b == a + (b - a);
  }

  /** A duplicate-free list of indices below n has at most n entries, and n exactly when it misses none. */
  lemma BoundedDistinct(s: seq<nat>, n: nat)
    requires Distinct(s) && forall v | v in s :: v < n
    ensures |s| <= n
    ensures |s| == n <==> forall v: nat | v < n :: v in s
  {
    DistinctCount(s);
    SubsetCount(Elements(s), Below(n));
    if |s| == n {
      forall v: nat | v < n ensures v in s {
        assert v in Elements(s);
      }
    }
    if forall v: nat | v < n :: v in s {
      SubsetCount(Below(n), Elements(s));
    }
  }

  lemma Singleton<T(!new)>(s: seq<T>, x: T)
    requires Distinct(s) && forall y :: y in s <==> y == x
    ensures s == [x]
  {
    DistinctCount(s);
    assert Elements(s) == {x};
    assert s[0] in s;
  }

  lemma DistinctAppend<T>(s: seq<T>, x: T)
    requires Distinct(s) && x !in s
    ensures Distinct(s + [x])
  {
  }

  ghost function Position<T(!new)>(s: seq<T>, v: T): (i: nat)
    requires v in s
    ensures i < |s| && s[i] == v
  {
    var i :| 0 <= i < |s| && s[i] == v;
    i
  }
}
