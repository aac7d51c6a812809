/** Walks, reachability and acyclicity over finite edge sets: the vocabulary in
    which every graph algorithm and every graph rewrite of the engine is specified. */
module Walks {

  ghost predicate IsWalk<T(!new)>(edges: set<(T, T)>, p: seq<T>) {
    && |p| >= 1
    && forall i, j | 0 <= i < j < |p| && j == i + 1 :: (p[i], p[j]) in edges
  }

  ghost predicate WalkBetween<T(!new)>(edges: set<(T, T)>, p: seq<T>, a: T, b: T) {
    IsWalk(edges, p) && p[0] == a && p[|p| - 1] == b
  }

  /** There is a walk of at least one edge from a to b. */
  ghost predicate Reaches<T(!new)>(edges: set<(T, T)>, a: T, b: T) {
    exists p: seq<T> :: |p| >= 2 && WalkBetween(edges, p, a, b)
  }

  ghost predicate ReachesOrIs<T(!new)>(edges: set<(T, T)>, a: T, b: T) {
    a == b || Reaches(edges, a, b)
  }

  ghost predicate Acyclic<T(!new)>(edges: set<(T, T)>) {
    forall v: T :: !Reaches(edges, v, v)
  }

  /** Every edge joins two members of the vertex set. */
  ghost predicate Within<T(!new)>(edges: set<(T, T)>, vertices: set<T>) {
    forall e | e in edges :: e.0 in vertices && e.1 in vertices
  }

  // ---------- building and splitting walks ----------

  lemma EdgeReaches<T(!new)>(edges: set<(T, T)>, a: T, b: T)
    requires (a, b) in edges
    ensures Reaches(edges, a, b)
  {
    assert WalkBetween(edges, [a, b], a, b);
  }

  lemma WalkReaches<T(!new)>(edges: set<(T, T)>, p: seq<T>, i: nat, j: nat)
    requires IsWalk(edges, p) && i < j < |p|
    ensures Reaches(edges, p[i], p[j])
  {
    var q := p[i..j + 1];
    assert WalkBetween(edges, q, p[i], p[j]);
  }

  lemma ReachesTrans<T(!new)>(edges: set<(T, T)>, a: T, b: T, c: T)
    requires Reaches(edges, a, b) && Reaches(edges, b, c)
    ensures Reaches(edges, a, c)
  {
    var p: seq<T> :| |p| >= 2 && WalkBetween(edges, p, a, b);
    var q: seq<T> :| |q| >= 2 && WalkBetween(edges, q, b, c);
    var r := p + q[1..];
    assert p[|p| - 1] == q[0];
    forall i, j | 0 <= i < j < |r| && j == i + 1 ensures (r[i], r[j]) in edges {
      if j < |p| {
        assert r[i] == p[i] && r[j] == p[j];
      } else {
        assert r[j] == q[j - |p| + 1] && r[i] == q[i - |p| + 1];
      }
    }
    assert WalkBetween(edges, r, a, c);
  }

  lemma ReachesOrIsTrans<T(!new)>(edges: set<(T, T)>, a: T, b: T, c: T)
    requires (ReachesOrIs(edges, a, b) && Reaches(edges, b, c)) || (Reaches(edges, a, b) && ReachesOrIs(edges, b, c))
    ensures Reaches(edges, a, c)
  {
    if a != b && b != c {
      ReachesTrans(edges, a, b, c);
    }
  }

  lemma ReachesMono<T(!new)>(small: set<(T, T)>, large: set<(T, T)>, a: T, b: T)
    requires small <= large && Reaches(small, a, b)
    ensures Reaches(large, a, b)
  {
    var p: seq<T> :| |p| >= 2 && WalkBetween(small, p, a, b);
    assert WalkBetween(large, p, a, b);
  }

  lemma AcyclicMono<T(!new)>(small: set<(T, T)>, large: set<(T, T)>)
    requires small <= large && Acyclic(large)
    ensures Acyclic(small)
  {
    forall v: T ensures !Reaches(small, v, v) {
      if Reaches(small, v, v) {
        ReachesMono(small, large, v, v);
      }
    }
  }

  lemma FirstEdge<T(!new)>(edges: set<(T, T)>, a: T, b: T) returns (c: T)
    requires Reaches(edges, a, b)
    ensures (a, c) in edges && ReachesOrIs(edges, c, b)
  {
    var p: seq<T> :| |p| >= 2 && WalkBetween(edges, p, a, b);
    c := p[1];
    if |p| > 2 {
      WalkReaches(edges, p, 1, |p| - 1);
    }
  }

  lemma LastEdge<T(!new)>(edges: set<(T, T)>, a: T, b: T) returns (c: T)
    requires Reaches(edges, a, b)
    ensures (c, b) in edges && ReachesOrIs(edges, a, c)
  {
    var p: seq<T> :| |p| >= 2 && WalkBetween(edges, p, a, b);
    c := p[|p| - 2];
    if |p| > 2 {
      WalkReaches(edges, p, 0, |p| - 2);
    }
  }

  lemma ReachesEndpoints<T(!new)>(edges: set<(T, T)>, vertices: set<T>, a: T, b: T)
    requires Within(edges, vertices) && Reaches(edges, a, b)
    ensures a in vertices && b in vertices
  {
    var c := FirstEdge(edges, a, b);
    var d := LastEdge(edges, a, b);
    assert (a, c) in edges && (d, b) in edges;
  }

  /** A set closed under the edges that holds the successors of a holds everything a reaches. */
  lemma ClosedUnderReach<T(!new)>(edges: set<(T, T)>, closed: set<T>, a: T, b: T)
    requires forall e | e in edges && (e.0 == a || e.0 in closed) :: e.1 in closed
    requires Reaches(edges, a, b)
    ensures b in closed
  {
    var p: seq<T> :| |p| >= 2 && WalkBetween(edges, p, a, b);
    var i := 1;
    assert (p[0], p[1]) in edges;
    while i < |p| - 1
      invariant 1 <= i <= |p| - 1 && p[i] in closed
    {
      assert (p[i], p[i + 1]) in edges;
      i := i + 1;
    }
  }

  /** If h carries every edge of the first graph to a walk of the second, it carries walks to walks. */
  lemma SimulatedReach<T(!new), U(!new)>(edges: set<(T, T)>, target: set<(U, U)>, h: T -> U, a: T, b: T)
    requires forall e | e in edges :: Reaches(target, h(e.0), h(e.1))
    requires Reaches(edges, a, b)
    ensures Reaches(target, h(a), h(b))
  {
    var p: seq<T> :| |p| >= 2 && WalkBetween(edges, p, a, b);
    var i := 1;
    assert (p[0], p[1]) in edges;
    while i < |p| - 1
      invariant 1 <= i <= |p| - 1 && Reaches(target, h(a), h(p[i]))
    {
      assert (p[i], p[i + 1]) in edges;
      ReachesTrans(target, h(a), h(p[i]), h(p[i + 1]));
      i := i + 1;
    }
  }

  /** Graph homomorphisms carry walks to walks. */
  lemma MappedReach<T(!new), U(!new)>(edges: set<(T, T)>, target: set<(U, U)>, h: T -> U, a: T, b: T)
    requires forall e | e in edges :: (h(e.0), h(e.1)) in target
    requires Reaches(edges, a, b)
    ensures Reaches(target, h(a), h(b))
  {
    forall e | e in edges ensures Reaches(target, h(e.0), h(e.1)) {
      EdgeReaches(target, h(e.0), h(e.1));
    }
    SimulatedReach(edges, target, h, a, b);
  }

  ghost function Reversed<T(!new)>(edges: set<(T, T)>): set<(T, T)> {
    set e | e in edges :: (e.1, e.0)
  }

  lemma ReversedReach<T(!new)>(edges: set<(T, T)>, a: T, b: T)
    requires Reaches(edges, a, b)
    ensures Reaches(Reversed(edges), b, a)
  {
    var p: seq<T> :| |p| >= 2 && WalkBetween(edges, p, a, b);
    var q := seq(|p|, i requires 0 <= i < |p| => p[|p| - 1 - i]);
    forall i, j | 0 <= i < j < |q| && j == i + 1 ensures (q[i], q[j]) in Reversed(edges) {
      assert (p[|p| - 1 - j], p[|p| - 1 - i]) in edges;
    }
    assert WalkBetween(Reversed(edges), q, b, a);
  }

  lemma ReversedReachIff<T(!new)>(edges: set<(T, T)>, a: T, b: T)
    ensures Reaches(edges, a, b) <==> Reaches(Reversed(edges), b, a)
  {
    assert Reversed(Reversed(edges)) == edges;
    if Reaches(edges, a, b) {
      ReversedReach(edges, a, b);
    }
    if Reaches(Reversed(edges), b, a) {
      ReversedReach(Reversed(edges), b, a);
    }
  }

  // ---------- ranks certify acyclicity ----------

  ghost predicate Increases<T(!new)>(layer: T -> int, rank: T -> int, u: T, v: T) {
    layer(u) < layer(v) || (layer(u) == layer(v) && rank(u) < rank(v))
  }

  /** A lexicographic pair that grows along every edge rules out every cycle. */
  lemma RankedAcyclic<T(!new)>(edges: set<(T, T)>, layer: T -> int, rank: T -> int)
    requires forall e | e in edges :: Increases(layer, rank, e.0, e.1)
    ensures Acyclic(edges)
  {
    forall v: T ensures !Reaches(edges, v, v) {
      if Reaches(edges, v, v) {
        var p: seq<T> :| |p| >= 2 && WalkBetween(edges, p, v, v);
        var i := 1;
        assert (p[0], p[1]) in edges;
        while i < |p| - 1
          invariant 1 <= i <= |p| - 1 && Increases(layer, rank, v, p[i])
        {
          assert (p[i], p[i + 1]) in edges;
          i := i + 1;
        }
      }
    }
  }

  /** The ancestors of v: how many there are ranks every acyclic graph. */
  ghost function Above<T(!new)>(edges: set<(T, T)>, v: T): set<T> {
    set e | e in edges && Reaches(edges, e.0, v) :: e.0
  }

  lemma AboveIsExact<T(!new)>(edges: set<(T, T)>, u: T, v: T)
    ensures u in Above(edges, v) <==> Reaches(edges, u, v)
  {
    if Reaches(edges, u, v) {
      var c := FirstEdge(edges, u, v);
      assert (u, c) in edges && (u, c).0 == u;
    }
  }

  ghost function Depth<T(!new)>(edges: set<(T, T)>, v: T): nat {
    |Above(edges, v)|
  }

  lemma DepthGrows<T(!new)>(edges: set<(T, T)>, u: T, v: T)
    requires Acyclic(edges) && (u, v) in edges
    ensures Depth(edges, u) < Depth(edges, v)
  {
    EdgeReaches(edges, u, v);
    forall w | w in Above(edges, u) ensures w in Above(edges, v) {
      AboveIsExact(edges, w, u);
      ReachesTrans(edges, w, u, v);
      AboveIsExact(edges, w, v);
    }
    AboveIsExact(edges, u, u);
    AboveIsExact(edges, u, v);
    assert Above(edges, u) < Above(edges, v);
    ProperSubsetSmaller(Above(edges, u), Above(edges, v));
  }

  lemma ProperSubsetSmaller<T>(a: set<T>, b: set<T>)
    requires a < b
    ensures |a| < |b|
  {
    var rest := b - a;
    assert b == a + rest;
    assert rest != {};
  }

  /** Acyclic exactly when some integer rank grows along every edge. */
  lemma AcyclicHasRank<T(!new)>(edges: set<(T, T)>) returns (rank: T -> int)
    requires Acyclic(edges)
    ensures forall e | e in edges :: rank(e.0) < rank(e.1)
    ensures forall v :: rank(v) >= 0
  {
    rank := v => Depth(edges, v);
    forall e | e in edges ensures rank(e.0) < rank(e.1) {
      DepthGrows(edges, e.0, e.1);
    }
  }

  // ---------- splicing a delta into a graph ----------

  /** delta adds the fresh vertices to a graph over the old ones: each of its edges touches a fresh vertex. */
  ghost predicate IsSplice<T(!new)>(base: set<(T, T)>, vertices: set<T>, delta: set<(T, T)>, added: set<T>) {
    && Within(base, vertices)
    && vertices !! added
    && Within(delta, vertices + added)
    && forall e | e in delta :: e.0 in added || e.1 in added
  }

  ghost function Inside<T(!new)>(edges: set<(T, T)>, vertices: set<T>): set<(T, T)> {
    set e | e in edges && e.0 in vertices && e.1 in vertices
  }

  /** No step the delta enters leads, through the old graph, to a step the delta leaves. */
  ghost predicate AnchorsSeparated<T(!new)>(base: set<(T, T)>, vertices: set<T>, delta: set<(T, T)>) {
    forall enter, leave | enter in delta && enter.1 in vertices && leave in delta && leave.0 in vertices ::
      !ReachesOrIs(base, enter.1, leave.0)
  }

  /** With separated anchors a splice creates no cycle beyond those inside the delta itself. */
  lemma SeparatedSpliceAcyclic<T(!new)>(base: set<(T, T)>, vertices: set<T>, delta: set<(T, T)>, added: set<T>)
    requires IsSplice(base, vertices, delta, added)
    requires Acyclic(base) && Acyclic(Inside(delta, added))
    requires AnchorsSeparated(base, vertices, delta)
    ensures Acyclic(base + delta)
  {
    var oldRank := AcyclicHasRank(base);
    var freshRank := AcyclicHasRank(Inside(delta, added));
    var up := set v | v in vertices && exists e :: e in delta && e.0 in vertices && ReachesOrIs(base, v, e.0);
    ghost var layer := (v: T) => if v in added then 1 else if v in up then 0 else 2;
    ghost var rank := (v: T) => if v in added then freshRank(v) else oldRank(v);
    forall e | e in base + delta ensures Increases(layer, rank, e.0, e.1) {
      if e in base {
        if e.1 in up {
          var l :| l in delta && l.0 in vertices && ReachesOrIs(base, e.1, l.0);
          EdgeReaches(base, e.0, e.1);
          ReachesOrIsTrans(base, e.0, e.1, l.0);
          assert e.0 in up;
        }
      } else if e.0 in added && e.1 in added {
        assert e in Inside(delta, added);
      } else if e.0 in added {
        assert e.1 in vertices && e.1 !in up;
      } else {
        assert ReachesOrIs(base, e.0, e.0);
        assert e.0 in up;
      }
    }
    RankedAcyclic(base + delta, layer, rank);
  }

  /** The delta leads from old vertex s through added vertices only to old vertex t. */
  ghost predicate Detours<T(!new)>(delta: set<(T, T)>, added: set<T>, s: T, t: T) {
    exists x, y :: x in added && y in added && (s, x) in delta && (y, t) in delta
                   && ReachesOrIs(Inside(delta, added), x, y)
  }

  /** The old graph with every detour through the delta contracted to a single edge. */
  ghost function Contracted<T(!new)>(base: set<(T, T)>, vertices: set<T>, delta: set<(T, T)>, added: set<T>)
    : set<(T, T)>
  {
    base + set s, t | s in vertices && t in vertices && Detours(delta, added, s, t) :: (s, t)
  }

  lemma ContractedEdgeIsWalk<T(!new)>(base: set<(T, T)>, vertices: set<T>, delta: set<(T, T)>, added: set<T>,
                                      s: T, t: T)
    requires (s, t) in Contracted(base, vertices, delta, added)
    ensures Reaches(base + delta, s, t)
  {
    var all := base + delta;
    if (s, t) in base {
      EdgeReaches(all, s, t);
    } else {
      var x, y :| x in added && y in added && (s, x) in delta && (y, t) in delta
                  && ReachesOrIs(Inside(delta, added), x, y);
      EdgeReaches(all, s, x);
      EdgeReaches(all, y, t);
      if x != y {
        ReachesMono(Inside(delta, added), all, x, y);
      }
      ReachesOrIsTrans(all, s, x, y);
      ReachesTrans(all, s, y, t);
    }
  }

  /** The largest value of rank over a finite set, or -1 when the set is empty. */
  ghost function Highest<T(!new)>(rank: T -> int, from: set<T>): (m: int)
    requires forall v :: rank(v) >= 0
    ensures m >= -1
    ensures forall v | v in from :: rank(v) <= m
    ensures m == -1 || exists v :: v in from && rank(v) == m
  {
    if from == {} then -1 else
      var v :| v in from;
      var rest := Highest(rank, from - {v});
      if rank(v) > rest then rank(v) else rest
  }

  /** Exactly when a splice is acyclic: the delta itself is, and so is the old graph with detours contracted. */
  lemma SpliceAcyclicIff<T(!new)>(base: set<(T, T)>, vertices: set<T>, delta: set<(T, T)>, added: set<T>)
    requires IsSplice(base, vertices, delta, added)
    ensures Acyclic(base + delta) <==>
            Acyclic(Inside(delta, added)) && Acyclic(Contracted(base, vertices, delta, added))
  {
    if Acyclic(base + delta) {
      AcyclicMono(Inside(delta, added), base + delta);
      var contracted := Contracted(base, vertices, delta, added);
      forall e | e in contracted ensures Reaches(base + delta, e.0, e.1) {
        ContractedEdgeIsWalk(base, vertices, delta, added, e.0, e.1);
      }
      forall v: T ensures !Reaches(contracted, v, v) {
        if Reaches(contracted, v, v) {
          SimulatedReach(contracted, base + delta, (u: T) => u, v, v);
        }
      }
    }
    if Acyclic(Inside(delta, added)) && Acyclic(Contracted(base, vertices, delta, added)) {
      ContractionCertifies(base, vertices, delta, added);
    }
  }

  /** The old vertices from which the delta leads, through added vertices only, to x. */
  ghost function Feeders<T(!new)>(vertices: set<T>, delta: set<(T, T)>, added: set<T>, x: T): set<T> {
    set s | s in vertices && exists w :: w in added && (s, w) in delta && ReachesOrIs(Inside(delta, added), w, x)
  }

  lemma FeedersGrow<T(!new)>(vertices: set<T>, delta: set<(T, T)>, added: set<T>, x: T, y: T)
    requires (x, y) in Inside(delta, added)
    ensures Feeders(vertices, delta, added, x) <= Feeders(vertices, delta, added, y)
  {
    var inner := Inside(delta, added);
    EdgeReaches(inner, x, y);
    forall s | s in Feeders(vertices, delta, added, x) ensures s in Feeders(vertices, delta, added, y) {
      var w :| w in added && (s, w) in delta && ReachesOrIs(inner, w, x);
      ReachesOrIsTrans(inner, w, x, y);
    }
  }

  lemma ContractionCertifies<T(!new)>(base: set<(T, T)>, vertices: set<T>, delta: set<(T, T)>, added: set<T>)
    requires IsSplice(base, vertices, delta, added)
    requires Acyclic(Inside(delta, added)) && Acyclic(Contracted(base, vertices, delta, added))
    ensures Acyclic(base + delta)
  {
    var oldRank := AcyclicHasRank(Contracted(base, vertices, delta, added));
    var addedRank := AcyclicHasRank(Inside(delta, added));
    ghost var layer := (v: T) =>
      if v in added then Highest(oldRank, Feeders(vertices, delta, added, v)) else oldRank(v);
    ghost var rank := (v: T) => if v in added then 1 + addedRank(v) else 0;
    forall e | e in base + delta ensures Increases(layer, rank, e.0, e.1) {
      if e in base {
        assert e in Contracted(base, vertices, delta, added);
      } else if e.0 in added && e.1 in added {
        assert e in Inside(delta, added);
        FeedersGrow(vertices, delta, added, e.0, e.1);
      } else if e.1 in added {
        assert ReachesOrIs(Inside(delta, added), e.1, e.1);
        assert e.0 in Feeders(vertices, delta, added, e.1);
      } else {
        forall s | s in Feeders(vertices, delta, added, e.0) ensures oldRank(s) < oldRank(e.1) {
          var w :| w in added && (s, w) in delta && ReachesOrIs(Inside(delta, added), w, e.0);
          assert Detours(delta, added, s, e.1);
          assert (s, e.1) in Contracted(base, vertices, delta, added);
        }
      }
    }
    RankedAcyclic(base + delta, layer, rank);
  }
}
