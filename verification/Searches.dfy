/** Breadth-first reachability over the normal edges (internal/dag/graph.go). */
module Searches {
  import opened Walks
  import opened Counting
  import opened Definitions
  import opened Graphs

  /** Whether a search follows edges or walks them backwards. */
  datatype Direction = Forward | Backward

  function Lists(g: Graph, d: Direction): seq<seq<nat>> {
    if d == Forward then g.outNormal else g.inNormal
  }

  function Next(g: Graph, d: Direction, e: nat): nat {
    if d == Forward then g.To(e) else g.From(e)
  }

  /** The arcs a search in direction d follows. */
  ghost function Followed(g: Graph, d: Direction): set<(nat, nat)> {
    if d == Forward then g.Arcs() else Reversed(g.Arcs())
  }

  /** The steps one edge away from u, in edge order. */
  ghost function Successors(g: Graph, d: Direction, u: nat): seq<nat> {
    if u < |Lists(g, d)| then
      seq(|Lists(g, d)[u]|, k requires 0 <= k < |Lists(g, d)[u]| => Next(g, d, Lists(g, d)[u][k]))
    else []
  }

  /** succ lists exactly the targets of the arcs leaving u. */
  ghost predicate ListsTargets(arcs: set<(nat, nat)>, size: nat, u: nat, succ: seq<nat>) {
    && (forall v | v in succ :: v < size && (u, v) in arcs)
    && (forall v: nat | (u, v) in arcs :: v in succ)
  }

  lemma SuccessorsSound(g: Graph, d: Direction, u: nat)
    requires g.Valid() && u < g.Size()
    ensures |Lists(g, d)| == g.Size() && |Successors(g, d, u)| == |Lists(g, d)[u]|
    ensures forall v | v in Successors(g, d, u) :: v < g.Size() && (u, v) in Followed(g, d)
  {
    g.AdjacencyExact(u);
    var list, succ := Lists(g, d)[u], Successors(g, d, u);
    forall v | v in succ ensures v < g.Size() && (u, v) in Followed(g, d) {
      var k :| 0 <= k < |list| && succ[k] == v;
      var e := list[k];
      assert e in list;
      assert (g.From(e), g.To(e)) in g.Arcs();
    }
  }

  lemma SuccessorsExact(g: Graph, d: Direction, u: nat)
    requires g.Valid() && u < g.Size()
    ensures |Lists(g, d)| == g.Size() && |Successors(g, d, u)| == |Lists(g, d)[u]|
    ensures ListsTargets(Followed(g, d), g.Size(), u, Successors(g, d, u))
  {
    SuccessorsSound(g, d, u);
    g.AdjacencyExact(u);
    var list, succ := Lists(g, d)[u], Successors(g, d, u);
    forall v: nat | (u, v) in Followed(g, d) ensures v in succ {
      var e: nat :| e < |g.def.edges| && g.Normal(e)
                    && (if d == Forward then (u, v) == (g.From(e), g.To(e)) else (v, u) == (g.From(e), g.To(e)));
      assert e in list;
      var k :| 0 <= k < |list| && list[k] == e;
      assert succ[k] == v;
    }
  }

  /** Everything seen is reachable, and whatever left the queue has all its successors seen. */
  ghost predicate Searching(arcs: set<(nat, nat)>, size: nat, start: nat, visited: set<nat>, queue: seq<nat>) {
    && (forall v: nat | v in visited :: v < size && Reaches(arcs, start, v))
    && (forall v | v in queue :: v == start || v in visited)
    && (forall a | a in arcs && (a.0 == start || a.0 in visited) && a.0 !in queue :: a.1 in visited)
  }

  /** Mid-scan of step u: its first k successors are seen as well. */
  ghost predicate Scanning(arcs: set<(nat, nat)>, size: nat, start: nat, visited: set<nat>, queue: seq<nat>,
                           u: nat, succ: seq<nat>, k: nat)
  {
    && Searching(arcs, size, start, visited, [u] + queue)
    && (u == start || u in visited)
    && ListsTargets(arcs, size, u, succ)
    && k <= |succ| && forall i | 0 <= i < k :: succ[i] in visited
  }

  lemma StartScan(arcs: set<(nat, nat)>, size: nat, start: nat, visited: set<nat>, queue: seq<nat>, succ: seq<nat>)
    requires queue != [] && Searching(arcs, size, start, visited, queue)
    requires ListsTargets(arcs, size, queue[0], succ)
    ensures Scanning(arcs, size, start, visited, queue[1..], queue[0], succ, 0)
  {
    assert [queue[0]] + queue[1..] == queue;
  }

  lemma ScannedReached(arcs: set<(nat, nat)>, size: nat, start: nat, visited: set<nat>, queue: seq<nat>,
                       u: nat, succ: seq<nat>, k: nat)
    requires Scanning(arcs, size, start, visited, queue, u, succ, k) && k < |succ|
    ensures succ[k] < size && Reaches(arcs, start, succ[k])
  {
    var t := succ[k];
    assert t in succ;
    EdgeReaches(arcs, u, t);
    if u != start {
      ReachesTrans(arcs, start, u, t);
    }
  }

  /** Seeing one more successor keeps the scan; a new one joins the queue. */
  lemma ScanSuccessor(arcs: set<(nat, nat)>, size: nat, start: nat, visited: set<nat>, queue: seq<nat>,
                      u: nat, succ: seq<nat>, k: nat)
    requires Scanning(arcs, size, start, visited, queue, u, succ, k) && k < |succ|
    ensures succ[k] in visited ==> Scanning(arcs, size, start, visited, queue, u, succ, k + 1)
    ensures succ[k] !in visited ==> Scanning(arcs, size, start, visited + {succ[k]}, queue + [succ[k]], u, succ, k + 1)
  {
    ScannedReached(arcs, size, start, visited, queue, u, succ, k);
    var t := succ[k];
    if t !in visited {
      assert [u] + (queue + [t]) == [u] + queue + [t];
      assert Searching(arcs, size, start, visited + {t}, [u] + (queue + [t]));
    }
  }

  lemma EndScan(arcs: set<(nat, nat)>, size: nat, start: nat, visited: set<nat>, queue: seq<nat>, u: nat,
                succ: seq<nat>)
    requires Scanning(arcs, size, start, visited, queue, u, succ, |succ|)
    ensures Searching(arcs, size, start, visited, queue)
  {
    forall a | a in arcs && (a.0 == start || a.0 in visited) && a.0 !in queue ensures a.1 in visited {
      if a.0 == u {
        assert a.1 in succ;
      } else {
        assert a.0 !in [u] + queue;
      }
    }
    forall v | v in queue ensures v == start || v in visited {
      assert v in [u] + queue;
    }
  }

  lemma SearchComplete(arcs: set<(nat, nat)>, size: nat, start: nat, visited: set<nat>)
    requires Searching(arcs, size, start, visited, [])
    ensures forall v: nat :: v in visited <==> Reaches(arcs, start, v)
  {
    forall v: nat | Reaches(arcs, start, v) ensures v in visited {
      ClosedUnderReach(arcs, visited, start, v);
    }
  }

  lemma RoomLeft(size: nat, visited: set<nat>, t: nat)
    requires (forall v | v in visited :: v < size) && t < size && t !in visited
    ensures |visited| < size
  {
    SubsetCount(visited + {t}, Below(size));
  }

  /** The queue search all three queries share: it stops early when an edge leads to the goal, if there is one. */
  method Search(g: Graph, d: Direction, start: nat, goal: Option<nat>) returns (visited: set<nat>, hit: bool)
    requires g.Valid() && start < g.Size()
    ensures hit ==> goal.Some? && Reaches(Followed(g, d), start, goal.value)
    ensures !hit ==> forall i: nat :: i in visited <==> Reaches(Followed(g, d), start, i)
    ensures !hit && goal.Some? ==> goal.value !in visited
    ensures forall i | i in visited :: i < g.Size()
  {
    ghost var arcs := Followed(g, d);
    visited := {};
    var queue := [start];
    while |queue| > 0
      invariant Searching(arcs, g.Size(), start, visited, queue)
      invariant goal.Some? ==> goal.value !in visited
      decreases g.Size() - |visited|, |queue|
    {
      var s := queue[0];
      assert s in queue;
      SuccessorsExact(g, d, s);
      StartScan(arcs, g.Size(), start, visited, queue, Successors(g, d, s));
      visited, queue, hit := Scan(g, d, start, visited, queue[1..], s, goal);
      if hit {
        return;
      }
      EndScan(arcs, g.Size(), start, visited, queue, s, Successors(g, d, s));
    }
    SearchComplete(arcs, g.Size(), start, visited);
    hit := false;
  }

  /** Scans the adjacency list of one dequeued step. */
  method Scan(g: Graph, d: Direction, start: nat, seen: set<nat>, waiting: seq<nat>, s: nat, goal: Option<nat>)
    returns (visited: set<nat>, queue: seq<nat>, hit: bool)
    requires g.Valid() && s < g.Size()
    requires Scanning(Followed(g, d), g.Size(), start, seen, waiting, s, Successors(g, d, s), 0)
    requires goal.Some? ==> goal.value !in seen
    ensures hit ==> goal.Some? && Reaches(Followed(g, d), start, goal.value)
    ensures goal.Some? ==> goal.value !in visited
    ensures forall v | v in visited :: v < g.Size()
    ensures !hit ==>
            Scanning(Followed(g, d), g.Size(), start, visited, queue, s, Successors(g, d, s), |Successors(g, d, s)|)
    ensures (visited == seen && queue == waiting) || |seen| < |visited| <= g.Size()
  {
    ghost var arcs, succ := Followed(g, d), Successors(g, d, s);
    SuccessorsExact(g, d, s);
    visited, queue := seen, waiting;
    for k := 0 to |Lists(g, d)[s]|
      invariant Scanning(arcs, g.Size(), start, visited, queue, s, succ, k)
      invariant goal.Some? ==> goal.value !in visited
      invariant (visited == seen && queue == waiting) || |seen| < |visited| <= g.Size()
    {
      var t := Next(g, d, Lists(g, d)[s][k]);
      assert t == succ[k];
      ScannedReached(arcs, g.Size(), start, visited, queue, s, succ, k);
      if goal == Some(t) {
        return visited, queue, true;
      }
      ScanSuccessor(arcs, g.Size(), start, visited, queue, s, succ, k);
      if t !in visited {
        RoomLeft(g.Size(), visited, t);
        visited, queue := visited + {t}, queue + [t];
      }
    }
    hit := false;
  }

  function Names(g: Graph, visited: set<nat>): set<string> {
    set i | i in visited && i < |g.def.steps| :: g.def.steps[i].id
  }

  lemma NamesReached(g: Graph, d: Direction, start: nat, visited: set<nat>)
    requires g.Valid() && start < g.Size()
    requires forall i: nat :: i in visited <==> Reaches(Followed(g, d), start, i)
    ensures forall id :: id in Names(g, visited) <==>
              if d == Forward then Reaches(g.Relation(), g.def.steps[start].id, id)
              else Reaches(g.Relation(), id, g.def.steps[start].id)
  {
    var here := g.def.steps[start].id;
    forall id ensures id in Names(g, visited) <==>
                        if d == Forward then Reaches(g.Relation(), here, id) else Reaches(g.Relation(), id, here) {
      PairsWithin(g.def.edges, Ids(g.def.steps));
      if d == Forward && Reaches(g.Relation(), here, id) {
        ReachesEndpoints(g.Relation(), Ids(g.def.steps), here, id);
      }
      if d == Backward && Reaches(g.Relation(), id, here) {
        ReachesEndpoints(g.Relation(), Ids(g.def.steps), id, here);
      }
      if id in Ids(g.def.steps) {
        IndexReached(g, d, start, g.index[id]);
      }
    }
  }

  lemma IndexReached(g: Graph, d: Direction, i: nat, j: nat)
    requires g.Valid() && i < g.Size() && j < g.Size()
    ensures Reaches(Followed(g, d), i, j) <==>
            if d == Forward then Reaches(g.Relation(), g.def.steps[i].id, g.def.steps[j].id)
            else Reaches(g.Relation(), g.def.steps[j].id, g.def.steps[i].id)
  {
    if d == Forward {
      g.ArcReach(i, j);
    } else {
      ReversedReachIff(g.Arcs(), j, i);
      g.ArcReach(j, i);
    }
  }

  /** Exactly the steps with a non-empty normal-edge path from stepID; None for an unknown step. */
  method Descendants(g: Graph, stepID: string) returns (r: Option<set<string>>)
    requires g.Valid()
    ensures r.Some? <==> stepID in Ids(g.def.steps)
    ensures r.Some? ==> forall id :: id in r.value <==> Reaches(g.Relation(), stepID, id)
  {
    if stepID !in g.index {
      return None;
    }
    var visited, _ := Search(g, Forward, g.index[stepID], None);
    NamesReached(g, Forward, g.index[stepID], visited);
    r := Some(Names(g, visited));
  }

  /** Exactly the steps with a non-empty normal-edge path to stepID; None for an unknown step. */
  method Ancestors(g: Graph, stepID: string) returns (r: Option<set<string>>)
    requires g.Valid()
    ensures r.Some? <==> stepID in Ids(g.def.steps)
    ensures r.Some? ==> forall id :: id in r.value <==> Reaches(g.Relation(), id, stepID)
  {
    if stepID !in g.index {
      return None;
    }
    var visited, _ := Search(g, Backward, g.index[stepID], None);
    NamesReached(g, Backward, g.index[stepID], visited);
    r := Some(Names(g, visited));
  }

  /** Whether a non-empty normal-edge path leads from one step to another. */
  method CanReach(g: Graph, from: nat, to: nat) returns (yes: bool)
    requires g.Valid() && from < g.Size() && to < g.Size()
    ensures yes <==> Reaches(g.Relation(), g.def.steps[from].id, g.def.steps[to].id)
  {
    var visited;
    visited, yes := Search(g, Forward, from, Some(to));
    IndexReached(g, Forward, from, to);
  }
}
