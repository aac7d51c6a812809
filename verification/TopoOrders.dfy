/** Kahn's algorithm on the normal-edge graph (internal/dag/graph.go). */
module TopoOrders {
  import opened Walks
  import opened Counting
  import opened Definitions
  import opened Graphs

  /** The source of every normal edge stands before its target. */
  ghost predicate SourcesFirst(g: Graph, order: seq<nat>) {
    forall i, e | 0 <= i < |order| && 0 <= e < |g.def.edges| && g.Normal(e) && g.To(e) == order[i] ::
      g.From(e) in order[..i]
  }

  /** Every step exactly once, sources first. */
  ghost predicate IsTopological(g: Graph, order: seq<nat>) {
    && |order| == g.Size()
    && Distinct(order)
    && (forall v: nat :: v in order <==> v < g.Size())
    && SourcesFirst(g, order)
  }

  /** In-edges of step t not yet consumed. */
  ghost function Unmet(g: Graph, t: nat, consumed: set<nat>): set<nat> {
    if t < |g.inNormal| then set e | e in g.inNormal[t] && e !in consumed else {}
  }

  /** All normal edges leaving the given steps. */
  ghost function EdgesFrom(g: Graph, steps: seq<nat>): set<nat> {
    set e | 0 <= e < |g.def.edges| && g.Normal(e) && g.From(e) in steps
  }

  /** remaining counts the unconsumed in-edges, and exactly the steps without any are ordered or queued. */
  ghost predicate Frontier(g: Graph, order: seq<nat>, queue: seq<nat>, remaining: seq<int>, consumed: set<nat>) {
    && |remaining| == g.Size()
    && Distinct(order + queue)
    && (forall t: nat | t < g.Size() :: remaining[t] == |Unmet(g, t, consumed)|)
    && (forall t: nat :: t in order + queue <==> t < g.Size() && remaining[t] == 0)
  }

  method TopoOrder(g: Graph) returns (order: seq<nat>, ok: bool)
    requires g.Valid()
    ensures ok <==> |order| == g.Size()
    ensures ok <==> Acyclic(g.Relation())
    ensures ok ==> IsTopological(g, order)
    ensures Distinct(order) && SourcesFirst(g, order)
  {
    var remaining := seq(g.Size(), i => 0);
    var queue: seq<nat> := [];
    for i := 0 to g.Size()
      invariant |remaining| == g.Size() && Distinct(queue)
      invariant forall t: nat | t < i :: remaining[t] == |Unmet(g, t, {})|
      invariant forall t: nat :: t in queue <==> t < i && remaining[t] == 0
    {
      remaining := remaining[i := |g.inNormal[i]|];
      InitialCount(g, i);
      if remaining[i] == 0 {
        DistinctAppend(queue, i);
        queue := queue + [i];
      }
    }
    order := [];
    InitialFrontier(g, queue, remaining);
    while |queue| > 0
      invariant Frontier(g, order, queue, remaining, EdgesFrom(g, order))
      invariant SourcesFirst(g, order)
      decreases g.Size() - |order|
    {
      var s := queue[0];
      OrderNext(g, order, queue, remaining);
      queue, remaining := Release(g, order, s, queue[1..], remaining);
      order := order + [s];
    }
    ok := |order| == g.Size();
    Verdict(g, order, remaining);
  }

  /** Consumes the out-edges of the step just ordered, queueing every step they release. */
  method Release(g: Graph, ghost before: seq<nat>, s: nat, waiting: seq<nat>, counts: seq<int>)
    returns (queue: seq<nat>, remaining: seq<int>)
    requires g.Valid() && s < g.Size() && s !in before
    requires Frontier(g, before + [s], waiting, counts, EdgesFrom(g, before))
    ensures Frontier(g, before + [s], queue, remaining, EdgesFrom(g, before + [s]))
  {
    queue, remaining := waiting, counts;
    ghost var consumed := EdgesFrom(g, before);
    for k := 0 to |g.outNormal[s]|
      invariant consumed == EdgesFrom(g, before) + Elements(g.outNormal[s][..k])
      invariant Frontier(g, before + [s], queue, remaining, consumed)
    {
      var e := g.outNormal[s][k];
      FreshEdge(g, before, s, k);
      Consume(g, before + [s], queue, remaining, consumed, e);
      var t := g.To(e);
      remaining := remaining[t := remaining[t] - 1];
      consumed := consumed + {e};
      if remaining[t] == 0 {
        queue := queue + [t];
      }
    }
    EdgesOfStep(g, before, s);
  }

  lemma InitialFrontier(g: Graph, queue: seq<nat>, remaining: seq<int>)
    requires g.Valid() && Distinct(queue) && |remaining| == g.Size()
    requires forall t: nat | t < g.Size() :: remaining[t] == |Unmet(g, t, {})|
    requires forall t: nat :: t in queue <==> t < g.Size() && remaining[t] == 0
    ensures Frontier(g, [], queue, remaining, EdgesFrom(g, [])) && SourcesFirst(g, [])
  {
    assert EdgesFrom(g, []) == {};
    assert [] + queue == queue;
  }

  lemma InitialCount(g: Graph, i: nat)
    requires g.Valid() && i < g.Size()
    ensures |g.inNormal[i]| == |Unmet(g, i, {})|
  {
    g.AdjacencyExact(i);
    DistinctCount(g.inNormal[i]);
    assert Unmet(g, i, {}) == Elements(g.inNormal[i]);
  }

  /** Moving the head of the queue to the order keeps the frontier and puts its sources first. */
  lemma OrderNext(g: Graph, order: seq<nat>, queue: seq<nat>, remaining: seq<int>)
    requires g.Valid() && queue != []
    requires Frontier(g, order, queue, remaining, EdgesFrom(g, order)) && SourcesFirst(g, order)
    ensures queue[0] < g.Size() && queue[0] !in order && |order| < g.Size()
    ensures Frontier(g, order + [queue[0]], queue[1..], remaining, EdgesFrom(g, order))
    ensures SourcesFirst(g, order + [queue[0]])
  {
    var s := queue[0];
    assert order + [s] + queue[1..] == order + queue;
    assert (order + queue)[|order|] == s && s in order + queue;
    assert forall i | 0 <= i < |order| :: (order + queue)[i] == order[i];
    BoundedDistinct(order + queue, g.Size());
    g.AdjacencyExact(s);
    assert Unmet(g, s, EdgesFrom(g, order)) == {};
    var next := order + [s];
    forall i, e | 0 <= i < |next| && 0 <= e < |g.def.edges| && g.Normal(e) && g.To(e) == next[i]
      ensures g.From(e) in next[..i]
    {
      if i < |order| {
        assert next[..i] == order[..i];
      } else {
        assert e in g.inNormal[s] && e !in Unmet(g, s, EdgesFrom(g, order));
        assert e in EdgesFrom(g, order);
        assert next[..i] == order;
      }
    }
  }

  lemma FreshEdge(g: Graph, before: seq<nat>, s: nat, k: nat)
    requires g.Valid() && s < g.Size() && s !in before && k < |g.outNormal[s]|
    ensures g.Normal(g.outNormal[s][k])
    ensures g.outNormal[s][k] !in EdgesFrom(g, before) + Elements(g.outNormal[s][..k])
    ensures Elements(g.outNormal[s][..k + 1]) == Elements(g.outNormal[s][..k]) + {g.outNormal[s][k]}
  {
    g.AdjacencyExact(s);
    assert g.outNormal[s][k] in g.outNormal[s];
    assert g.outNormal[s][..k + 1] == g.outNormal[s][..k] + [g.outNormal[s][k]];
  }

  lemma EdgesOfStep(g: Graph, before: seq<nat>, s: nat)
    requires g.Valid() && s < g.Size()
    ensures EdgesFrom(g, before + [s]) == EdgesFrom(g, before) + Elements(g.outNormal[s][..|g.outNormal[s]|])
  {
    g.AdjacencyExact(s);
    assert g.outNormal[s][..|g.outNormal[s]|] == g.outNormal[s];
  }

  lemma CountsAfter(g: Graph, consumed: set<nat>, e: nat, u: nat)
    requires g.Valid() && g.Normal(e) && e !in consumed && u < g.Size()
    ensures |Unmet(g, u, consumed + {e})| == |Unmet(g, u, consumed)| - if u == g.To(e) then 1 else 0
  {
    g.AdjacencyExact(u);
    if u == g.To(e) {
      assert e in Unmet(g, u, consumed);
      assert Unmet(g, u, consumed + {e}) == Unmet(g, u, consumed) - {e};
    } else {
      assert Unmet(g, u, consumed + {e}) == Unmet(g, u, consumed);
    }
  }

  /** Consuming one edge lowers its target's count, queueing the target when the count reaches zero. */
  lemma Consume(g: Graph, order: seq<nat>, queue: seq<nat>, remaining: seq<int>, consumed: set<nat>, e: nat)
    requires g.Valid() && Frontier(g, order, queue, remaining, consumed)
    requires g.Normal(e) && e !in consumed
    ensures |remaining| == g.Size()
    ensures var t := g.To(e);
            var left := remaining[t] - 1;
            Frontier(g, order, if left == 0 then queue + [t] else queue, remaining[t := left], consumed + {e})
  {
    var t := g.To(e);
    forall u: nat | u < g.Size()
      ensures remaining[t := remaining[t] - 1][u] == |Unmet(g, u, consumed + {e})|
    {
      CountsAfter(g, consumed, e, u);
    }
    CountsAfter(g, consumed, e, t);
    assert remaining[t] == |Unmet(g, t, consumed)| >= 1;
    var all := order + queue;
    assert t !in all;
    if remaining[t] == 1 {
      assert order + (queue + [t]) == all + [t];
      DistinctAppend(all, t);
    }
  }

  /** In an acyclic graph a closed frontier has ordered every step. */
  lemma {:induction false} NothingStuck(g: Graph, order: seq<nat>, remaining: seq<int>, v: nat)
    requires g.Valid() && Acyclic(g.Arcs()) && v < g.Size()
    requires Frontier(g, order, [], remaining, EdgesFrom(g, order))
    ensures v in order
    decreases Depth(g.Arcs(), v)
  {
    assert order + [] == order;
    if v !in order {
      assert Unmet(g, v, EdgesFrom(g, order)) != {};
      var e :| e in Unmet(g, v, EdgesFrom(g, order));
      g.AdjacencyExact(v);
      DepthGrows(g.Arcs(), g.From(e), v);
      NothingStuck(g, order, remaining, g.From(e));
    }
  }

  lemma TopologicalIsAcyclic(g: Graph, order: seq<nat>)
    requires g.Valid() && IsTopological(g, order)
    ensures Acyclic(g.Relation())
  {
    var place := (v: nat) => if v in order then Position(order, v) else 0;
    forall a | a in g.Arcs() ensures Increases(place, (v: nat) => 0, a.0, a.1) {
      var e: nat :| e < |g.def.edges| && g.Normal(e) && a == (g.From(e), g.To(e));
      var i := Position(order, a.1);
      assert a.0 in order[..i];
    }
    RankedAcyclic(g.Arcs(), place, (v: nat) => 0);
    g.ArcsAcyclic();
  }

  lemma Verdict(g: Graph, order: seq<nat>, remaining: seq<int>)
    requires g.Valid() && SourcesFirst(g, order)
    requires Frontier(g, order, [], remaining, EdgesFrom(g, order))
    ensures Distinct(order)
    ensures |order| == g.Size() <==> Acyclic(g.Relation())
    ensures |order| == g.Size() ==> IsTopological(g, order)
  {
    assert order + [] == order;
    BoundedDistinct(order, g.Size());
    if |order| == g.Size() {
      TopologicalIsAcyclic(g, order);
    }
    if Acyclic(g.Relation()) {
      g.ArcsAcyclic();
      forall v: nat | v < g.Size() ensures v in order {
        NothingStuck(g, order, remaining, v);
      }
    }
  }
}
