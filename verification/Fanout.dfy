/** Map fan-out on the graph level (internal/dag/mapexpand.go): one instance of the template per item,
    spliced between the map step and a gather. */
module Fanout {
  import opened Walks
  import opened Texts
  import opened StepIds

  /** A template graph with a single sink, mapped over n items by a map step. */
  datatype MapSpec = MapSpec(steps: set<string>, edges: set<(string, string)>, sink: string, mapStep: string, n: nat)
  {
    predicate IsEntry(v: string) {
      v in steps && forall e | e in edges :: e.1 != v
    }

    ghost predicate Valid() {
      && Within(edges, steps) && Acyclic(edges)
      && (forall v | v in steps :: '#' !in v)
      && (forall v, k: nat | v in steps && k < n :: InstanceId(v, k) != mapStep)
      && sink in steps && (forall v | v in steps :: v == sink <==> forall e | e in edges :: e.0 != v)
    }

    function Gather(): string {
      GatherId(mapStep)
    }
  }

  ghost function Instance(m: MapSpec, k: nat): set<string> {
    set v | v in m.steps :: InstanceId(v, k)
  }

  ghost function InstanceEdges(m: MapSpec, k: nat): set<(string, string)> {
    (set e | e in m.edges :: (InstanceId(e.0, k), InstanceId(e.1, k)))
    + (set v | v in m.steps && m.IsEntry(v) :: (m.mapStep, InstanceId(v, k)))
    + {(InstanceId(m.sink, k), m.Gather())}
  }

  ghost function StepsUpTo(m: MapSpec, n: nat): set<string> {
    if n == 0 then {m.Gather()} else StepsUpTo(m, n - 1) + Instance(m, n - 1)
  }

  ghost function EdgesUpTo(m: MapSpec, n: nat): set<(string, string)> {
    if n == 0 then {} else EdgesUpTo(m, n - 1) + InstanceEdges(m, n - 1)
  }

  ghost function Added(m: MapSpec): set<string> {
    StepsUpTo(m, m.n)
  }

  ghost function Delta(m: MapSpec): set<(string, string)> {
    EdgesUpTo(m, m.n)
  }

  lemma {:induction false} EdgesUpToAre(m: MapSpec, n: nat, e: (string, string))
    requires e in EdgesUpTo(m, n)
    ensures exists k: nat :: k < n && e in InstanceEdges(m, k)
  {
    if e in EdgesUpTo(m, n - 1) {
      EdgesUpToAre(m, n - 1, e);
    }
  }

  lemma {:induction false} InstanceKept(m: MapSpec, k: nat, n: nat)
    requires k < n
    ensures InstanceEdges(m, k) <= EdgesUpTo(m, n) && Instance(m, k) <= StepsUpTo(m, n)
  {
    if k < n - 1 {
      InstanceKept(m, k, n - 1);
    }
  }

  lemma {:induction false} StepsUpToAre(m: MapSpec, n: nat, id: string)
    requires id in StepsUpTo(m, n)
    ensures id == m.Gather() || exists k: nat :: k < n && id in Instance(m, k)
  {
    if n > 0 && id in StepsUpTo(m, n - 1) {
      StepsUpToAre(m, n - 1, id);
    }
  }

  lemma {:induction false} GatherKept(m: MapSpec, n: nat)
    ensures m.Gather() in StepsUpTo(m, n)
  {
    if n > 0 {
      GatherKept(m, n - 1);
    }
  }

  /** Instance ids of one instance, of another, and the gather never coincide. */
  lemma InstancesApart(m: MapSpec, j: nat, k: nat, id: string)
    requires m.Valid() && id in Instance(m, k)
    ensures id != m.Gather() && '#' in id && (j != k ==> id !in Instance(m, j))
  {
    var v :| v in m.steps && id == InstanceId(v, k);
    MintedFresh(v, k, m.mapStep);
    if id in Instance(m, j) {
      var u :| u in m.steps && id == InstanceId(u, j);
      InstanceIdInjective(v, k, u, j);
    }
  }

  /** What an edge of one instance looks like: inside the instance, out of the map step, or into the gather. */
  lemma InstanceEdgeShape(m: MapSpec, k: nat, e: (string, string))
    requires m.Valid() && k < m.n && e in InstanceEdges(m, k)
    ensures e.0 in Instance(m, k) || e.0 == m.mapStep
    ensures e.1 in Instance(m, k) || e.1 == m.Gather()
    ensures e.0 == m.mapStep ==> e.1 in Instance(m, k)
  {
  }

  // ---------- reach inside one instance ----------

  lemma {:induction false} ReachedFromEntry(m: MapSpec, v: string) returns (en: string)
    requires m.Valid() && v in m.steps
    ensures m.IsEntry(en) && ReachesOrIs(m.edges, en, v)
    decreases Depth(m.edges, v)
  {
    if m.IsEntry(v) {
      en := v;
    } else {
      var e :| e in m.edges && e.1 == v;
      DepthGrows(m.edges, e.0, v);
      en := ReachedFromEntry(m, e.0);
      EdgeReaches(m.edges, e.0, v);
      ReachesOrIsTrans(m.edges, en, e.0, v);
    }
  }

  lemma ReversedAcyclic(edges: set<(string, string)>)
    requires Acyclic(edges)
    ensures Acyclic(Reversed(edges))
  {
    forall v: string ensures !Reaches(Reversed(edges), v, v) {
      ReversedReachIff(edges, v, v);
    }
  }

  lemma {:induction false} ReachesSink(m: MapSpec, v: string)
    requires m.Valid() && v in m.steps
    ensures ReachesOrIs(m.edges, v, m.sink)
    decreases Depth(Reversed(m.edges), v)
  {
    if v != m.sink {
      var e :| e in m.edges && e.0 == v;
      ReversedAcyclic(m.edges);
      assert (e.1, e.0) in Reversed(m.edges);
      DepthGrows(Reversed(m.edges), e.1, v);
      ReachesSink(m, e.1);
      EdgeReaches(m.edges, v, e.1);
      ReachesOrIsTrans(m.edges, v, e.1, m.sink);
    }
  }

  /** A template path, such as from a referenced step, is a path in every instance. */
  lemma InstanceReach(m: MapSpec, k: nat, x: string, y: string)
    requires k < m.n && ReachesOrIs(m.edges, x, y)
    ensures ReachesOrIs(Delta(m), InstanceId(x, k), InstanceId(y, k))
    ensures Reaches(m.edges, x, y) ==> Reaches(Delta(m), InstanceId(x, k), InstanceId(y, k))
  {
    InstanceKept(m, k, m.n);
    if Reaches(m.edges, x, y) {
      MappedReach(m.edges, Delta(m), v => InstanceId(v, k), x, y);
    }
  }

  /** The map step leads to every step of every instance. */
  lemma MapReachesInstances(m: MapSpec, k: nat, v: string)
    requires m.Valid() && k < m.n && v in m.steps
    ensures Reaches(Delta(m), m.mapStep, InstanceId(v, k))
  {
    var en := ReachedFromEntry(m, v);
    InstanceKept(m, k, m.n);
    assert (m.mapStep, InstanceId(en, k)) in InstanceEdges(m, k);
    EdgeReaches(Delta(m), m.mapStep, InstanceId(en, k));
    InstanceReach(m, k, en, v);
    ReachesOrIsTrans(Delta(m), m.mapStep, InstanceId(en, k), InstanceId(v, k));
  }

  /** Every step of every instance leads to the gather, which therefore waits for all of them. */
  lemma InstancesReachGather(m: MapSpec, k: nat, v: string)
    requires m.Valid() && k < m.n && v in m.steps
    ensures Reaches(Delta(m), InstanceId(v, k), m.Gather())
  {
    ReachesSink(m, v);
    InstanceReach(m, k, v, m.sink);
    InstanceKept(m, k, m.n);
    EdgeReaches(Delta(m), InstanceId(m.sink, k), m.Gather());
    ReachesOrIsTrans(Delta(m), InstanceId(v, k), InstanceId(m.sink, k), m.Gather());
  }

  // ---------- the merged graph ----------

  /** The run graph holds the map step and none of the ids to be minted. */
  ghost predicate FreshFor(m: MapSpec, base: set<(string, string)>, vertices: set<string>) {
    Within(base, vertices) && m.mapStep in vertices && vertices !! Added(m)
  }

  lemma FanoutSplices(m: MapSpec, base: set<(string, string)>, vertices: set<string>)
    requires m.Valid() && FreshFor(m, base, vertices)
    ensures IsSplice(base, vertices, Delta(m), Added(m))
    ensures forall e | e in Delta(m) :: e.1 in Added(m) && (e.0 in vertices ==> e.0 == m.mapStep)
  {
    GatherKept(m, m.n);
    forall e | e in Delta(m) ensures e.1 in Added(m) && (e.0 in Added(m) || e.0 == m.mapStep) {
      EdgesUpToAre(m, m.n, e);
      var k: nat :| k < m.n && e in InstanceEdges(m, k);
      InstanceEdgeShape(m, k, e);
      InstanceKept(m, k, m.n);
    }
  }

  /** The injected part is acyclic: instances inherit the template's order and the gather comes last. */
  lemma FanoutAcyclic(m: MapSpec)
    requires m.Valid()
    ensures Acyclic(Inside(Delta(m), Added(m)))
  {
    var rank := AcyclicHasRank(m.edges);
    var inner := Inside(Delta(m), Added(m));
    var layer: string -> int := (id: string) => if id == m.Gather() then 2 else if id == m.mapStep then 0 else 1;
    var within: string -> int := (id: string) => rank(AuthoredId(id));
    forall e | e in inner ensures Increases(layer, within, e.0, e.1) {
      EdgesUpToAre(m, m.n, e);
      var k: nat :| k < m.n && e in InstanceEdges(m, k);
      InstanceEdgeRanks(m, k, e, rank);
    }
    RankedAcyclic(inner, layer, within);
  }

  lemma InstanceEdgeRanks(m: MapSpec, k: nat, e: (string, string), rank: string -> int)
    requires m.Valid() && k < m.n && e in InstanceEdges(m, k) && (forall o | o in m.edges :: rank(o.0) < rank(o.1))
    ensures e.0 != m.Gather()
    ensures e.1 == m.Gather() ==> e.0 != m.Gather()
    ensures e.1 != m.Gather() && e.0 != m.mapStep ==> e.1 != m.mapStep && rank(AuthoredId(e.0)) < rank(AuthoredId(e.1))
    ensures e.0 == m.mapStep ==> e.1 != m.Gather() && e.1 != m.mapStep
  {
    InstanceEdgeShape(m, k, e);
    assert |m.Gather()| > |m.mapStep|;
    if e.0 in Instance(m, k) {
      InstancesApart(m, k, k, e.0);
    }
    if e.1 in Instance(m, k) {
      InstancesApart(m, k, k, e.1);
    }
    if e.1 in Instance(m, k) && e.0 in Instance(m, k) {
      var o :| o in m.edges && e == (InstanceId(o.0, k), InstanceId(o.1, k));
      MintedSplits(o.0, Decimal(k));
      MintedSplits(o.1, Decimal(k));
    }
  }

  /** Splicing a fan-out into any acyclic run graph keeps it acyclic. */
  lemma FanoutKeepsAcyclic(m: MapSpec, base: set<(string, string)>, vertices: set<string>)
    requires m.Valid() && FreshFor(m, base, vertices) && Acyclic(base)
    ensures Acyclic(base + Delta(m))
  {
    FanoutSplices(m, base, vertices);
    FanoutAcyclic(m);
    SeparatedSpliceAcyclic(base, vertices, Delta(m), Added(m));
  }

  /** Instances are independent: in the merged graph no path leads from one instance into another. */
  lemma InstancesIndependent(m: MapSpec, base: set<(string, string)>, vertices: set<string>, j: nat, k: nat, u: string,
                             v: string)
    requires m.Valid() && FreshFor(m, base, vertices)
    requires j < m.n && k < m.n && j != k && u in m.steps && v in m.steps
    ensures !Reaches(base + Delta(m), InstanceId(u, j), InstanceId(v, k))
  {
    var all, closed := base + Delta(m), Instance(m, j) + {m.Gather()};
    InstancesApart(m, j, k, InstanceId(v, k));
    assert InstanceId(u, j) in Instance(m, j);
    forall e | e in all && e.0 in closed ensures e.1 in closed {
      InstanceIsClosed(m, base, vertices, j, e);
    }
    if Reaches(all, InstanceId(u, j), InstanceId(v, k)) {
      ClosedUnderReach(all, closed, InstanceId(u, j), InstanceId(v, k));
    }
  }

  lemma InstanceIsClosed(m: MapSpec, base: set<(string, string)>, vertices: set<string>, j: nat, e: (string, string))
    requires m.Valid() && FreshFor(m, base, vertices) && j < m.n && e in base + Delta(m)
    requires e.0 in Instance(m, j) || e.0 == m.Gather()
    ensures e.1 in Instance(m, j) || e.1 == m.Gather()
  {
    InstanceKept(m, j, m.n);
    GatherKept(m, m.n);
    if e !in base {
      EdgesUpToAre(m, m.n, e);
      var k: nat :| k < m.n && e in InstanceEdges(m, k);
      InstanceEdgeShape(m, k, e);
      assert |m.Gather()| > |m.mapStep|;
      if e.0 in Instance(m, k) {
        InstancesApart(m, j, k, e.0);
      } else if e.0 in Instance(m, j) {
        InstancesApart(m, j, j, e.0);
      }
    }
  }
}
