/** Loop unrolling on the graph level (internal/dag/loopexpand.go): the body a loop edge spans,
    the delta each iteration splices in, and what every number of iterations preserves. */
module Unrolling {
  import opened Walks
  import opened Texts
  import opened StepIds

  /** An authored acyclic graph with a loop edge from source back to target, whose body only the source leaves. */
  datatype LoopSpec = LoopSpec(steps: set<string>, edges: set<(string, string)>, source: string, target: string)
  {
    /** The members of the loop body: the endpoints, and what the target reaches on the way to the source. */
    ghost function Body(): set<string> {
      {source, target} + set v | v in steps && Reaches(edges, target, v) && Reaches(edges, v, source)
    }

    ghost predicate Valid() {
      && Within(edges, steps) && Acyclic(edges)
      && source in steps && target in steps && Reaches(edges, target, source)
      && (forall v | v in steps :: '#' !in v)
    }

    ghost predicate OnlySourceExits() {
      forall e | e in edges && e.0 in Body() && e.0 != source :: e.1 in Body()
    }
  }

  /** The body is exactly the set of steps on the walks from the target to the source. */
  lemma BodyIsSpan(l: LoopSpec, v: string)
    requires l.Valid()
    ensures v in l.Body() <==> ReachesOrIs(l.edges, l.target, v) && ReachesOrIs(l.edges, v, l.source)
  {
    if v != l.source && v != l.target && Reaches(l.edges, l.target, v) {
      ReachesEndpoints(l.edges, l.steps, l.target, v);
    }
  }

  /** A walk between two body members never leaves the body. */
  lemma BodyIsConvex(l: LoopSpec, u: string, v: string, w: string)
    requires l.Valid() && u in l.Body() && w in l.Body()
    requires ReachesOrIs(l.edges, u, v) && ReachesOrIs(l.edges, v, w)
    ensures v in l.Body()
  {
    BodyIsSpan(l, u);
    BodyIsSpan(l, v);
    BodyIsSpan(l, w);
    if u != v && l.target != u {
      ReachesTrans(l.edges, l.target, u, v);
    }
    if v != w && w != l.source {
      ReachesTrans(l.edges, v, w, l.source);
    }
  }

  /** The target is the one body member without a parent in the body. */
  lemma EntryIsTarget(l: LoopSpec, v: string)
    requires l.Valid() && v in l.Body()
    ensures (forall u | u in l.Body() :: (u, v) !in l.edges) <==> v == l.target
  {
    if v == l.target {
      forall u | u in l.Body() ensures (u, v) !in l.edges {
        if (u, v) in l.edges {
          BodyIsSpan(l, u);
          EdgeReaches(l.edges, u, v);
          ReachesOrIsTrans(l.edges, v, u, v);
        }
      }
    } else {
      BodyIsSpan(l, v);
      var u := LastEdge(l.edges, l.target, v);
      EdgeReaches(l.edges, u, v);
      BodyIsSpan(l, l.target);
      BodyIsConvex(l, l.target, u, v);
    }
  }

  // ---------- the delta of one iteration ----------

  /** The loop-source instance that completes iteration k. */
  function SourceAt(l: LoopSpec, k: nat): string {
    if k == 0 then l.source else InstanceId(l.source, k)
  }

  ghost function Clones(l: LoopSpec, k: nat): set<string> {
    set v | v in l.Body() :: InstanceId(v, k)
  }

  /** Body edges cloned, the previous source leading into the target's clone, and the source's exits re-hung. */
  ghost function DeltaAt(l: LoopSpec, k: nat): set<(string, string)>
    requires k >= 1
  {
    (set e | e in l.edges && e.0 in l.Body() && e.1 in l.Body() :: (InstanceId(e.0, k), InstanceId(e.1, k)))
    + {(SourceAt(l, k - 1), InstanceId(l.target, k))}
    + (set e | e in l.edges && e.0 == l.source && e.1 !in l.Body() :: (InstanceId(l.source, k), e.1))
  }

  ghost function StepsAt(l: LoopSpec, n: nat): set<string> {
    if n == 0 then l.steps else StepsAt(l, n - 1) + Clones(l, n)
  }

  /** The run graph after n iterations. */
  ghost function EdgesAt(l: LoopSpec, n: nat): set<(string, string)> {
    if n == 0 then l.edges else EdgesAt(l, n - 1) + DeltaAt(l, n)
  }

  lemma UnrolledGrows(l: LoopSpec, n: nat)
    ensures EdgesAt(l, n + 1) == EdgesAt(l, n) + DeltaAt(l, n + 1)
            && StepsAt(l, n + 1) == StepsAt(l, n) + Clones(l, n + 1)
  {
  }

  /** Every step of the unrolled graph is an authored step or the clone of a body member in one iteration. */
  lemma {:induction false} StepsAtAre(l: LoopSpec, n: nat, id: string)
    requires l.Valid() && id in StepsAt(l, n)
    ensures id in l.steps || exists v, k: nat :: v in l.Body() && 1 <= k <= n && id == InstanceId(v, k)
  {
    if n > 0 && id !in StepsAt(l, n - 1) {
      var v :| v in l.Body() && id == InstanceId(v, n);
    } else if n > 0 {
      StepsAtAre(l, n - 1, id);
    }
  }

  lemma BodyAuthored(l: LoopSpec, v: string)
    requires l.Valid() && v in l.Body()
    ensures v in l.steps && '#' !in v
  {
  }

  /** The clones of the next iteration are new to the run. */
  lemma ClonesFresh(l: LoopSpec, n: nat)
    requires l.Valid()
    ensures StepsAt(l, n) !! Clones(l, n + 1)
  {
    forall id | id in Clones(l, n + 1) ensures id !in StepsAt(l, n) {
      var v :| v in l.Body() && id == InstanceId(v, n + 1);
      BodyAuthored(l, v);
      MintedFresh(v, n + 1, v);
      if id in StepsAt(l, n) {
        StepsAtAre(l, n, id);
        var u, k: nat :| u in l.Body() && 1 <= k <= n && id == InstanceId(u, k);
        BodyAuthored(l, u);
        InstanceIdInjective(v, n + 1, u, k);
      }
    }
  }

  lemma {:induction false} AuthoredKept(l: LoopSpec, n: nat)
    ensures l.steps <= StepsAt(l, n) && l.edges <= EdgesAt(l, n)
  {
    if n > 0 {
      AuthoredKept(l, n - 1);
    }
  }

  lemma SourceAtKnown(l: LoopSpec, n: nat)
    requires l.Valid()
    ensures SourceAt(l, n) in StepsAt(l, n)
  {
    if n > 0 {
      assert l.source in l.Body();
    }
  }

  lemma DeltaSplices(l: LoopSpec, n: nat)
    requires l.Valid() && Within(EdgesAt(l, n), StepsAt(l, n))
    ensures IsSplice(EdgesAt(l, n), StepsAt(l, n), DeltaAt(l, n + 1), Clones(l, n + 1))
  {
    ClonesFresh(l, n);
    SourceAtKnown(l, n);
    AuthoredKept(l, n);
    assert l.source in l.Body() && l.target in l.Body();
    forall e | e in DeltaAt(l, n + 1)
      ensures e.0 in StepsAt(l, n) + Clones(l, n + 1) && e.1 in StepsAt(l, n) + Clones(l, n + 1)
      ensures e.0 in Clones(l, n + 1) || e.1 in Clones(l, n + 1)
    {
    }
  }

  lemma {:induction false} UnrolledWithin(l: LoopSpec, n: nat)
    requires l.Valid()
    ensures Within(EdgesAt(l, n), StepsAt(l, n))
  {
    if n > 0 {
      UnrolledWithin(l, n - 1);
      DeltaSplices(l, n - 1);
    }
  }

  /** The only edges a delta draws from or to older steps: out of the completing source, into its exits. */
  lemma DeltaAnchors(l: LoopSpec, n: nat, e: (string, string))
    requires l.Valid() && e in DeltaAt(l, n + 1)
    ensures e.0 in StepsAt(l, n) ==> e.0 == SourceAt(l, n)
    ensures e.1 in StepsAt(l, n) ==> (l.source, e.1) in l.edges && e.1 !in l.Body()
  {
    ClonesFresh(l, n);
    assert l.source in l.Body() && l.target in l.Body();
  }

  /** Every source instance keeps its edge to each exit. */
  lemma ExitEdge(l: LoopSpec, n: nat, exit: string)
    requires (l.source, exit) in l.edges && exit !in l.Body()
    ensures (SourceAt(l, n), exit) in EdgesAt(l, n)
  {
  }

  lemma CloneAcyclic(l: LoopSpec, n: nat)
    requires l.Valid()
    ensures Acyclic(Inside(DeltaAt(l, n + 1), Clones(l, n + 1)))
  {
    var rank := AcyclicHasRank(l.edges);
    var inner := Inside(DeltaAt(l, n + 1), Clones(l, n + 1));
    var cloned: string -> int := (id: string) => rank(AuthoredId(id));
    var flat: string -> int := (id: string) => 0;
    forall e | e in inner ensures Increases(cloned, flat, e.0, e.1) {
      InnerEdge(l, n, e);
      var o :|
        && o in l.edges && o.0 in l.Body() && o.1 in l.Body()
        && e == (InstanceId(o.0, n + 1), InstanceId(o.1, n + 1));
      MintedSplits(o.0, Decimal(n + 1));
      MintedSplits(o.1, Decimal(n + 1));
    }
    RankedAcyclic(inner, cloned, flat);
  }

  /** An edge between two clones is a cloned body edge. */
  lemma InnerEdge(l: LoopSpec, n: nat, e: (string, string))
    requires l.Valid() && e in Inside(DeltaAt(l, n + 1), Clones(l, n + 1))
    ensures exists o ::
              && o in l.edges && o.0 in l.Body() && o.1 in l.Body()
              && e == (InstanceId(o.0, n + 1), InstanceId(o.1, n + 1))
  {
    ClonesFresh(l, n);
    SourceAtKnown(l, n);
    AuthoredKept(l, n);
  }

  /** However often the loop iterates, the run graph stays acyclic: an exit leading back to the completing
      source would already have been a cycle one iteration earlier. */
  lemma {:induction false} UnrollingStaysAcyclic(l: LoopSpec, n: nat)
    requires l.Valid()
    ensures Acyclic(EdgesAt(l, n))
  {
    if n > 0 {
      UnrollingStaysAcyclic(l, n - 1);
      UnrolledWithin(l, n - 1);
      ClonesFresh(l, n - 1);
      IterationKeepsAcyclic(l, n - 1, EdgesAt(l, n - 1), StepsAt(l, n - 1));
    }
  }

  // ---------- in a run that grows otherwise as well ----------

  /** A run graph that holds the loop and its first n iterations, whatever else it holds. */
  ghost predicate HoldsIterations(l: LoopSpec, n: nat, base: set<(string, string)>, vertices: set<string>) {
    Within(base, vertices) && EdgesAt(l, n) <= base && StepsAt(l, n) <= vertices
  }

  lemma IterationSplices(l: LoopSpec, n: nat, base: set<(string, string)>, vertices: set<string>)
    requires l.Valid() && HoldsIterations(l, n, base, vertices) && vertices !! Clones(l, n + 1)
    ensures IsSplice(base, vertices, DeltaAt(l, n + 1), Clones(l, n + 1))
    ensures forall e | e in DeltaAt(l, n + 1) :: e.0 in vertices ==> e.0 in StepsAt(l, n)
    ensures forall e | e in DeltaAt(l, n + 1) :: e.1 in vertices ==> e.1 in StepsAt(l, n)
  {
    UnrolledWithin(l, n);
    DeltaSplices(l, n);
    hide EdgesAt, StepsAt, DeltaAt, Clones;
  }

  lemma AnchorsApartIn(l: LoopSpec, n: nat, base: set<(string, string)>, vertices: set<string>)
    requires l.Valid() && HoldsIterations(l, n, base, vertices) && vertices !! Clones(l, n + 1) && Acyclic(base)
    ensures AnchorsSeparated(base, vertices, DeltaAt(l, n + 1))
  {
    hide EdgesAt, StepsAt, DeltaAt, Clones;
    IterationSplices(l, n, base, vertices);
    forall enter, leave | enter in DeltaAt(l, n + 1) && enter.1 in vertices
                          && leave in DeltaAt(l, n + 1) && leave.0 in vertices
      ensures !ReachesOrIs(base, enter.1, leave.0)
    {
      DeltaAnchors(l, n, enter);
      DeltaAnchors(l, n, leave);
      ExitEdge(l, n, enter.1);
      EdgeReaches(base, SourceAt(l, n), enter.1);
      if ReachesOrIs(base, enter.1, leave.0) {
        ReachesOrIsTrans(base, leave.0, enter.1, leave.0);
      }
    }
  }

  /** Splicing the next iteration into any acyclic run graph that holds the earlier ones keeps it acyclic. */
  lemma IterationKeepsAcyclic(l: LoopSpec, n: nat, base: set<(string, string)>, vertices: set<string>)
    requires l.Valid() && HoldsIterations(l, n, base, vertices) && vertices !! Clones(l, n + 1) && Acyclic(base)
    ensures Acyclic(base + DeltaAt(l, n + 1))
  {
    IterationSplices(l, n, base, vertices);
    CloneAcyclic(l, n);
    AnchorsApartIn(l, n, base, vertices);
    SeparatedSpliceAcyclic(base, vertices, DeltaAt(l, n + 1), Clones(l, n + 1));
  }

  // ---------- references stay upstream ----------

  lemma WalkInBody(l: LoopSpec, x: string, y: string)
    requires l.Valid() && x in l.Body() && y in l.Body() && Reaches(l.edges, x, y)
    ensures Reaches(Inside(l.edges, l.Body()), x, y)
  {
    var p: seq<string> :| |p| >= 2 && WalkBetween(l.edges, p, x, y);
    forall i | 0 <= i < |p| ensures p[i] in l.Body() {
      if 0 < i < |p| - 1 {
        WalkReaches(l.edges, p, 0, i);
        WalkReaches(l.edges, p, i, |p| - 1);
        BodyIsConvex(l, x, p[i], y);
      }
    }
    assert WalkBetween(Inside(l.edges, l.Body()), p, x, y);
  }

  lemma CloneReach(l: LoopSpec, k: nat, x: string, y: string)
    requires l.Valid() && k >= 1 && x in l.Body() && y in l.Body() && Reaches(l.edges, x, y)
    ensures Reaches(DeltaAt(l, k), InstanceId(x, k), InstanceId(y, k))
  {
    WalkInBody(l, x, y);
    MappedReach(Inside(l.edges, l.Body()), DeltaAt(l, k), v => InstanceId(v, k), x, y);
  }

  lemma {:induction false} DeltaKept(l: LoopSpec, k: nat, n: nat)
    requires 1 <= k <= n
    ensures DeltaAt(l, k) <= EdgesAt(l, n)
  {
    if k < n {
      DeltaKept(l, k, n - 1);
    }
  }

  lemma CloneReachKept(l: LoopSpec, k: nat, n: nat, x: string, y: string)
    requires l.Valid() && 1 <= k <= n && x in l.Body() && y in l.Body() && ReachesOrIs(l.edges, x, y)
    ensures ReachesOrIs(EdgesAt(l, n), InstanceId(x, k), InstanceId(y, k))
    ensures x != y ==> Reaches(EdgesAt(l, n), InstanceId(x, k), InstanceId(y, k))
  {
    if x != y {
      CloneReach(l, k, x, y);
      DeltaKept(l, k, n);
      ReachesMono(DeltaAt(l, k), EdgesAt(l, n), InstanceId(x, k), InstanceId(y, k));
    }
  }

  /** The iterations are chained: the authored source leads to the entry of every later iteration. */
  lemma {:induction false} SourceLeadsOn(l: LoopSpec, k: nat, n: nat)
    requires l.Valid() && 1 <= k <= n
    ensures Reaches(EdgesAt(l, n), l.source, InstanceId(l.target, k))
  {
    var entry := InstanceId(l.target, k);
    DeltaKept(l, k, n);
    EdgeReaches(EdgesAt(l, n), SourceAt(l, k - 1), entry);
    if k > 1 {
      SourceLeadsOn(l, k - 1, n);
      CloneReachKept(l, k - 1, n, l.target, l.source);
      ReachesOrIsTrans(EdgesAt(l, n), l.source, InstanceId(l.target, k - 1), SourceAt(l, k - 1));
      ReachesTrans(EdgesAt(l, n), l.source, SourceAt(l, k - 1), entry);
    }
  }

  /** Where the reference of a body step lands in iteration k. */
  ghost function RefAt(l: LoopSpec, k: nat, x: string): string {
    if x in l.Body() then InstanceId(x, k) else x
  }

  /** An authored upstream reference is still upstream after rewriting, in every iteration of every unrolling. */
  lemma RefStaysUpstream(l: LoopSpec, k: nat, n: nat, x: string, y: string)
    requires l.Valid() && 1 <= k <= n && y in l.Body() && Reaches(l.edges, x, y)
    ensures Reaches(EdgesAt(l, n), RefAt(l, k, x), InstanceId(y, k))
  {
    var all := EdgesAt(l, n);
    if x in l.Body() {
      CloneReachKept(l, k, n, x, y);
    } else {
      BodyIsSpan(l, y);
      ReachesOrIsTrans(l.edges, x, y, l.source);
      AuthoredKept(l, n);
      ReachesMono(l.edges, all, x, l.source);
      SourceLeadsOn(l, k, n);
      ReachesTrans(all, x, l.source, InstanceId(l.target, k));
      CloneReachKept(l, k, n, l.target, y);
      ReachesOrIsTrans(all, x, InstanceId(l.target, k), InstanceId(y, k));
    }
  }
}
