/** The unroller and the gate agree: the plan of every iteration passes the gate, whatever the
    iteration number, as long as the run caps allow it (internal/dag/loopexpand.go, internal/dag/expansion.go). */
module LoopGate {
  import opened Walks
  import opened Texts
  import opened Definitions
  import opened StepIds
  import opened Cycles
  import opened Expansions
  import opened Gate
  import opened Unrolling
  import opened Loops

  /** Every reference of an authored step is to a strict normal-edge ancestor, as definition validation demands. */
  ghost predicate RefsAuthored(def: Definition) {
    forall s | s in def.steps :: forall ref | ref in StepRefs(s) :: Reaches(Pairs(def.edges), ref, s.id)
  }

  /** A definition that passed validation, with a loop edge that did. */
  ghost predicate ValidLoop(def: Definition, loopEdge: Edge) {
    && WellFormed(def) && (forall id | id in Ids(def.steps) :: IsStepId(id))
    && SpecOf(def, loopEdge).Valid() && RefsAuthored(def)
  }

  /** An acyclic run graph, as the gate is told of it, that holds the loop and its first n iterations. Whatever else the
      run has grown - other loops, plans, fan-outs - is in it too. */
  ghost predicate RunAt(x: Input, def: Definition, loopEdge: Edge, n: nat) {
    && x.kind == FromLoop && SoundRun(x) && Acyclic(Old(x))
    && HoldsIterations(SpecOf(def, loopEdge), n, Old(x), x.existing.Keys)
  }

  /** The ids of iteration k are new to the run. */
  ghost predicate IterationFresh(x: Input, def: Definition, loopEdge: Edge, k: nat) {
    x.existing.Keys !! Clones(SpecOf(def, loopEdge), k)
  }

  /** The completing source is not terminal yet, and its exits are still pending. */
  ghost predicate AnchorsOpen(x: Input, def: Definition, loopEdge: Edge, n: nat) {
    var l := SpecOf(def, loopEdge);
    && (SourceAt(l, n) in x.existing ==> x.existing[SourceAt(l, n)].status != AnchorTerminal)
    && forall w | (l.source, w) in l.edges && w !in l.Body() && w in x.existing :: x.existing[w].status == AnchorPending
  }

  /** The input for splicing iteration k into a run graph that holds the k-1 iterations before it. */
  ghost predicate SplicesIteration(x: Input, def: Definition, loopEdge: Edge, entries: seq<string>, k: nat) {
    && k >= 1 && Unrolls(x, def, loopEdge, entries, k) && RunAt(x, def, loopEdge, k - 1)
    && IterationFresh(x, def, loopEdge, k) && AnchorsOpen(x, def, loopEdge, k - 1) && WithinCaps(x)
  }

  /** The plan is what the unroller generates for iteration k after the instance of the loop source before it. */
  ghost predicate Unrolls(x: Input, def: Definition, loopEdge: Edge, entries: seq<string>, k: nat)
    requires k >= 1
  {
    var l := SpecOf(def, loopEdge);
    && IsEntryList(def, l.Body(), entries)
    && IsLoopPlan(def, loopEdge, entries, SourceAt(l, k - 1), k, x.plan)
  }

  /** A loop edge the gate lets into a graph without cycles and minted ids can be unrolled: its body is the span from
      its target to its source, its one entry is the target, and any number of iterations keeps the graph acyclic. */
  lemma AcceptedLoopUnrolls(x: Input, def: Definition, findings: seq<Finding>, e: Edge)
    requires IsMerged(x, def) && WellFormed(def) && MergedFits(x, def, findings) && e in x.plan.edges && e.typ == Loop
    requires Acyclic(Pairs(def.edges)) && forall id | id in Ids(def.steps) :: '#' !in id
    ensures var l := SpecOf(def, e);
            && l.Valid()
            && (forall v :: v in l.Body() <==> ReachesOrIs(l.edges, e.to, v) && ReachesOrIs(l.edges, v, e.from))
            && (forall entries | IsEntryList(def, l.Body(), entries) :: entries == [e.to])
            && (forall n: nat :: Acyclic(EdgesAt(l, n)))
  {
    hide LoopSpec.Body, IsEntryList, EdgesAt;
    var l := SpecOf(def, e);
    LoopsLeadBack(x, def);
    assert e in def.edges;
    PairsWithin(def.edges, Ids(def.steps));
    forall v ensures v in l.Body() <==> ReachesOrIs(l.edges, l.target, v) && ReachesOrIs(l.edges, v, l.source) {
      BodyIsSpan(l, v);
    }
    forall entries | IsEntryList(def, l.Body(), entries) ensures entries == [e.to] {
      OneEntry(def, e, entries);
    }
    forall n: nat ensures Acyclic(EdgesAt(l, n)) {
      UnrollingStaysAcyclic(l, n);
    }
  }

  lemma OneEntry(def: Definition, e: Edge, entries: seq<string>)
    requires SpecOf(def, e).Valid() && IsEntryList(def, SpecOf(def, e).Body(), entries)
    ensures entries == [e.to]
  {
    EntriesAreTarget(def, e, entries);
  }

  lemma CloneAllowed(x: Input, l: LoopSpec, k: nat, id: string)
    requires l.Valid() && (forall v | v in l.steps :: IsStepId(v)) && k >= 1 && id in Clones(l, k)
    requires x.kind == FromLoop && x.plan.schemaVersion == PLAN_SCHEMA_VERSION
    ensures IdAllowed(x, id)
  {
    hide IsStepId, IsInstanceId;
    var v :| v in l.Body() && id == InstanceId(v, k);
    BodyAuthored(l, v);
    InstanceIdValid(v, k);
  }

  lemma IterationIdsFit(x: Input, def: Definition, loopEdge: Edge, entries: seq<string>, k: nat)
    requires ValidLoop(def, loopEdge) && SplicesIteration(x, def, loopEdge, entries, k)
    ensures IdsFit(x) && x.plan.steps != [] && Added(x) == Clones(SpecOf(def, loopEdge), k)
  {
    var l := SpecOf(def, loopEdge);
    PlanStepsAreClones(def, loopEdge, k, x.plan.steps);
    assert l.source in l.Body();
    assert InstanceId(l.source, k) in Clones(l, k);
    forall i | 0 <= i < |x.plan.steps| ensures IdAllowed(x, x.plan.steps[i].id) && x.plan.steps[i].id !in x.existing {
      CloneAllowed(x, l, k, x.plan.steps[i].id);
    }
  }

  lemma DeltaEdgeFits(x: Input, def: Definition, loopEdge: Edge, k: nat, e: Edge)
    requires SpecOf(def, loopEdge).Valid() && k >= 1 && (e.from, e.to) in DeltaAt(SpecOf(def, loopEdge), k)
    requires RunAt(x, def, loopEdge, k - 1) && IterationFresh(x, def, loopEdge, k)
             && AnchorsOpen(x, def, loopEdge, k - 1)
    requires Added(x) == Clones(SpecOf(def, loopEdge), k)
    ensures EdgeFits(x, Added(x), e)
  {
    hide EdgesAt, StepsAt, DeltaAt, Clones, LoopSpec.Body, LoopSpec.Valid;
    var l := SpecOf(def, loopEdge);
    IterationSplices(l, k - 1, Old(x), x.existing.Keys);
    DeltaAnchors(l, k - 1, (e.from, e.to));
  }

  lemma IterationEdgesFit(x: Input, def: Definition, loopEdge: Edge, entries: seq<string>, k: nat)
    requires ValidLoop(def, loopEdge) && SplicesIteration(x, def, loopEdge, entries, k)
    ensures EdgesFit(x) && Delta(x) == DeltaAt(SpecOf(def, loopEdge), k)
    ensures forall i | 0 <= i < |x.plan.edges| :: !x.plan.edges[i].IsLoop()
  {
    var l := SpecOf(def, loopEdge);
    PlanIsDelta(def, loopEdge, entries, k, x.plan);
    IterationIdsFit(x, def, loopEdge, entries, k);
    forall i | 0 <= i < |x.plan.edges|
      ensures !x.plan.edges[i].IsLoop() && EdgeFits(x, Ids(x.plan.steps), x.plan.edges[i])
    {
      assert x.plan.edges[i] in x.plan.edges;
      DeltaEdgeFits(x, def, loopEdge, k, x.plan.edges[i]);
    }
  }

  lemma IterationMerges(x: Input, def: Definition, loopEdge: Edge, entries: seq<string>, k: nat, merged: Definition)
    requires ValidLoop(def, loopEdge) && SplicesIteration(x, def, loopEdge, entries, k) && IsMerged(x, merged)
    ensures IdsFit(x) && EdgesFit(x) && WellFormed(merged)
    ensures EdgesAt(SpecOf(def, loopEdge), k) <= Pairs(merged.edges) && Acyclic(Pairs(merged.edges))
  {
    hide EdgesAt, StepsAt, DeltaAt, Clones, LoopSpec.Valid, LoopSpec.Body, IdsFit, EdgesFit, IsMerged, WellFormed,
      Pairs, Unrolls;
    IterationIdsFit(x, def, loopEdge, entries, k);
    IterationEdgesFit(x, def, loopEdge, entries, k);
    FittingPlanSplices(x, merged);
    UnrolledGrows(SpecOf(def, loopEdge), k - 1);
    IterationKeepsAcyclic(SpecOf(def, loopEdge), k - 1, Old(x), x.existing.Keys);
  }

  lemma BodyNamed(l: LoopSpec)
    requires l.Valid() && forall v | v in l.steps :: IsStepId(v)
    ensures "" !in l.Body()
  {
    forall v | v in l.Body() ensures v != "" {
      BodyAuthored(l, v);
    }
  }

  lemma IterationRefResolves(x: Input, def: Definition, loopEdge: Edge, k: nat, merged: Definition, s: Step,
                             ref: string)
    requires ValidLoop(def, loopEdge) && k >= 1 && WellFormed(merged)
    requires EdgesAt(SpecOf(def, loopEdge), k) <= Pairs(merged.edges) && Acyclic(Pairs(merged.edges))
    requires s in def.steps && s.id in SpecOf(def, loopEdge).Body()
    requires ref in StepRefs(CloneStep(s, SpecOf(def, loopEdge).Body(), k))
    ensures RefResolves(x, merged, CloneStep(s, SpecOf(def, loopEdge).Body(), k), ref)
  {
    hide StepRefs, InstanceId, EdgesAt;
    var l := SpecOf(def, loopEdge);
    BodyNamed(l);
    CloneRefs(s, l.Body(), k);
    var refs := StepRefs(s);
    var i :| 0 <= i < |refs| && ref == Repoint(l.Body(), k, refs)[i];
    assert refs[i] in refs;
    RefStaysUpstream(l, k, k, refs[i], s.id);
    ReachesMono(EdgesAt(l, k), Pairs(merged.edges), ref, InstanceId(s.id, k));
    PairsWithin(merged.edges, Ids(merged.steps));
    ReachesEndpoints(Pairs(merged.edges), Ids(merged.steps), ref, InstanceId(s.id, k));
  }

  lemma IterationRefsResolve(x: Input, def: Definition, loopEdge: Edge, entries: seq<string>, k: nat,
                             merged: Definition)
    requires ValidLoop(def, loopEdge) && SplicesIteration(x, def, loopEdge, entries, k) && IsMerged(x, merged)
    ensures RefsResolve(x, merged)
  {
    var l := SpecOf(def, loopEdge);
    IterationMerges(x, def, loopEdge, entries, k, merged);
    var members: seq<string> :| StrictlySorted(members) && ClonesMembers(def, l.Body(), k, members, x.plan.steps);
    forall i, ref | 0 <= i < |x.plan.steps| && ref in StepRefs(x.plan.steps[i])
      ensures RefResolves(x, merged, x.plan.steps[i], ref)
    {
      assert IsCloneOf(def, l.Body(), k, members[i], x.plan.steps[i]);
      var s :| IsStepOf(def, s, members[i]) && x.plan.steps[i] == CloneStep(s, l.Body(), k);
      assert members[i] in members;
      IterationRefResolves(x, def, loopEdge, k, merged, s, ref);
    }
  }

  lemma IterationFits(x: Input, def: Definition, loopEdge: Edge, entries: seq<string>, k: nat)
    requires ValidLoop(def, loopEdge) && SplicesIteration(x, def, loopEdge, entries, k)
    ensures Fits(x)
  {
    IterationIdsFit(x, def, loopEdge, entries, k);
    IterationEdgesFit(x, def, loopEdge, entries, k);
  }

  /** Every iteration's plan is accepted: fresh legal ids, legal anchors, no cycle, references that resolve. */
  lemma IterationAccepted(x: Input, def: Definition, loopEdge: Edge, entries: seq<string>, k: nat,
                          merged: Definition, findings: seq<Finding>)
    requires ValidLoop(def, loopEdge) && SplicesIteration(x, def, loopEdge, entries, k)
    requires IsMerged(x, merged) && IsSearchResult(merged, findings)
    ensures Fits(x) && MergedFits(x, merged, findings)
  {
    IterationFits(x, def, loopEdge, entries, k);
    IterationMerges(x, def, loopEdge, entries, k, merged);
    assert NoneBlamed(x, merged, findings);
    assert LoopsAnchored(x, merged) by {
      IterationEdgesFit(x, def, loopEdge, entries, k);
    }
    IterationRefsResolve(x, def, loopEdge, entries, k, merged);
  }

  lemma LoopEndsKnown(def: Definition, loopEdge: Edge)
    requires ValidLoop(def, loopEdge)
    ensures WellFormed(def) && loopEdge.from in Ids(def.steps) && loopEdge.to in Ids(def.steps)
  {
  }

  lemma EscapeIsExit(l: LoopSpec, u: string, w: string)
    requires Escapes(l, u, w)
    ensures !l.OnlySourceExits()
  {
  }

  /** What the gate computes for an iteration's plan comes out clean. */
  lemma IterationClears(x: Input, def: Definition, loopEdge: Edge, entries: seq<string>, k: nat, merged: Definition,
                        findings: seq<Finding>)
    requires ValidLoop(def, loopEdge) && SplicesIteration(x, def, loopEdge, entries, k)
    requires IdsFit(x) && EdgesFit(x) ==>
               IsMerged(x, merged) && (WellFormed(merged) ==> IsSearchResult(merged, findings))
    ensures Fits(x) && MergedFits(x, merged, findings)
  {
    hide Fits, MergedFits, IsMerged, IsSearchResult, IdsFit, EdgesFit, ValidLoop, SplicesIteration;
    IterationIdsFit(x, def, loopEdge, entries, k);
    IterationEdgesFit(x, def, loopEdge, entries, k);
    IterationMerges(x, def, loopEdge, entries, k, merged);
    IterationAccepted(x, def, loopEdge, entries, k, merged, findings);
  }

  lemma UnrolledPlan(x: Input, def: Definition, loopEdge: Edge, entries: seq<string>, k: nat)
    requires ValidLoop(def, loopEdge) && k >= 1 && Unrolls(x, def, loopEdge, entries, k)
    ensures SpecOf(def, loopEdge).Valid()
    ensures Delta(x) == DeltaAt(SpecOf(def, loopEdge), k) && Added(x) == Clones(SpecOf(def, loopEdge), k)
  {
    PlanStepsAreClones(def, loopEdge, k, x.plan.steps);
    PlanIsDelta(def, loopEdge, entries, k, x.plan);
  }

  /** The plan splices after the completing source and into each of its exits, so the gate looks at both. */
  lemma AnchorEdges(x: Input, def: Definition, loopEdge: Edge, entries: seq<string>, k: nat)
    requires ValidLoop(def, loopEdge) && k >= 1 && Unrolls(x, def, loopEdge, entries, k)
    ensures var l := SpecOf(def, loopEdge);
            && Ids(x.plan.steps) == Clones(l, k)
            && (exists e :: e in x.plan.edges && e.from == SourceAt(l, k - 1) && e.to in Clones(l, k))
            && forall w | (l.source, w) in l.edges && w !in l.Body() :: exists e :: e in x.plan.edges && e.to == w
  {
    var l := SpecOf(def, loopEdge);
    PlanStepsAreClones(def, loopEdge, k, x.plan.steps);
    PlanIsDelta(def, loopEdge, entries, k, x.plan);
    assert l.target in l.Body();
    PairListed(x.plan.edges, SourceAt(l, k - 1), InstanceId(l.target, k));
    forall w | (l.source, w) in l.edges && w !in l.Body() ensures exists e :: e in x.plan.edges && e.to == w {
      PairListed(x.plan.edges, InstanceId(l.source, k), w);
    }
  }

  lemma PairListed(edges: seq<Edge>, from: string, to: string)
    requires (from, to) in Pairs(edges)
    ensures exists e :: e in edges && e.from == from && e.to == to
  {
    var i :| 0 <= i < |edges| && !edges[i].IsLoop() && (from, to) == (edges[i].from, edges[i].to);
    assert edges[i] in edges;
  }

  /** What the gate cannot do without. */
  lemma AcceptanceNeeds(x: Input, def: Definition, loopEdge: Edge, entries: seq<string>, k: nat)
    requires ValidLoop(def, loopEdge) && k >= 1 && Unrolls(x, def, loopEdge, entries, k)
             && RunAt(x, def, loopEdge, k - 1)
    requires Fits(x)
    ensures WithinCaps(x) && IterationFresh(x, def, loopEdge, k) && AnchorsOpen(x, def, loopEdge, k - 1)
  {
    hide LoopSpec.Body, LoopSpec.Valid, Clones, StepsAt, EdgesAt, ValidLoop, Unrolls, RunAt;
    var l := SpecOf(def, loopEdge);
    AnchorEdges(x, def, loopEdge, entries, k);
    forall id | id in Clones(l, k) ensures id !in x.existing {
      var i :| 0 <= i < |x.plan.steps| && x.plan.steps[i].id == id;
    }
    var e :| e in x.plan.edges && e.from == SourceAt(l, k - 1) && e.to in Clones(l, k);
    assert EdgeFits(x, Ids(x.plan.steps), e);
    forall w | (l.source, w) in l.edges && w !in l.Body() && w in x.existing
      ensures x.existing[w].status == AnchorPending
    {
      var exit :| exit in x.plan.edges && exit.to == w;
      assert EdgeFits(x, Ids(x.plan.steps), exit);
    }
  }

  /** Unroller and gate composed, in any acyclic run graph that holds the earlier iterations: iteration k is generated
      exactly when only the loop source leaves the body, and then accepted exactly when the run caps allow it, its ids
      are new, the completing source is not terminal and its exits are pending. */
  method NextIteration(def: Definition, loopEdge: Edge, k: nat, run: Input)
    returns (r: Result<Plan, LoopError>, v: Option<Verdict>)
    requires ValidLoop(def, loopEdge) && k >= 1 && RunAt(run, def, loopEdge, k - 1)
    ensures r.Ok? <==> SpecOf(def, loopEdge).OnlySourceExits()
    ensures r.Ok? <==> v.Some?
    ensures r.Ok? ==> (v.value.OK() <==> && WithinCaps(run.(plan := r.value)) && IterationFresh(run, def, loopEdge, k)
                                         && AnchorsOpen(run, def, loopEdge, k - 1))
    ensures r.Ok? ==> exists entries :: Unrolls(run.(plan := r.value), def, loopEdge, entries, k)
  {
    hide Fits, MergedFits, IsMerged, IsSearchResult, LoopSpec.Valid, LoopSpec.Body, StepsAt, EdgesAt, IdsFit, EdgesFit,
         IsLoopPlan, IsEntryList, WellFormed, ValidLoop, Clones;
    var current := if k == 1 then loopEdge.from else InstanceId(loopEdge.from, k - 1);
    r := GenerateLoopExpansion(def, loopEdge, current, k);
    LoopEndsKnown(def, loopEdge);
    if r.Err? {
      EscapeIsExit(SpecOf(def, loopEdge), r.error.from, r.error.to);
      return r, None;
    }
    var x := run.(plan := r.value);
    ghost var entries :| IsEntryList(def, SpecOf(def, loopEdge).Body(), entries)
                         && IsLoopPlan(def, loopEdge, entries, current, k, x.plan);
    assert Unrolls(x, def, loopEdge, entries, k);
    var verdict, merged, findings := ValidateExpansion(x);
    if Fits(x) {
      AcceptanceNeeds(x, def, loopEdge, entries, k);
    }
    if WithinCaps(x) && IterationFresh(x, def, loopEdge, k) && AnchorsOpen(x, def, loopEdge, k - 1) {
      IterationClears(x, def, loopEdge, entries, k, merged, findings);
    }
    v := Some(verdict);
  }

  /** The smallest loop, a and b with a loop edge back to a, meets the hypotheses at its first iteration. */
  lemma SmallestLoop(def: Definition, loopEdge: Edge, x: Input)
    requires IsSmallest(def, loopEdge)
    requires x.kind == FromLoop && x.existingEdges == def.edges && x.existing.Keys == {"a", "b"}
    requires x.existing["b"].status == AnchorActive
    ensures ValidLoop(def, loopEdge) && SpecOf(def, loopEdge).OnlySourceExits()
    ensures RunAt(x, def, loopEdge, 0) && IterationFresh(x, def, loopEdge, 1) && AnchorsOpen(x, def, loopEdge, 0)
  {
    SmallestValid(def, loopEdge);
    SmallestSpec(def, loopEdge);
    hide ValidLoop, LoopSpec.Valid, LoopSpec.Body, Pairs, Ids;
  }

  lemma SmallestValid(def: Definition, loopEdge: Edge)
    requires IsSmallest(def, loopEdge)
    ensures ValidLoop(def, loopEdge)
  {
    hide LoopSpec.Valid, LoopSpec.Body, RefsAuthored, IsStepId, Pairs, Ids;
    SmallestSpec(def, loopEdge);
    SmallestRefs(def, loopEdge);
    OneLetter();
  }

  lemma OneLetter()
    ensures IsStepId("a") && IsStepId("b")
  {
  }

  lemma SmallestRefs(def: Definition, loopEdge: Edge)
    requires IsSmallest(def, loopEdge)
    ensures RefsAuthored(def)
  {
    hide Pairs;
    forall s | s in def.steps ensures StepRefs(s) == [] {
    }
  }

  predicate IsSmallest(def: Definition, loopEdge: Edge) {
    && loopEdge == Edge("b", "a", "", Loop, "again", 3, "")
    && def.steps == [Step("a", StepOther("noop"), NoConfig, []), Step("b", StepOther("noop"), NoConfig, [])]
    && def.edges == [Plain("a", "b"), loopEdge]
  }

  lemma SmallestSpec(def: Definition, loopEdge: Edge)
    requires IsSmallest(def, loopEdge)
    ensures Ids(def.steps) == {"a", "b"} && Pairs(def.edges) == {("a", "b")}
    ensures SpecOf(def, loopEdge).Valid() && SpecOf(def, loopEdge).Body() == {"a", "b"}
  {
    var l := SpecOf(def, loopEdge);
    assert l.steps == {"a", "b"};
    assert !def.edges[0].IsLoop() && def.edges[1].IsLoop();
    assert l.edges == {("a", "b")};
    RankedAcyclic(l.edges, (v: string) => if v == "b" then 1 else 0, (v: string) => 0);
    EdgeReaches(l.edges, "a", "b");
    assert l.Body() == {"a", "b"};
  }
}
