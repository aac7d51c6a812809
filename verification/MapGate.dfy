/** The fan-out generator and the gate agree: the plan of every map over a valid template, for any number of
    items, passes the gate as long as the run caps allow it (internal/dag/mapexpand.go, internal/dag/expansion.go). */
module MapGate {
  import opened Walks
  import opened Counting
  import opened Texts
  import opened Definitions
  import opened StepIds
  import opened Cycles
  import opened Expansions
  import opened Gate
  import Fanout
  import opened Maps

  ghost function SpecOf(tmpl: Definition, sink: string, mapStep: string, n: nat): Fanout.MapSpec {
    Fanout.MapSpec(Ids(tmpl.steps), Pairs(tmpl.edges), sink, mapStep, n)
  }

  /** A template that passed validation: unique legal ids, acyclic, one sink, loop edges anchored, references
      upstream. */
  ghost predicate ValidTemplate(tmpl: Definition, sink: string, mapStep: string, n: nat) {
    && WellFormed(tmpl) && (forall id | id in Ids(tmpl.steps) :: IsStepId(id))
    && SpecOf(tmpl, sink, mapStep, n).Valid()
    && (forall i | 0 <= i < |tmpl.edges| :: LoopAnchored(tmpl, tmpl.edges[i]))
    && (forall s | s in tmpl.steps :: forall ref | ref in StepRefs(s) :: Reaches(Pairs(tmpl.edges), ref, s.id))
  }

  ghost predicate IsEntryList(tmpl: Definition, entries: seq<string>) {
    forall id :: id in entries <==> id in Ids(tmpl.steps) && !Enters(tmpl.edges, id)
  }

  // ---------- the plan on the graph level ----------

  lemma EntriesExact(tmpl: Definition, entries: seq<string>, m: Fanout.MapSpec, id: string)
    requires IsEntryList(tmpl, entries) && m.steps == Ids(tmpl.steps) && m.edges == Pairs(tmpl.edges)
    ensures id in entries <==> m.IsEntry(id)
  {
    if Enters(tmpl.edges, id) {
      var i :| 0 <= i < |tmpl.edges| && !tmpl.edges[i].IsLoop() && tmpl.edges[i].to == id;
      assert (tmpl.edges[i].from, id) in Pairs(tmpl.edges);
    }
    if e :| e in m.edges && e.1 == id {
      var k :| 0 <= k < |tmpl.edges| && !tmpl.edges[k].IsLoop() && e == (tmpl.edges[k].from, tmpl.edges[k].to);
    }
  }

  lemma EdgesOfSound(tmpl: Definition, entries: seq<string>, sink: string, mapStep: string, n: nat, k: nat)
    requires IsEntryList(tmpl, entries)
    ensures Pairs(EdgesOf(tmpl, entries, sink, mapStep, k)) <= Fanout.InstanceEdges(SpecOf(tmpl, sink, mapStep, n), k)
  {
    var m, edges := SpecOf(tmpl, sink, mapStep, n), EdgesOf(tmpl, entries, sink, mapStep, k);
    var t, en := |tmpl.edges|, |entries|;
    forall p | p in Pairs(edges) ensures p in Fanout.InstanceEdges(m, k) {
      var i :| 0 <= i < |edges| && !edges[i].IsLoop() && p == (edges[i].from, edges[i].to);
      if i < t {
        assert (tmpl.edges[i].from, tmpl.edges[i].to) in m.edges;
      } else if i < t + en {
        EntriesExact(tmpl, entries, m, entries[i - t]);
      }
    }
  }

  lemma EdgesOfPairs(tmpl: Definition, entries: seq<string>, sink: string, mapStep: string, n: nat, k: nat)
    requires IsEntryList(tmpl, entries)
    ensures Pairs(EdgesOf(tmpl, entries, sink, mapStep, k)) == Fanout.InstanceEdges(SpecOf(tmpl, sink, mapStep, n), k)
  {
    EdgesOfSound(tmpl, entries, sink, mapStep, n, k);
    hide EdgesOf, Pairs;
    var m := SpecOf(tmpl, sink, mapStep, n);
    forall p | p in Fanout.InstanceEdges(m, k) ensures p in Pairs(EdgesOf(tmpl, entries, sink, mapStep, k)) {
      EdgesOfHave(tmpl, entries, sink, mapStep, n, k, p);
    }
  }

  lemma EdgesOfHave(tmpl: Definition, entries: seq<string>, sink: string, mapStep: string, n: nat, k: nat,
                    p: (string, string))
    requires IsEntryList(tmpl, entries) && p in Fanout.InstanceEdges(SpecOf(tmpl, sink, mapStep, n), k)
    ensures p in Pairs(EdgesOf(tmpl, entries, sink, mapStep, k))
  {
    var m, edges := SpecOf(tmpl, sink, mapStep, n), EdgesOf(tmpl, entries, sink, mapStep, k);
    var t, en := |tmpl.edges|, |entries|;
    if e :| e in m.edges && p == (InstanceId(e.0, k), InstanceId(e.1, k)) {
      var i :| 0 <= i < t && !tmpl.edges[i].IsLoop() && e == (tmpl.edges[i].from, tmpl.edges[i].to);
      assert edges[i] == InstanceEdge(tmpl.edges[i], k);
    } else if v :| v in m.steps && m.IsEntry(v) && p == (mapStep, InstanceId(v, k)) {
      EntriesExact(tmpl, entries, m, v);
      var i :| 0 <= i < en && entries[i] == v;
      assert edges[t + i] == Plain(mapStep, InstanceId(v, k));
    } else {
      assert edges[t + en] == Plain(InstanceId(sink, k), GatherId(mapStep));
    }
  }

  lemma {:induction false} AllEdgesPairs(tmpl: Definition, entries: seq<string>, sink: string, mapStep: string, n: nat,
                                         k: nat)
    requires IsEntryList(tmpl, entries) && k <= n
    ensures Pairs(AllEdges(tmpl, entries, sink, mapStep, k)) == Fanout.EdgesUpTo(SpecOf(tmpl, sink, mapStep, n), k)
  {
    hide IsEntryList, EdgesOf, Fanout.InstanceEdges, Pairs;
    PairsEmpty();
    if k > 0 {
      AllEdgesPairs(tmpl, entries, sink, mapStep, n, k - 1);
      EdgesOfPairs(tmpl, entries, sink, mapStep, n, k - 1);
      PairsConcat(AllEdges(tmpl, entries, sink, mapStep, k - 1), EdgesOf(tmpl, entries, sink, mapStep, k - 1));
    }
  }

  lemma StepsOfIds(tmpl: Definition, sink: string, mapStep: string, n: nat, k: nat)
    ensures Ids(StepsOf(tmpl, mapStep, k)) == Fanout.Instance(SpecOf(tmpl, sink, mapStep, n), k)
  {
    var steps := StepsOf(tmpl, mapStep, k);
    forall id | id in Fanout.Instance(SpecOf(tmpl, sink, mapStep, n), k) ensures id in Ids(steps) {
      var v :| v in Ids(tmpl.steps) && id == InstanceId(v, k);
      var i :| 0 <= i < |tmpl.steps| && tmpl.steps[i].id == v;
      assert steps[i].id == id;
    }
  }

  lemma StepsOfDistinct(tmpl: Definition, mapStep: string, k: nat)
    requires DistinctIds(tmpl.steps) && forall id | id in Ids(tmpl.steps) :: '#' !in id
    ensures DistinctIds(StepsOf(tmpl, mapStep, k))
  {
    var steps := StepsOf(tmpl, mapStep, k);
    forall i, j | 0 <= i < j < |steps| ensures steps[i].id != steps[j].id {
      if InstanceId(tmpl.steps[i].id, k) == InstanceId(tmpl.steps[j].id, k) {
        InstanceIdInjective(tmpl.steps[i].id, k, tmpl.steps[j].id, k);
      }
    }
  }

  lemma DistinctConcat(a: seq<Step>, b: seq<Step>)
    requires DistinctIds(a) && DistinctIds(b) && Ids(a) !! Ids(b)
    ensures DistinctIds(a + b) && Ids(a + b) == Ids(a) + Ids(b)
  {
    forall i, j | 0 <= i < j < |a + b| ensures (a + b)[i].id != (a + b)[j].id {
      if i < |a| <= j {
        assert (a + b)[i].id in Ids(a) && (a + b)[j].id in Ids(b);
      }
    }
  }

  /** The steps minted for the first k items: distinct, and exactly those of the graph-level fan-out. */
  lemma {:induction false} AllStepsMinted(tmpl: Definition, sink: string, mapStep: string, n: nat, k: nat)
    requires DistinctIds(tmpl.steps) && SpecOf(tmpl, sink, mapStep, n).Valid() && k <= n
    ensures DistinctIds(AllSteps(tmpl, mapStep, k))
    ensures GatherId(mapStep) !in Ids(AllSteps(tmpl, mapStep, k))
    ensures Ids(AllSteps(tmpl, mapStep, k)) + {GatherId(mapStep)} == Fanout.StepsUpTo(SpecOf(tmpl, sink, mapStep, n), k)
  {
    hide Fanout.Instance, StepsOf, GatherId, InstanceId, DistinctIds;
    if k == 0 {
      NoneMinted();
    } else {
      var before, minted := AllSteps(tmpl, mapStep, k - 1), StepsOf(tmpl, mapStep, k - 1);
      AllStepsMinted(tmpl, sink, mapStep, n, k - 1);
      StepsOfIds(tmpl, sink, mapStep, n, k - 1);
      StepsOfDistinct(tmpl, mapStep, k - 1);
      InstanceNew(SpecOf(tmpl, sink, mapStep, n), k - 1);
      DistinctConcat(before, minted);
    }
  }

  lemma NoneMinted()
    ensures DistinctIds([]) && Ids([]) == {}
  {
  }

  lemma InstanceNew(m: Fanout.MapSpec, k: nat)
    requires m.Valid()
    ensures Fanout.Instance(m, k) !! Fanout.StepsUpTo(m, k)
  {
    forall id | id in Fanout.Instance(m, k) ensures id !in Fanout.StepsUpTo(m, k) {
      Fanout.InstancesApart(m, k, k, id);
      if id in Fanout.StepsUpTo(m, k) {
        Fanout.StepsUpToAre(m, k, id);
        var j: nat :| j < k && id in Fanout.Instance(m, j);
        Fanout.InstancesApart(m, j, k, id);
      }
    }
  }

  // ---------- the gate on the plan ----------

  /** The input for splicing a fan-out into a run. */
  ghost predicate SplicesFanout(x: Input, tmpl: Definition, entries: seq<string>, sink: string, mapStep: string,
                                n: nat)
  {
    && FansOut(x, tmpl, entries, sink, mapStep, n) && RunFor(x, mapStep)
    && FanoutFresh(x, tmpl, sink, mapStep, n) && MapOpen(x, mapStep, n) && WithinCaps(x)
  }

  /** The plan is what the generator produces for the template and n items. */
  ghost predicate FansOut(x: Input, tmpl: Definition, entries: seq<string>, sink: string, mapStep: string, n: nat) {
    IsEntryList(tmpl, entries) && IsMapPlan(tmpl, entries, sink, mapStep, n, x.plan)
  }

  /** An acyclic run graph with the map step in it. */
  ghost predicate RunFor(x: Input, mapStep: string) {
    && x.kind == FromMap && SoundRun(x) && Acyclic(Old(x)) && mapStep in x.existing
    && (IsStepId(mapStep) || IsInstanceId(mapStep)) && '.' !in mapStep
  }

  /** The ids to be minted are new to the run. */
  ghost predicate FanoutFresh(x: Input, tmpl: Definition, sink: string, mapStep: string, n: nat) {
    x.existing.Keys !! Fanout.Added(SpecOf(tmpl, sink, mapStep, n))
  }

  /** The map step is not terminal, unless there is nothing to splice after it. */
  ghost predicate MapOpen(x: Input, mapStep: string, n: nat) {
    n > 0 && mapStep in x.existing ==> x.existing[mapStep].status != AnchorTerminal
  }

  lemma FanoutDelta(x: Input, tmpl: Definition, entries: seq<string>, sink: string, mapStep: string, n: nat)
    requires ValidTemplate(tmpl, sink, mapStep, n) && FansOut(x, tmpl, entries, sink, mapStep, n)
    ensures Delta(x) == Fanout.Delta(SpecOf(tmpl, sink, mapStep, n))
    ensures Added(x) == Fanout.Added(SpecOf(tmpl, sink, mapStep, n)) && DistinctIds(x.plan.steps)
  {
    hide IsStepId, IsInstanceId, AllSteps, AllEdges;
    AllEdgesPairs(tmpl, entries, sink, mapStep, n, n);
    AllStepsMinted(tmpl, sink, mapStep, n, n);
    var gather := GatherStep(sink, mapStep, n);
    assert Ids([gather]) == {gather.id} by {
      assert [gather][0] == gather;
    }
    DistinctConcat(AllSteps(tmpl, mapStep, n), [gather]);
  }

  lemma MintedAllowed(x: Input, tmpl: Definition, sink: string, mapStep: string, n: nat, id: string)
    requires SpecOf(tmpl, sink, mapStep, n).Valid() && (forall v | v in Ids(tmpl.steps) :: IsStepId(v))
    requires IsStepId(mapStep) || IsInstanceId(mapStep)
    requires x.kind == FromMap && x.plan.schemaVersion == PLAN_SCHEMA_VERSION
    requires id in Fanout.Added(SpecOf(tmpl, sink, mapStep, n))
    ensures IdAllowed(x, id)
  {
    var m := SpecOf(tmpl, sink, mapStep, n);
    hide IsStepId, IsInstanceId;
    Fanout.StepsUpToAre(m, n, id);
    if id == m.Gather() {
      GatherIdValid(mapStep);
    } else {
      var k: nat :| k < n && id in Fanout.Instance(m, k);
      var v :| v in m.steps && id == InstanceId(v, k);
      InstanceIdValid(v, k);
    }
  }

  lemma FanoutIdsFit(x: Input, tmpl: Definition, entries: seq<string>, sink: string, mapStep: string, n: nat)
    requires ValidTemplate(tmpl, sink, mapStep, n) && SplicesFanout(x, tmpl, entries, sink, mapStep, n)
    ensures IdsFit(x) && x.plan.steps != []
  {
    FanoutDelta(x, tmpl, entries, sink, mapStep, n);
    forall i | 0 <= i < |x.plan.steps| ensures IdAllowed(x, x.plan.steps[i].id) && x.plan.steps[i].id !in x.existing {
      assert x.plan.steps[i].id in Added(x);
      MintedAllowed(x, tmpl, sink, mapStep, n, x.plan.steps[i].id);
    }
  }

  lemma {:induction false} AllEdgesAre(tmpl: Definition, entries: seq<string>, sink: string, mapStep: string, n: nat,
                                       e: Edge)
    requires e in AllEdges(tmpl, entries, sink, mapStep, n)
    ensures exists k: nat :: k < n && e in EdgesOf(tmpl, entries, sink, mapStep, k)
  {
    if e in AllEdges(tmpl, entries, sink, mapStep, n - 1) {
      AllEdgesAre(tmpl, entries, sink, mapStep, n - 1, e);
    }
  }

  /** A plan edge enters an injected step and leaves an injected one or the map step; loop clones stay inside. */
  lemma PlanEdgeShape(tmpl: Definition, entries: seq<string>, sink: string, mapStep: string, n: nat, k: nat, e: Edge)
    requires WellFormed(tmpl) && IsEntryList(tmpl, entries) && sink in Ids(tmpl.steps) && k < n
    requires e in EdgesOf(tmpl, entries, sink, mapStep, k)
    ensures var m := SpecOf(tmpl, sink, mapStep, n);
            && (e.from in Fanout.Instance(m, k) || e.from == mapStep)
            && (e.to in Fanout.Instance(m, k) || e.to == m.Gather())
    ensures e.IsLoop() ==>
              exists i :: 0 <= i < |tmpl.edges| && tmpl.edges[i].IsLoop() && e == InstanceEdge(tmpl.edges[i], k)
  {
    var edges := EdgesOf(tmpl, entries, sink, mapStep, k);
    var i :| 0 <= i < |edges| && edges[i] == e;
    if i < |tmpl.edges| {
      assert e == InstanceEdge(tmpl.edges[i], k);
    } else if i < |tmpl.edges| + |entries| {
      assert entries[i - |tmpl.edges|] in entries;
    }
  }

  lemma FanoutEdgesFit(x: Input, tmpl: Definition, entries: seq<string>, sink: string, mapStep: string, n: nat)
    requires ValidTemplate(tmpl, sink, mapStep, n) && SplicesFanout(x, tmpl, entries, sink, mapStep, n)
    ensures EdgesFit(x)
  {
    var m := SpecOf(tmpl, sink, mapStep, n);
    FanoutDelta(x, tmpl, entries, sink, mapStep, n);
    Fanout.GatherKept(m, n);
    forall i | 0 <= i < |x.plan.edges| ensures EdgeFits(x, Ids(x.plan.steps), x.plan.edges[i]) {
      var e := x.plan.edges[i];
      AllEdgesAre(tmpl, entries, sink, mapStep, n, e);
      var k: nat :| k < n && e in EdgesOf(tmpl, entries, sink, mapStep, k);
      PlanEdgeShape(tmpl, entries, sink, mapStep, n, k, e);
      Fanout.InstanceKept(m, k, n);
    }
  }

  lemma FanoutMerges(x: Input, tmpl: Definition, entries: seq<string>, sink: string, mapStep: string, n: nat,
                     merged: Definition)
    requires ValidTemplate(tmpl, sink, mapStep, n) && SplicesFanout(x, tmpl, entries, sink, mapStep, n)
             && IsMerged(x, merged)
    ensures IdsFit(x) && EdgesFit(x) && WellFormed(merged) && Acyclic(Pairs(merged.edges))
    ensures Fanout.Delta(SpecOf(tmpl, sink, mapStep, n)) <= Pairs(merged.edges)
  {
    var m := SpecOf(tmpl, sink, mapStep, n);
    FanoutIdsFit(x, tmpl, entries, sink, mapStep, n);
    FanoutEdgesFit(x, tmpl, entries, sink, mapStep, n);
    FanoutDelta(x, tmpl, entries, sink, mapStep, n);
    FittingPlanSplices(x, merged);
    Fanout.FanoutKeepsAcyclic(m, Old(x), x.existing.Keys);
  }

  lemma FanoutLoopsAnchored(x: Input, tmpl: Definition, entries: seq<string>, sink: string, mapStep: string, n: nat,
                            merged: Definition)
    requires ValidTemplate(tmpl, sink, mapStep, n) && SplicesFanout(x, tmpl, entries, sink, mapStep, n)
    requires Fanout.Delta(SpecOf(tmpl, sink, mapStep, n)) <= Pairs(merged.edges)
    ensures LoopsAnchored(x, merged)
  {
    var m := SpecOf(tmpl, sink, mapStep, n);
    forall i | 0 <= i < |x.plan.edges| ensures LoopAnchored(merged, x.plan.edges[i]) {
      var e := x.plan.edges[i];
      if e.IsLoop() {
        AllEdgesAre(tmpl, entries, sink, mapStep, n, e);
        var k: nat :| k < n && e in EdgesOf(tmpl, entries, sink, mapStep, k);
        PlanEdgeShape(tmpl, entries, sink, mapStep, n, k, e);
        var j :| 0 <= j < |tmpl.edges| && tmpl.edges[j].IsLoop() && e == InstanceEdge(tmpl.edges[j], k);
        assert LoopAnchored(tmpl, tmpl.edges[j]);
        Fanout.InstanceReach(m, k, tmpl.edges[j].to, tmpl.edges[j].from);
        ReachesMono(Fanout.Delta(m), Pairs(merged.edges), e.to, e.from);
      }
    }
  }

  // ---------- references ----------

  lemma {:induction false} TokenRefsConcat(a: seq<Token>, b: seq<Token>)
    ensures TokenRefs(a + b) == TokenRefs(a) + TokenRefs(b)
  {
    hide RefStep, TokenRefs;
    if a == [] {
      assert a + b == b;
      TokenRefsNone();
    } else {
      var t, rest := a[0], a[1..];
      assert a == [t] + rest && a + b == [t] + (rest + b);
      TokenRefsCons(t, rest);
      TokenRefsCons(t, rest + b);
      TokenRefsConcat(rest, b);
    }
  }

  lemma TokenRefsNone()
    ensures TokenRefs([]) == []
  {
  }

  lemma TokenRefsCons(t: Token, rest: seq<Token>)
    ensures TokenRefs([t] + rest) == TokenRefs([t]) + TokenRefs(rest)
  {
    hide RefStep;
    assert ([t] + rest)[1..] == rest && [t][1..] == [];
    TokenRefsNone();
  }

  lemma {:induction false} SinkTokenRefs(sink: string, n: nat, ref: string)
    requires '.' !in sink && ref in TokenRefs(SinkTokens(sink, n))
    ensures exists k: nat :: k < n && ref == InstanceId(sink, k)
  {
    hide RefStep, InstanceId, StepToken;
    if n > 0 {
      var last := Token(StepToken(InstanceId(sink, n - 1), ".output"), false);
      TokenRefsConcat(SinkTokens(sink, n - 1), [last]);
      InstanceIdUndotted(sink, n - 1);
      StepTokenRefers(InstanceId(sink, n - 1), ".output");
      assert TokenRefs([last]) == [InstanceId(sink, n - 1)];
      if ref in TokenRefs(SinkTokens(sink, n - 1)) {
        SinkTokenRefs(sink, n - 1, ref);
      }
    }
  }

  lemma GatherRefUpstream(tmpl: Definition, sink: string, mapStep: string, n: nat, ref: string)
    requires ValidTemplate(tmpl, sink, mapStep, n) && ref in StepRefs(GatherStep(sink, mapStep, n))
    ensures Reaches(Fanout.Delta(SpecOf(tmpl, sink, mapStep, n)), ref, GatherId(mapStep))
  {
    StepIdPlain(sink);
    assert SourceRefs([]) == [];
    SinkTokenRefs(sink, n, ref);
    var k: nat :| k < n && ref == InstanceId(sink, k);
    Fanout.InstancesReachGather(SpecOf(tmpl, sink, mapStep, n), k, sink);
  }

  lemma InstanceRefUpstream(tmpl: Definition, sink: string, mapStep: string, n: nat, k: nat, s: Step, ref: string)
    requires ValidTemplate(tmpl, sink, mapStep, n) && '.' !in mapStep && k < n
    requires s in tmpl.steps && ref in StepRefs(InstanceStep(s, mapStep, k))
    ensures Reaches(Fanout.Delta(SpecOf(tmpl, sink, mapStep, n)), ref, InstanceId(s.id, k))
  {
    var m := SpecOf(tmpl, sink, mapStep, n);
    InstanceRefs(s, mapStep, k, ref);
    if ref == mapStep {
      Fanout.MapReachesInstances(m, k, s.id);
    } else {
      var r :| r in StepRefs(s) && ref == InstanceId(r, k);
      Fanout.InstanceReach(m, k, r, s.id);
    }
  }

  lemma {:induction false} AllStepsAre(tmpl: Definition, mapStep: string, n: nat, s: Step)
    requires s in AllSteps(tmpl, mapStep, n)
    ensures exists k: nat, o :: k < n && o in tmpl.steps && s == InstanceStep(o, mapStep, k)
  {
    if s in AllSteps(tmpl, mapStep, n - 1) {
      AllStepsAre(tmpl, mapStep, n - 1, s);
    } else {
      var steps := StepsOf(tmpl, mapStep, n - 1);
      var i :| 0 <= i < |steps| && steps[i] == s;
      assert tmpl.steps[i] in tmpl.steps && s == InstanceStep(tmpl.steps[i], mapStep, n - 1);
    }
  }

  /** Every reference in the plan, of an instance step or of the gather, is to an ancestor. */
  lemma PlanRefUpstream(tmpl: Definition, entries: seq<string>, sink: string, mapStep: string, n: nat, plan: Plan,
                        s: Step, ref: string)
    requires ValidTemplate(tmpl, sink, mapStep, n) && '.' !in mapStep
             && IsMapPlan(tmpl, entries, sink, mapStep, n, plan)
    requires s in plan.steps && ref in StepRefs(s)
    ensures Reaches(Fanout.Delta(SpecOf(tmpl, sink, mapStep, n)), ref, s.id)
  {
    if s == GatherStep(sink, mapStep, n) {
      GatherRefUpstream(tmpl, sink, mapStep, n, ref);
    } else {
      AllStepsAre(tmpl, mapStep, n, s);
      var k: nat, o :| k < n && o in tmpl.steps && s == InstanceStep(o, mapStep, k);
      InstanceRefUpstream(tmpl, sink, mapStep, n, k, o, ref);
    }
  }

  lemma FanoutRefsResolve(x: Input, tmpl: Definition, entries: seq<string>, sink: string, mapStep: string, n: nat,
                          merged: Definition)
    requires ValidTemplate(tmpl, sink, mapStep, n) && SplicesFanout(x, tmpl, entries, sink, mapStep, n)
    requires WellFormed(merged) && Acyclic(Pairs(merged.edges))
    requires Fanout.Delta(SpecOf(tmpl, sink, mapStep, n)) <= Pairs(merged.edges)
    ensures RefsResolve(x, merged)
  {
    var all := Pairs(merged.edges);
    forall i, ref | 0 <= i < |x.plan.steps| && ref in StepRefs(x.plan.steps[i])
      ensures RefResolves(x, merged, x.plan.steps[i], ref)
    {
      var s := x.plan.steps[i];
      PlanRefUpstream(tmpl, entries, sink, mapStep, n, x.plan, s, ref);
      ReachesMono(Fanout.Delta(SpecOf(tmpl, sink, mapStep, n)), all, ref, s.id);
      PairsWithin(merged.edges, Ids(merged.steps));
      ReachesEndpoints(all, Ids(merged.steps), ref, s.id);
    }
  }

  /** The plan of every fan-out is accepted: fresh legal ids, legal anchors, no cycle, references that resolve. */
  lemma FanoutAccepted(x: Input, tmpl: Definition, entries: seq<string>, sink: string, mapStep: string, n: nat,
                       merged: Definition, findings: seq<Finding>)
    requires ValidTemplate(tmpl, sink, mapStep, n) && SplicesFanout(x, tmpl, entries, sink, mapStep, n)
    requires IsMerged(x, merged) && IsSearchResult(merged, findings)
    ensures Fits(x) && MergedFits(x, merged, findings)
  {
    FanoutMerges(x, tmpl, entries, sink, mapStep, n, merged);
    FanoutIdsFit(x, tmpl, entries, sink, mapStep, n);
    assert NoneBlamed(x, merged, findings);
    FanoutLoopsAnchored(x, tmpl, entries, sink, mapStep, n, merged);
    FanoutRefsResolve(x, tmpl, entries, sink, mapStep, n, merged);
  }

  lemma OneSink(tmpl: Definition, sink: string, mapStep: string, n: nat, id: string)
    requires SpecOf(tmpl, sink, mapStep, n).Valid()
    ensures id in Ids(tmpl.steps) && !Leaves(tmpl.edges, id) <==> id == sink
  {
    var m := SpecOf(tmpl, sink, mapStep, n);
    if id in Ids(tmpl.steps) {
      if Leaves(tmpl.edges, id) {
        var i :| 0 <= i < |tmpl.edges| && !tmpl.edges[i].IsLoop() && tmpl.edges[i].from == id;
        assert (id, tmpl.edges[i].to) in m.edges;
      } else {
        forall e | e in m.edges ensures e.0 != id {
          var i :| 0 <= i < |tmpl.edges| && !tmpl.edges[i].IsLoop() && e == (tmpl.edges[i].from, tmpl.edges[i].to);
        }
      }
    }
  }

  /** With an item to map, the plan splices after the map step. */
  lemma MapEdge(x: Input, tmpl: Definition, entries: seq<string>, sink: string, mapStep: string, n: nat)
    requires ValidTemplate(tmpl, sink, mapStep, n) && FansOut(x, tmpl, entries, sink, mapStep, n) && n > 0
    ensures exists i :: 0 <= i < |x.plan.edges| && x.plan.edges[i].from == mapStep
  {
    var m := SpecOf(tmpl, sink, mapStep, n);
    FanoutDelta(x, tmpl, entries, sink, mapStep, n);
    var entry := Fanout.ReachedFromEntry(m, sink);
    Fanout.InstanceKept(m, 0, n);
    assert (mapStep, InstanceId(entry, 0)) in Fanout.InstanceEdges(m, 0);
    assert (mapStep, InstanceId(entry, 0)) in Pairs(x.plan.edges);
  }

  /** What the gate cannot do without. */
  lemma AcceptanceNeeds(x: Input, tmpl: Definition, entries: seq<string>, sink: string, mapStep: string, n: nat)
    requires ValidTemplate(tmpl, sink, mapStep, n) && FansOut(x, tmpl, entries, sink, mapStep, n) && RunFor(x, mapStep)
    requires Fits(x)
    ensures WithinCaps(x) && FanoutFresh(x, tmpl, sink, mapStep, n) && MapOpen(x, mapStep, n)
  {
    hide ValidTemplate, FansOut, IsStepId, IsInstanceId;
    FanoutDelta(x, tmpl, entries, sink, mapStep, n);
    forall id | id in Added(x) ensures id !in x.existing {
      var i :| 0 <= i < |x.plan.steps| && x.plan.steps[i].id == id;
    }
    if n > 0 {
      MapEdge(x, tmpl, entries, sink, mapStep, n);
      var i :| 0 <= i < |x.plan.edges| && x.plan.edges[i].from == mapStep;
      assert EdgeFits(x, Ids(x.plan.steps), x.plan.edges[i]);
    }
  }

  /** What the gate computes for a fan-out's plan comes out clean. */
  lemma FanoutClears(x: Input, tmpl: Definition, entries: seq<string>, sink: string, mapStep: string, n: nat,
                     merged: Definition, findings: seq<Finding>)
    requires ValidTemplate(tmpl, sink, mapStep, n) && SplicesFanout(x, tmpl, entries, sink, mapStep, n)
    requires IdsFit(x) && EdgesFit(x) ==>
               IsMerged(x, merged) && (WellFormed(merged) ==> IsSearchResult(merged, findings))
    ensures Fits(x) && MergedFits(x, merged, findings)
  {
    hide Fits, MergedFits, IsMerged, IsSearchResult, IdsFit, EdgesFit, ValidTemplate, SplicesFanout;
    FanoutIdsFit(x, tmpl, entries, sink, mapStep, n);
    FanoutEdgesFit(x, tmpl, entries, sink, mapStep, n);
    FanoutMerges(x, tmpl, entries, sink, mapStep, n, merged);
    FanoutAccepted(x, tmpl, entries, sink, mapStep, n, merged, findings);
  }

  /** Generator and gate composed: a valid template always fans out, over any number of items, and the plan is accepted
      exactly when the run caps allow it, its ids are new and the map step is not terminal. */
  method FanOut(tmpl: Definition, ghost sink: string, items: nat, mapStep: string, run: Input)
    returns (plan: Plan, v: Verdict)
    requires ValidTemplate(tmpl, sink, mapStep, items) && RunFor(run, mapStep)
    ensures v.OK() <==> && WithinCaps(run.(plan := plan)) && FanoutFresh(run, tmpl, sink, mapStep, items)
                        && MapOpen(run, mapStep, items)
    ensures exists entries :: IsFrontier(tmpl, entries, sink) && IsMapPlan(tmpl, entries, sink, mapStep, items, plan)
  {
    hide Fits, MergedFits, IsMerged, IsSearchResult, Fanout.MapSpec.Valid, IdsFit, EdgesFit, IsMapPlan;
    forall id ensures id in Ids(tmpl.steps) && !Leaves(tmpl.edges, id) <==> id == sink {
      OneSink(tmpl, sink, mapStep, items, id);
    }
    var r := GenerateMapExpansion(tmpl, items, mapStep);
    if r.Err? && r.error.NotOneSink? {
      Singleton(r.error.sinks, sink);
    }
    assert sink in Ids(tmpl.steps);
    plan := r.value;
    ghost var entries, found :|
      IsFrontier(tmpl, entries, found) && IsMapPlan(tmpl, entries, found, mapStep, items, plan);
    assert found == sink;
    var x := run.(plan := plan);
    var verdict, merged, findings := ValidateExpansion(x);
    if Fits(x) {
      AcceptanceNeeds(x, tmpl, entries, sink, mapStep, items);
    }
    if WithinCaps(x) && FanoutFresh(x, tmpl, sink, mapStep, items) && MapOpen(x, mapStep, items) {
      FanoutClears(x, tmpl, entries, sink, mapStep, items, merged, findings);
    }
    v := verdict;
  }

  /** A template of one step meets the hypotheses for every number of items. */
  lemma SmallestTemplate(tmpl: Definition, n: nat, x: Input)
    requires tmpl == Definition([Step("t", StepOther("noop"), NoConfig, [])], [])
    requires x.kind == FromMap && x.existingEdges == [] && x.existing.Keys == {"m"}
             && x.existing["m"].status == AnchorActive
    ensures ValidTemplate(tmpl, "t", "m", n) && RunFor(x, "m") && FanoutFresh(x, tmpl, "t", "m", n)
            && MapOpen(x, "m", n)
  {
    var m := SpecOf(tmpl, "t", "m", n);
    assert m.steps == {"t"} && m.edges == {} && Old(x) == {};
    RankedAcyclic(m.edges, (v: string) => 0, (v: string) => 0);
    forall k: nat ensures InstanceId("t", k) != "m" {
      assert InstanceId("t", k)[0] == 't';
    }
    assert |GatherId("m")| > 1;
    if "m" in Fanout.Added(m) {
      Fanout.StepsUpToAre(m, n, "m");
    }
  }
}
