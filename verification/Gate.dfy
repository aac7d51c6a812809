/** What an accepted expansion guarantees about the merged graph, and what the closing-edge
    test of the gate fails to guarantee (internal/dag/expansion.go). */
module Gate {
  import opened Walks
  import opened Counting
  import opened Texts
  import opened Definitions
  import opened StepIds
  import opened Cycles
  import opened Expansions

  /** The run graph the input describes is well formed. */
  ghost predicate SoundRun(x: Input) {
    EndpointsIn(x.existingEdges, x.existing.Keys)
  }

  ghost function Old(x: Input): set<(string, string)> {
    Pairs(x.existingEdges)
  }

  ghost function Delta(x: Input): set<(string, string)> {
    Pairs(x.plan.edges)
  }

  ghost function Added(x: Input): set<string> {
    Ids(x.plan.steps)
  }

  /** A fitting plan only adds: fresh steps, and edges that each touch one of them. */
  lemma PlanSplices(x: Input)
    requires SoundRun(x) && IdsFit(x) && EdgesFit(x)
    ensures IsSplice(Old(x), x.existing.Keys, Delta(x), Added(x))
  {
    PairsWithin(x.existingEdges, x.existing.Keys);
    forall e | e in Delta(x)
      ensures e.0 in Added(x) || e.1 in Added(x)
      ensures e.0 in x.existing.Keys + Added(x) && e.1 in x.existing.Keys + Added(x)
    {
      var k :| 0 <= k < |x.plan.edges| && !x.plan.edges[k].IsLoop() && e == (x.plan.edges[k].from, x.plan.edges[k].to);
    }
  }

  /** The merged graph always compiles: distinct ids, resolved endpoints. */
  lemma FittingPlanSplices(x: Input, def: Definition)
    requires SoundRun(x) && IdsFit(x) && EdgesFit(x) && IsMerged(x, def)
    ensures WellFormed(def)
    ensures Pairs(def.edges) == Old(x) + Delta(x)
    ensures IsSplice(Old(x), x.existing.Keys, Delta(x), Added(x))
  {
    PlanSplices(x);
    PairsConcat(x.existingEdges, x.plan.edges);
    MergedDistinct(x, def);
    MergedEnds(x, def);
  }

  lemma MergedEnds(x: Input, def: Definition)
    requires SoundRun(x) && EdgesFit(x) && IsMerged(x, def)
    ensures EndpointsIn(def.edges, Ids(def.steps))
  {
    MergedKnows(x, def);
    hide Pairs;
    forall k | 0 <= k < |def.edges| ensures def.edges[k].from in Ids(def.steps) && def.edges[k].to in Ids(def.steps) {
      if k < |x.existingEdges| {
        assert def.edges[k] == x.existingEdges[k];
      } else {
        assert def.edges[k] == x.plan.edges[k - |x.existingEdges|];
      }
    }
  }

  lemma MergedDistinct(x: Input, def: Definition)
    requires IdsFit(x) && IsMerged(x, def)
    ensures DistinctIds(def.steps)
  {
    var n := |def.steps| - |x.plan.steps|;
    forall i, j | 0 <= i < j < |def.steps| ensures def.steps[i].id != def.steps[j].id {
      if j < n {
        assert def.steps[..n][i] == def.steps[i] && def.steps[..n][j] == def.steps[j];
        LessIrreflexive(def.steps[i].id);
      } else {
        assert def.steps[n..][j - n] == def.steps[j];
        if i < n {
          assert def.steps[..n][i] == def.steps[i] && def.steps[i].id in Ids(def.steps[..n]);
        } else {
          assert def.steps[n..][i - n] == def.steps[i];
        }
      }
    }
  }

  /** An unblamed plan is free of cycles among its own steps: such a cycle could only close on a delta edge. */
  lemma UnblamedDeltaAcyclic(x: Input, def: Definition, findings: seq<Finding>)
    requires IsMerged(x, def) && IsSearchResult(def, findings) && NoneBlamed(x, def, findings)
    ensures Acyclic(Inside(Delta(x), Added(x)))
  {
    forall p | p in Inside(Delta(x), Added(x)) ensures p in Unreported(def, Reported(findings)) {
      var k :| 0 <= k < |x.plan.edges| && !x.plan.edges[k].IsLoop() && p == (x.plan.edges[k].from, x.plan.edges[k].to);
      var e := |x.existingEdges| + k;
      assert def.edges[e] == x.plan.edges[k] && TouchesDelta(x, def.edges[e]);
      assert NormalEdge(def, e) && e !in Reported(findings);
    }
    AcyclicMono(Inside(Delta(x), Added(x)), Unreported(def, Reported(findings)));
  }

  /** Exactly when an accepted expansion leaves the merged graph acyclic: when the run graph stays acyclic with
      every detour the plan opens between two existing steps drawn as an edge. */
  lemma AcceptedAcyclicIff(x: Input, def: Definition, findings: seq<Finding>)
    requires SoundRun(x) && Fits(x) && IsMerged(x, def)
    requires IsSearchResult(def, findings) && MergedFits(x, def, findings)
    ensures Acyclic(Pairs(def.edges)) <==> Acyclic(Contracted(Old(x), x.existing.Keys, Delta(x), Added(x)))
  {
    FittingPlanSplices(x, def);
    UnblamedDeltaAcyclic(x, def, findings);
    SpliceAcyclicIff(Old(x), x.existing.Keys, Delta(x), Added(x));
  }

  /** When no step the plan enters leads to a step the plan leaves, the closing-edge test is exact. */
  lemma SeparatedAnchorsExact(x: Input, def: Definition, findings: seq<Finding>)
    requires SoundRun(x) && IdsFit(x) && EdgesFit(x) && IsMerged(x, def) && IsSearchResult(def, findings)
    requires Acyclic(Old(x)) && AnchorsSeparated(Old(x), x.existing.Keys, Delta(x))
    ensures NoneBlamed(x, def, findings) <==> Acyclic(Pairs(def.edges))
  {
    FittingPlanSplices(x, def);
    if NoneBlamed(x, def, findings) {
      UnblamedDeltaAcyclic(x, def, findings);
      SeparatedSpliceAcyclic(Old(x), x.existing.Keys, Delta(x), Added(x));
    }
  }

  /** The intended test: a finding counts as soon as its path visits an injected step. */
  ghost predicate NoneVisits(x: Input, findings: seq<Finding>) {
    forall f | f in findings :: forall id | id in f.path :: id !in Added(x)
  }

  /** Over an acyclic run graph the intended test is exact for every plan. */
  lemma PathTestExact(x: Input, def: Definition, findings: seq<Finding>)
    requires SoundRun(x) && IdsFit(x) && EdgesFit(x) && IsMerged(x, def) && IsSearchResult(def, findings)
    requires Acyclic(Old(x))
    ensures NoneVisits(x, findings) <==> Acyclic(Pairs(def.edges))
  {
    if NoneVisits(x, findings) && findings != [] {
      var p := findings[0].path;
      assert findings[0] in findings;
      FittingPlanSplices(x, def);
      forall i, j | 0 <= i < j < |p| && j == i + 1 ensures (p[i], p[j]) in Old(x) {
        assert p[i] in p && p[j] in p;
      }
      WalkReaches(Old(x), p, 0, |p| - 1);
    }
  }

  // ---------- the witness ----------

  /** The run p -> z -> a with p active and the others waiting for it; the plan adds x with a -> x -> z. */
  function Witness(): Input {
    var noop := StepOther("noop");
    Input(Plan(1, [Step("x", noop, NoConfig, [])], [Plain("a", "x"), Plain("x", "z")]),
          FromPlanner, 0,
          map["p" := Anchor(noop, AnchorActive, false), "z" := Anchor(noop, AnchorPending, false),
              "a" := Anchor(noop, AnchorPending, false)],
          [Plain("p", "z"), Plain("z", "a")],
          32, Resolve(None), 3, 0)
  }

  lemma WitnessOld()
    ensures Old(Witness()) == {("p", "z"), ("z", "a")} && Witness().existing.Keys == {"a", "p", "z"}
    ensures Added(Witness()) == {"x"} && Acyclic(Old(Witness()))
  {
    var x := Witness();
    assert x.existingEdges[0] == Plain("p", "z") && x.existingEdges[1] == Plain("z", "a");
    assert Old(x) == {("p", "z"), ("z", "a")};
    RankedAcyclic(Old(x), (v: string) => if v == "a" then 2 else if v == "z" then 1 else 0, (v: string) => 0);
  }

  lemma WitnessFits()
    ensures SoundRun(Witness()) && Fits(Witness())
  {
    WitnessOld();
  }

  lemma LeastComesFirst(steps: seq<Step>, id: string)
    requires forall i, j | 0 <= i < j < |steps| :: Less(steps[i].id, steps[j].id)
    requires id in Ids(steps) && forall other | other in Ids(steps) :: !Less(other, id)
    ensures |steps| > 0 && steps[0].id == id
  {
    hide Less;
    var i :| 0 <= i < |steps| && steps[i].id == id;
    assert steps[0].id in Ids(steps);
  }

  lemma LettersOrdered()
    ensures Less("a", "p") && Less("p", "z") && Less("a", "z")
    ensures !Less("z", "a") && !Less("a", "a") && !Less("p", "a")
  {
  }

  lemma WitnessMerged(def: Definition)
    requires IsMerged(Witness(), def)
    ensures |def.steps| > 0 && def.steps[0].id == "a"
    ensures def.edges == WitnessEdges()
  {
    hide Less, Ids;
    WitnessOld();
    LettersOrdered();
    LeastComesFirst(def.steps[..|def.steps| - 1], "a");
  }

  function WitnessEdges(): seq<Edge> {
    [Plain("p", "z"), Plain("z", "a"), Plain("a", "x"), Plain("x", "z")]
  }

  lemma WitnessPairs()
    ensures Pairs(WitnessEdges()) == {("p", "z"), ("z", "a"), ("a", "x"), ("x", "z")}
  {
    var edges := WitnessEdges();
    assert edges[0] == Plain("p", "z") && edges[1] == Plain("z", "a");
    assert edges[2] == Plain("a", "x") && edges[3] == Plain("x", "z");
  }

  lemma WitnessCyclic()
    ensures IsWalk(Pairs(WitnessEdges()), ["a", "x", "z", "a"]) && !Acyclic(Pairs(WitnessEdges()))
  {
    WitnessPairs();
    var p := ["a", "x", "z", "a"];
    assert IsWalk(Pairs(WitnessEdges()), p);
    WalkReaches(Pairs(WitnessEdges()), p, 0, 3);
  }

  /** Every cycle goes through a, where the search starts, so every finding closes on the old edge z -> a. */
  lemma WitnessCloses(def: Definition, f: Finding)
    requires def.edges == WitnessEdges() && |def.steps| > 0 && def.steps[0].id == "a"
    requires IsCycleFinding(def, f) && ClosesAtFirst(def, f)
    ensures f.edge == 1
  {
    var p := f.path;
    WitnessPairs();
    assert (p[0], p[1]) in Pairs(def.edges);
    assert (p[|p| - 2], p[|p| - 1]) in Pairs(def.edges);
    assert |p| > 2 ==> (p[1], p[2]) in Pairs(def.edges);
    assert "a" in p;
  }

  /** The closing-edge test as written lets this cycle through. */
  lemma CycleSlipsThrough(def: Definition, findings: seq<Finding>)
    requires IsMerged(Witness(), def) && IsSearchResult(def, findings)
    ensures Fits(Witness()) && WellFormed(def) && Acyclic(Old(Witness()))
    ensures MergedFits(Witness(), def, findings)
    ensures !Acyclic(Pairs(def.edges))
  {
    hide Fits, IsMerged, IsCycleFinding, ClosesAtFirst;
    WitnessOld();
    WitnessFits();
    WitnessMerged(def);
    WitnessParts(Witness());
    FittingPlanSplices(Witness(), def);
    WitnessCyclic();
    WitnessUnblamed(def, findings);
    WitnessPlain(def);
  }

  lemma WitnessParts(x: Input)
    requires Fits(x)
    ensures IdsFit(x) && EdgesFit(x)
  {
  }

  lemma WitnessUnblamed(def: Definition, findings: seq<Finding>)
    requires def.edges == WitnessEdges() && |def.steps| > 0 && def.steps[0].id == "a"
    requires forall f | f in findings :: IsCycleFinding(def, f) && ClosesAtFirst(def, f)
    ensures NoneBlamed(Witness(), def, findings)
  {
    WitnessOld();
    forall f | f in findings ensures f.edge == 1 {
      WitnessCloses(def, f);
    }
  }

  lemma WitnessPlain(def: Definition)
    ensures LoopsAnchored(Witness(), def) && RefsResolve(Witness(), def)
  {
    var plan := Witness().plan;
    assert !plan.edges[0].IsLoop() && !plan.edges[1].IsLoop();
    assert StepRefs(plan.steps[0]) == [];
  }

  /** The gate run on the witness: accepted, although the merged graph has a cycle. */
  method AcceptsCycle() returns (v: Verdict, ghost def: Definition)
    ensures v.OK() && Acyclic(Old(Witness()))
    ensures IsMerged(Witness(), def) && !Acyclic(Pairs(def.edges))
  {
    hide Fits, IsMerged, IdsFit, EdgesFit, MergedFits, IsSearchResult;
    ghost var findings;
    WitnessFits();
    WitnessParts(Witness());
    v, def, findings := ValidateExpansion(Witness());
    FittingPlanSplices(Witness(), def);
    CycleSlipsThrough(def, findings);
  }

  // ---------- a search result for the merged witness ----------

  /** What the code merges the witness into. */
  function MergedWitness(): Definition {
    var noop := StepOther("noop");
    Definition([Step("a", noop, NoConfig, []), Step("p", noop, NoConfig, []), Step("z", noop, NoConfig, []),
                Step("x", noop, NoConfig, [])],
               WitnessEdges())
  }

  lemma MergedWitnessIs()
    ensures IsMerged(Witness(), MergedWitness())
  {
    var x, def := Witness(), MergedWitness();
    var before := def.steps[..3];
    assert |def.steps| == 4 && |x.plan.steps| == 1;
    assert def.steps[3..] == x.plan.steps;
    assert def.edges == x.existingEdges + x.plan.edges;
    WitnessOld();
    MergedWitnessIds();
    MergedWitnessSorted();
    MergedWitnessKnown();
    hide Less, Ids, Witness, MergedWitness;
  }

  lemma MergedWitnessIds()
    ensures Ids(MergedWitness().steps[..3]) == {"a", "p", "z"}
  {
    var before := MergedWitness().steps[..3];
    assert before[0].id == "a" && before[1].id == "p" && before[2].id == "z";
  }

  lemma MergedWitnessSorted()
    ensures var before := MergedWitness().steps[..3];
            forall i, j | 0 <= i < j < |before| :: Less(before[i].id, before[j].id)
  {
    hide Less;
    LettersOrdered();
    var before := MergedWitness().steps[..3];
    assert before[0].id == "a" && before[1].id == "p" && before[2].id == "z";
  }

  lemma MergedWitnessKnown()
    ensures forall s | s in MergedWitness().steps[..3] ::
              s.id in Witness().existing && s == Step(s.id, Witness().existing[s.id].typ, NoConfig, [])
  {
    var before := MergedWitness().steps[..3];
    forall s | s in before ensures s.id in {"a", "p", "z"} && s == Step(s.id, StepOther("noop"), NoConfig, []) {
      var i :| 0 <= i < 3 && s == before[i];
    }
    WitnessTypes();
  }

  lemma WitnessTypes()
    ensures forall id | id in {"a", "p", "z"} ::
              id in Witness().existing && Witness().existing[id].typ == StepOther("noop")
  {
  }

  function WitnessFindings(): seq<Finding> {
    [Finding(1, ["a", "x", "z", "a"])]
  }

  lemma WitnessSearched()
    ensures IsSearchResult(MergedWitness(), WitnessFindings())
  {
    var def, f := MergedWitness(), WitnessFindings()[0];
    WitnessCyclic();
    assert f.path[..3] == ["a", "x", "z"];
    assert IsCycleFinding(def, f);
    WitnessRest();
  }

  lemma WitnessRest()
    ensures Acyclic(Unreported(MergedWitness(), Reported(WitnessFindings())))
  {
    var def := MergedWitness();
    assert WitnessFindings()[0] in WitnessFindings();
    var left := Unreported(def, Reported(WitnessFindings()));
    var layer: string -> int := (v: string) => if v == "z" then 2 else if v == "x" then 1 else 0;
    forall e | e in left ensures Increases(layer, (v: string) => 0, e.0, e.1) {
      var i :| 0 <= i < |def.edges| && NormalEdge(def, i) && i !in Reported(WitnessFindings())
               && e == (def.edges[i].from, def.edges[i].to);
    }
    RankedAcyclic(left, layer, (v: string) => 0);
  }
}
