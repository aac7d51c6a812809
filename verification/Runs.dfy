/** Whole runs that mix scheduler moves with accepted expansions (internal/dag/expansion.go,
    internal/dag/ready.go, internal/store/expand.go): they stay within the caps, keep a
    compilable graph, and end. */
module Runs {
  import opened Walks
  import opened Counting
  import opened Definitions
  import opened Scheduling
  import opened Readiness
  import opened Cycles
  import opened Expansions
  import opened Gate
  import opened Conservativity

  /** The run graph, each step's nesting depth, the scheduler's state, and the expansions committed so far. */
  datatype Run = Run(def: Definition, depth: map<string, int>, st: State, expansions: nat)

  /** The input the store hands to the gate for this run. */
  ghost predicate Describes(caps: Caps, r: Run, x: Input) {
    && x.existing.Keys == Ids(r.def.steps) && x.existingEdges == r.def.edges
    && x.caps == caps && x.currentStepCount == |r.def.steps| && x.expansionsSoFar == r.expansions
  }

  /** The gate's verdict on x is clean. */
  ghost predicate Accepted(x: Input) {
    Fits(x) && exists def, findings :: IsMerged(x, def) && IsSearchResult(def, findings) && MergedFits(x, def, findings)
  }

  /** Appends the plan, one level deeper than its origin. */
  function Apply(r: Run, x: Input): Run {
    r.(def := Definition(r.def.steps + x.plan.steps, r.def.edges + x.plan.edges),
       depth := map id | id in r.depth.Keys + Ids(x.plan.steps) :: if id in r.depth then r.depth[id] else x.depth + 1,
       expansions := r.expansions + 1)
  }

  ghost predicate Scheduled(outcome: string -> Outcome, r: Run, r': Run) {
    r' == r.(st := r'.st) && r'.st != r.st && Move(NetOf(r.def), outcome, r.st, r'.st)
  }

  ghost predicate Expanded(caps: Caps, r: Run, r': Run) {
    exists x :: Describes(caps, r, x) && Accepted(x) && r' == Apply(r, x)
  }

  ghost predicate IsRunOf(caps: Caps, outcome: string -> Outcome, run: seq<Run>) {
    && |run| >= 1
    && forall i, j | 0 <= i < j < |run| && j == i + 1 ::
         Scheduled(outcome, run[i], run[j]) || Expanded(caps, run[i], run[j])
  }

  /** A compilable graph, a consistent state, and every guard respected. */
  ghost predicate Guarded(caps: Caps, r: Run) {
    && WellFormed(r.def) && Consistent(NetOf(r.def), r.st)
    && r.depth.Keys == Ids(r.def.steps) && (forall id | id in r.depth :: r.depth[id] <= caps.maxDepth)
    && |r.def.steps| <= caps.maxTotalSteps
    && r.expansions <= caps.maxExpansions
  }

  // ---------- expansions keep the guards ----------

  lemma IdsConcat(a: seq<Step>, b: seq<Step>)
    ensures Ids(a + b) == Ids(a) + Ids(b)
  {
  }

  lemma ExpandedWellFormed(caps: Caps, r: Run, x: Input)
    requires WellFormed(r.def) && Describes(caps, r, x) && IdsFit(x) && EdgesFit(x)
    ensures WellFormed(Apply(r, x).def)
  {
    var def := Apply(r, x).def;
    IdsConcat(r.def.steps, x.plan.steps);
    forall i, j | 0 <= i < j < |def.steps| ensures def.steps[i].id != def.steps[j].id {
      if j >= |r.def.steps| {
        var b := x.plan.steps[j - |r.def.steps|];
        assert def.steps[j] == b;
        if i >= |r.def.steps| {
          assert def.steps[i] == x.plan.steps[i - |r.def.steps|];
        } else {
          assert def.steps[i].id in Ids(r.def.steps);
        }
      }
    }
    forall k | 0 <= k < |def.edges| ensures def.edges[k].from in Ids(def.steps) && def.edges[k].to in Ids(def.steps) {
      if k >= |r.def.edges| {
        assert EdgeFits(x, Ids(x.plan.steps), x.plan.edges[k - |r.def.edges|]);
      }
    }
  }

  lemma ExpandedGuarded(caps: Caps, r: Run, x: Input)
    requires Guarded(caps, r) && Describes(caps, r, x) && Fits(x)
    ensures Guarded(caps, Apply(r, x))
  {
    ExpandedWellFormed(caps, r, x);
    IdsConcat(r.def.steps, x.plan.steps);
  }

  lemma ScheduledGuarded(caps: Caps, outcome: string -> Outcome, r: Run, r': Run)
    requires Guarded(caps, r) && Scheduled(outcome, r, r')
    ensures Guarded(caps, r')
  {
    MoveKeepsConsistency(NetOf(r.def), outcome, r.st, r'.st);
  }

  // ---------- every run ends ----------

  /** Expansions committed plus steps settled: what every move increases. */
  ghost function Progress(r: Run): nat {
    r.expansions + |r.st.Settled()|
  }

  lemma FoldSettles(net: Net, st: State)
    requires Consistent(net, st) && Fold(net, st) != st
    ensures st.Settled() < Fold(net, st).Settled()
  {
    FoldKeepsConsistency(net, st);
    SkipSetIsClosed(net, st);
    assert st.skipped < SkipSet(net, st);
    var v :| v in SkipSet(net, st) && v !in st.skipped;
    assert v in Fold(net, st).Settled() && v !in st.Settled();
  }

  lemma MoveSettles(net: Net, outcome: string -> Outcome, st: State, st': State)
    requires Consistent(net, st) && Move(net, outcome, st, st') && st' != st
    ensures |st.Settled()| < |st'.Settled()|
  {
    if st' == Fold(net, st) {
      FoldSettles(net, st);
    } else {
      var v :| Ready(net, st, v) && st' == Settle(st, v, outcome(v));
      assert st'.Settled() == st.Settled() + {v};
    }
    ProperSubsetSmaller(st.Settled(), st'.Settled());
  }

  lemma StepGuarded(caps: Caps, outcome: string -> Outcome, r: Run, r': Run)
    requires Guarded(caps, r) && (Scheduled(outcome, r, r') || Expanded(caps, r, r'))
    ensures Guarded(caps, r') && Progress(r) < Progress(r')
  {
    if Scheduled(outcome, r, r') {
      ScheduledGuarded(caps, outcome, r, r');
      MoveSettles(NetOf(r.def), outcome, r.st, r'.st);
    } else {
      var x :| Describes(caps, r, x) && Accepted(x) && r' == Apply(r, x);
      ExpandedGuarded(caps, r, x);
    }
  }

  lemma ProgressBounded(caps: Caps, r: Run)
    requires Guarded(caps, r)
    ensures Progress(r) <= caps.maxExpansions + caps.maxTotalSteps
  {
    SubsetCount(r.st.Settled(), Ids(r.def.steps));
    IdsCount(r.def.steps);
  }

  lemma {:induction false} IdsCount(steps: seq<Step>)
    ensures |Ids(steps)| <= |steps|
  {
    if steps != [] {
      var rest := steps[..|steps| - 1];
      IdsCount(rest);
      assert steps == rest + [steps[|steps| - 1]];
      assert Ids(steps) == Ids(rest) + {steps[|steps| - 1].id};
    }
  }

  /** Every state of every run respects the caps, and a run of n moves has made progress at least n:
      no run has more than maxExpansions + maxTotalSteps moves. */
  lemma {:induction false} RunsAreFinite(caps: Caps, outcome: string -> Outcome, run: seq<Run>)
    requires IsRunOf(caps, outcome, run) && Guarded(caps, run[0])
    ensures Guarded(caps, run[|run| - 1])
    ensures |run| - 1 + Progress(run[0]) <= Progress(run[|run| - 1]) <= caps.maxExpansions + caps.maxTotalSteps
  {
    if |run| > 1 {
      RunsAreFinite(caps, outcome, run[..|run| - 1]);
      StepGuarded(caps, outcome, run[|run| - 2], run[|run| - 1]);
    }
    ProgressBounded(caps, run[|run| - 1]);
  }

  // ---------- when the run graph stays acyclic ----------

  /** No detour the plan opens closes a cycle in the run graph. */
  ghost predicate DetourFree(x: Input) {
    Acyclic(Contracted(Old(x), x.existing.Keys, Delta(x), Added(x)))
  }

  /** An accepted expansion of a run keeps its graph a DAG exactly when it is detour free. */
  lemma ExpansionKeepsDagIff(caps: Caps, r: Run, x: Input)
    requires WellFormed(r.def) && Describes(caps, r, x) && Accepted(x)
    ensures IsDag(NetOf(Apply(r, x).def)) <==> DetourFree(x)
  {
    var def, findings :| IsMerged(x, def) && IsSearchResult(def, findings) && MergedFits(x, def, findings);
    AcceptedAcyclicIff(x, def, findings);
    FittingPlanSplices(x, def);
    PairsConcat(r.def.edges, x.plan.edges);
    ExpandedWellFormed(caps, r, x);
    PairsWithin(Apply(r, x).def.edges, Ids(Apply(r, x).def.steps));
  }

  /** A scheduler move, or an accepted expansion that is detour free. */
  ghost predicate DetourFreeMove(caps: Caps, outcome: string -> Outcome, r: Run, r': Run) {
    || Scheduled(outcome, r, r')
    || exists x :: Describes(caps, r, x) && Accepted(x) && DetourFree(x) && r' == Apply(r, x)
  }

  lemma DetourFreeMoveKeepsDag(caps: Caps, outcome: string -> Outcome, r: Run, r': Run)
    requires WellFormed(r.def) && IsDag(NetOf(r.def)) && DetourFreeMove(caps, outcome, r, r')
    ensures IsDag(NetOf(r'.def))
  {
    hide Describes, Accepted, DetourFree, IsDag, NetOf, WellFormed;
    if !Scheduled(outcome, r, r') {
      var x :| Describes(caps, r, x) && Accepted(x) && DetourFree(x) && r' == Apply(r, x);
      ExpansionKeepsDagIff(caps, r, x);
    }
  }

  /** Each expansion along the run is detour free. */
  ghost predicate DetourFreeRun(caps: Caps, outcome: string -> Outcome, run: seq<Run>) {
    forall i, j | 0 <= i < j < |run| && j == i + 1 :: DetourFreeMove(caps, outcome, run[i], run[j])
  }

  lemma {:induction false} DetourFreeRunsStayDags(caps: Caps, outcome: string -> Outcome, run: seq<Run>)
    requires IsRunOf(caps, outcome, run) && DetourFreeRun(caps, outcome, run)
    requires Guarded(caps, run[0]) && IsDag(NetOf(run[0].def))
    ensures IsDag(NetOf(run[|run| - 1].def))
  {
    hide DetourFreeMove, Scheduled, Expanded, IsDag, NetOf;
    if |run| > 1 {
      var prefix := run[..|run| - 1];
      DetourFreeRunsStayDags(caps, outcome, prefix);
      RunsAreFinite(caps, outcome, prefix);
      DetourFreeMoveKeepsDag(caps, outcome, run[|run| - 2], run[|run| - 1]);
    }
  }

  /** At no point of such a run can it hang without a failure: a pending step that propagation spares means a ready
      step. */
  lemma NoHiddenDeadlock(caps: Caps, outcome: string -> Outcome, run: seq<Run>, v: string)
    requires IsRunOf(caps, outcome, run) && DetourFreeRun(caps, outcome, run)
    requires Guarded(caps, run[0]) && IsDag(NetOf(run[0].def))
    requires var r := run[|run| - 1]; Pending(NetOf(r.def), r.st, v) && v !in SkipSet(NetOf(r.def), r.st)
    ensures var r := run[|run| - 1];
            || (exists w :: Ready(NetOf(r.def), r.st, w))
            || (exists u :: u in r.st.failed && Reaches(NetOf(r.def).edges, u, v))
  {
    var r := run[|run| - 1];
    DetourFreeRunsStayDags(caps, outcome, run);
    if forall w :: !Ready(NetOf(r.def), r.st, w) {
      var u := StuckBehindFailure(NetOf(r.def), r.st, v);
    }
  }

  // ---------- an expansion move disturbs nothing ----------

  function AnyJoins(steps: seq<Step>): set<string> {
    set s | s in steps && JoinModeOf(s) == Some(JoinAny) :: s.id
  }

  /** Appending a plan to the definition is splicing its delta into the net. */
  lemma ExpandedNet(caps: Caps, r: Run, x: Input)
    requires Describes(caps, r, x)
    ensures NetOf(Apply(r, x).def) == Spliced(NetOf(r.def), Delta(x), Added(x), AnyJoins(x.plan.steps))
  {
    IdsConcat(r.def.steps, x.plan.steps);
    PairsConcat(r.def.edges, x.plan.edges);
    assert AnyJoins(r.def.steps + x.plan.steps) == AnyJoins(r.def.steps) + AnyJoins(x.plan.steps);
  }

  /** An expansion made while the reported statuses hold leaves every existing step ready, skipped or waiting as it
      was. */
  lemma ExpansionMoveIsConservative(caps: Caps, r: Run, x: Input)
    requires Guarded(caps, r) && Describes(caps, r, x) && Fits(x) && StatusesMatch(x, NetOf(r.def), r.st)
    ensures var net, grown := NetOf(r.def), NetOf(Apply(r, x).def);
            && SkipSet(grown, Apply(r, x).st) == SkipSet(net, r.st)
            && forall v | v in net.steps :: Ready(grown, Apply(r, x).st, v) <==> Ready(net, r.st, v)
  {
    hide SkipSet, Ready, StatusesMatch;
    ExpandedNet(caps, r, x);
    assert AnyJoins(x.plan.steps) <= Added(x) && NetOf(r.def).anyJoins <= NetOf(r.def).steps;
    FittingPlanIsConservative(x, NetOf(r.def), r.st, AnyJoins(x.plan.steps));
  }

  // ---------- a run that the gate lets close a cycle ----------

  /** The run the gate's witness describes: p is running, z and a wait. */
  function WitnessRun(): Run {
    var noop := StepOther("noop");
    Run(Definition([Step("p", noop, NoConfig, []), Step("z", noop, NoConfig, []), Step("a", noop, NoConfig, [])],
                   [Plain("p", "z"), Plain("z", "a")]),
        map["p" := 0, "z" := 0, "a" := 0], State({}, {}, {}), 0)
  }

  lemma WitnessRunIds()
    ensures Ids(WitnessRun().def.steps) == {"a", "p", "z"} && DistinctIds(WitnessRun().def.steps)
  {
    var steps := WitnessRun().def.steps;
    assert steps[0].id == "p" && steps[1].id == "z" && steps[2].id == "a";
  }

  lemma WitnessRunGuarded()
    ensures Guarded(Resolve(None), WitnessRun()) && Describes(Resolve(None), WitnessRun(), Witness())
    ensures IsDag(NetOf(WitnessRun().def)) && NetOf(WitnessRun().def).edges == {("p", "z"), ("z", "a")}
  {
    hide Ids, Pairs, DistinctIds, Acyclic;
    WitnessRunIds();
    WitnessOld();
    var r := WitnessRun();
    assert r.def.edges == Witness().existingEdges;
    assert r.depth.Keys == {"a", "p", "z"};
  }

  /** Three steps in a row with nothing settled: the first is ready and the other two wait. */
  lemma ChainWaits(net: Net, st: State, p: string, z: string, a: string)
    requires net.steps == {a, p, z} && net.edges == {(p, z), (z, a)} && p != z && z != a && p != a
    requires st == State({}, {}, {})
    ensures SkipSet(net, st) == {}
    ensures Pending(net, st, z) && !Ready(net, st, z) && Pending(net, st, a) && !Ready(net, st, a)
  {
    assert Parents(net, p) == {} && Parents(net, z) == {p} && Parents(net, a) == {z};
    forall v ensures !Starved(net, st, {}, v) {
      assert v in Parents(net, v) || v !in Parents(net, v);
    }
    SkipSetIsLeast(net, st, {});
  }

  lemma WitnessStatuses()
    ensures StatusesMatch(Witness(), NetOf(WitnessRun().def), WitnessRun().st)
  {
    WitnessRunGuarded();
    WitnessRunIds();
    WitnessOld();
    WitnessPending();
    hide StatusesMatch, Pairs, Ids, Guarded;
    ChainStatuses(Witness(), NetOf(WitnessRun().def), WitnessRun().st, "p", "z", "a");
  }

  lemma ChainStatuses(x: Input, net: Net, st: State, p: string, z: string, a: string)
    requires net.steps == {a, p, z} && net.edges == {(p, z), (z, a)} && p != z && z != a && p != a
    requires st == State({}, {}, {}) && x.existing.Keys == net.steps && Old(x) == net.edges
    requires x.existing[p].status == AnchorActive && x.existing[z].status == x.existing[a].status == AnchorPending
    ensures StatusesMatch(x, net, st)
  {
    hide SkipSet, Ready, Pending;
    ChainWaits(net, st, p, z, a);
  }

  lemma WitnessPending()
    ensures Witness().existing["p"].status == AnchorActive
    ensures Witness().existing["z"].status == Witness().existing["a"].status == AnchorPending
  {
  }

  lemma WitnessAccepted()
    ensures Accepted(Witness())
  {
    hide IsMerged, IsSearchResult, MergedFits, Fits, Witness, MergedWitness, WitnessFindings;
    MergedWitnessIs();
    WitnessSearched();
    CycleSlipsThrough(MergedWitness(), WitnessFindings());
  }

  lemma WitnessGrows()
    ensures !IsDag(NetOf(Apply(WitnessRun(), Witness()).def))
  {
    hide Pairs, Ids;
    WitnessCyclic();
    assert Apply(WitnessRun(), Witness()).def.edges == WitnessEdges();
  }

  /** A guarded run over a DAG, told to the gate as it stands, takes an accepted expansion and is no longer a DAG. */
  lemma AcceptedGrowthCanCycle(outcome: string -> Outcome)
    ensures var r, x := WitnessRun(), Witness();
            && Guarded(Resolve(None), r) && IsDag(NetOf(r.def)) && Describes(Resolve(None), r, x)
            && StatusesMatch(x, NetOf(r.def), r.st) && Accepted(x)
            && IsRunOf(Resolve(None), outcome, [r, Apply(r, x)]) && !IsDag(NetOf(Apply(r, x).def))
  {
    hide StatusesMatch, Guarded, Accepted, Witness, WitnessRun, IsDag, Describes, Apply;
    WitnessRunGuarded();
    WitnessStatuses();
    WitnessAccepted();
    WitnessGrows();
    assert Expanded(Resolve(None), WitnessRun(), Apply(WitnessRun(), Witness()));
  }
}
