/** Runs that grow by loop iterations and map fan-outs (internal/dag/loopexpand.go, internal/dag/mapexpand.go,
    internal/dag/expansion.go): whatever mix of them is accepted, the run graph stays a DAG. */
module Growth {
  import opened Walks
  import opened Definitions
  import opened Scheduling
  import opened Readiness
  import opened Cycles
  import opened Expansions
  import opened Gate
  import opened Runs
  import opened Unrolling
  import Loops
  import LoopGate
  import Fanout
  import MapGate

  /** The plan is the next iteration of a valid loop whose earlier iterations the run holds. */
  ghost predicate IsIteration(x: Input) {
    exists def, loopEdge, entries, k: nat ::
      && k >= 1 && LoopGate.ValidLoop(def, loopEdge) && LoopGate.Unrolls(x, def, loopEdge, entries, k)
      && HoldsIterations(Loops.SpecOf(def, loopEdge), k - 1, Old(x), x.existing.Keys)
  }

  /** The plan is the fan-out of a valid template by a map step of the run. */
  ghost predicate IsFanout(x: Input) {
    exists tmpl, entries, sink, mapStep, n: nat ::
      && MapGate.ValidTemplate(tmpl, sink, mapStep, n) && MapGate.FansOut(x, tmpl, entries, sink, mapStep, n)
      && mapStep in x.existing
  }

  lemma PlanFresh(x: Input)
    requires IdsFit(x)
    ensures x.existing.Keys !! Added(x)
  {
  }

  lemma IterationStaysAcyclic(x: Input)
    requires IsIteration(x) && SoundRun(x) && IdsFit(x) && Acyclic(Old(x))
    ensures Acyclic(Old(x) + Delta(x))
  {
    hide LoopGate.ValidLoop, LoopGate.Unrolls, HoldsIterations, EdgesAt, StepsAt, DeltaAt, Clones, LoopSpec.Valid,
      IdsFit;
    var def, loopEdge, entries, k: nat :|
      && k >= 1 && LoopGate.ValidLoop(def, loopEdge) && LoopGate.Unrolls(x, def, loopEdge, entries, k)
      && HoldsIterations(Loops.SpecOf(def, loopEdge), k - 1, Old(x), x.existing.Keys);
    PlanFresh(x);
    LoopGate.UnrolledPlan(x, def, loopEdge, entries, k);
    IterationKeepsAcyclic(Loops.SpecOf(def, loopEdge), k - 1, Old(x), x.existing.Keys);
  }

  lemma FanoutStaysAcyclic(x: Input)
    requires IsFanout(x) && SoundRun(x) && IdsFit(x) && Acyclic(Old(x))
    ensures Acyclic(Old(x) + Delta(x))
  {
    var tmpl, entries, sink, mapStep, n: nat :|
      && MapGate.ValidTemplate(tmpl, sink, mapStep, n) && MapGate.FansOut(x, tmpl, entries, sink, mapStep, n)
      && mapStep in x.existing;
    PlanFresh(x);
    PairsWithin(x.existingEdges, x.existing.Keys);
    MapGate.FanoutDelta(x, tmpl, entries, sink, mapStep, n);
    Fanout.FanoutKeepsAcyclic(MapGate.SpecOf(tmpl, sink, mapStep, n), Old(x), x.existing.Keys);
  }

  /** An accepted plan of either generator opens no detour that closes a cycle. */
  lemma GeneratedIsDetourFree(caps: Caps, r: Run, x: Input)
    requires WellFormed(r.def) && IsDag(NetOf(r.def)) && Describes(caps, r, x) && Accepted(x)
    requires IsIteration(x) || IsFanout(x)
    ensures DetourFree(x) && IsDag(NetOf(Apply(r, x).def))
  {
    hide IsIteration, IsFanout, Accepted, DetourFree;
    AcceptedFits(x);
    ExpandedWellFormed(caps, r, x);
    PairsWithin(Apply(r, x).def.edges, Ids(Apply(r, x).def.steps));
    PairsConcat(r.def.edges, x.plan.edges);
    if IsIteration(x) {
      IterationStaysAcyclic(x);
    } else {
      FanoutStaysAcyclic(x);
    }
    ExpansionKeepsDagIff(caps, r, x);
  }

  lemma AcceptedFits(x: Input)
    requires Accepted(x)
    ensures IdsFit(x) && EdgesFit(x)
  {
  }

  /** One move of a run that grows only by generated plans. */
  ghost predicate GeneratedMove(caps: Caps, outcome: string -> Outcome, r: Run, r': Run) {
    || Scheduled(outcome, r, r')
    || exists x :: Describes(caps, r, x) && Accepted(x) && (IsIteration(x) || IsFanout(x)) && r' == Apply(r, x)
  }

  ghost predicate IsGeneratedRun(caps: Caps, outcome: string -> Outcome, run: seq<Run>) {
    && |run| >= 1
    && forall i, j | 0 <= i < j < |run| && j == i + 1 :: GeneratedMove(caps, outcome, run[i], run[j])
  }

  lemma GeneratedMoveKeepsDag(caps: Caps, outcome: string -> Outcome, r: Run, r': Run)
    requires Guarded(caps, r) && IsDag(NetOf(r.def)) && GeneratedMove(caps, outcome, r, r')
    ensures Guarded(caps, r') && IsDag(NetOf(r'.def))
    ensures Scheduled(outcome, r, r') || Expanded(caps, r, r')
  {
    hide IsIteration, IsFanout, Accepted, Guarded, Describes;
    if !Scheduled(outcome, r, r') {
      var x :| Describes(caps, r, x) && Accepted(x) && (IsIteration(x) || IsFanout(x)) && r' == Apply(r, x);
      GuardedCompiles(caps, r);
      GeneratedIsDetourFree(caps, r, x);
    }
    StepGuarded(caps, outcome, r, r');
  }

  lemma GuardedCompiles(caps: Caps, r: Run)
    requires Guarded(caps, r)
    ensures WellFormed(r.def)
  {
  }

  /** Any number of loops and maps, unrolled and fanned out in any order, keep the run graph a DAG and within the
      caps. */
  lemma {:induction false} GeneratedRunsStayDags(caps: Caps, outcome: string -> Outcome, run: seq<Run>)
    requires IsGeneratedRun(caps, outcome, run) && Guarded(caps, run[0]) && IsDag(NetOf(run[0].def))
    ensures IsRunOf(caps, outcome, run)
    ensures Guarded(caps, run[|run| - 1]) && IsDag(NetOf(run[|run| - 1].def))
  {
    hide Guarded, GeneratedMove, Scheduled, Expanded, IsDag;
    if |run| > 1 {
      var prefix := run[..|run| - 1];
      GeneratedRunsStayDags(caps, outcome, prefix);
      var i, j := |run| - 2, |run| - 1;
      assert GeneratedMove(caps, outcome, run[i], run[j]);
      GeneratedMoveKeepsDag(caps, outcome, run[i], run[j]);
      assert forall i, j | 0 <= i < j < |prefix| && j == i + 1 ::
          Scheduled(outcome, prefix[i], prefix[j]) || Expanded(caps, prefix[i], prefix[j]);
    }
  }

  /** Such a run never hangs without a failure. */
  lemma GeneratedRunsNeverHang(caps: Caps, outcome: string -> Outcome, run: seq<Run>, v: string)
    requires IsGeneratedRun(caps, outcome, run) && Guarded(caps, run[0]) && IsDag(NetOf(run[0].def))
    requires var r := run[|run| - 1]; Pending(NetOf(r.def), r.st, v) && v !in SkipSet(NetOf(r.def), r.st)
    ensures var r := run[|run| - 1];
            || (exists w :: Ready(NetOf(r.def), r.st, w))
            || (exists u :: u in r.st.failed && Reaches(NetOf(r.def).edges, u, v))
  {
    var r := run[|run| - 1];
    GeneratedRunsStayDags(caps, outcome, run);
    if forall w :: !Ready(NetOf(r.def), r.st, w) {
      var u := StuckBehindFailure(NetOf(r.def), r.st, v);
    }
  }
}
