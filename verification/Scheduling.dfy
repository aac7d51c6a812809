/** The scheduler's readiness, skip-propagation and join rule (internal/dag/ready.go) as a
    relation on run states, and what every run of it satisfies. */
module Scheduling {
  import opened Walks

  /** What readiness sees of a definition: its steps, normal edges, and `join any` steps. */
  datatype Net = Net(steps: set<string>, edges: set<(string, string)>, anyJoins: set<string>)

  datatype State = State(completed: set<string>, skipped: set<string>, failed: set<string>)
  {
    function Settled(): set<string> {
      completed + skipped + failed
    }
  }

  ghost predicate IsDag(net: Net) {
    Within(net.edges, net.steps) && Acyclic(net.edges)
  }

  /** The three input sets are disjoint sets of known steps. */
  predicate Consistent(net: Net, st: State) {
    && st.Settled() <= net.steps
    && st.completed !! st.skipped && st.completed !! st.failed && st.skipped !! st.failed
  }

  function Parents(net: Net, v: string): (ps: set<string>)
    ensures forall u :: u in ps <==> (u, v) in net.edges
  {
    set e | e in net.edges && e.1 == v :: e.0
  }

  predicate Pending(net: Net, st: State, v: string) {
    v in net.steps && v !in st.Settled()
  }

  // ---------- skip propagation ----------

  /** A pending step all of whose in-edges are skipped, given the skipped steps. */
  predicate Starved(net: Net, st: State, skipped: set<string>, v: string) {
    Pending(net, st, v) && Parents(net, v) != {} && Parents(net, v) <= skipped
  }

  ghost predicate SkipClosed(net: Net, st: State, skipped: set<string>) {
    st.skipped <= skipped && forall v :: Starved(net, st, skipped, v) ==> v in skipped
  }

  /** The least set that holds the skipped steps and every step it starves. */
  ghost function SkipSet(net: Net, st: State): set<string> {
    set v | v in net.steps + st.skipped && forall s: set<string> :: SkipClosed(net, st, s) ==> v in s
  }

  lemma SkipSetIsLeast(net: Net, st: State, s: set<string>)
    requires SkipClosed(net, st, s)
    ensures SkipSet(net, st) <= s
  {
  }

  lemma SkipSetIsClosed(net: Net, st: State)
    ensures SkipClosed(net, st, SkipSet(net, st))
  {
    forall v | Starved(net, st, SkipSet(net, st), v) ensures v in SkipSet(net, st) {
      forall s: set<string> | SkipClosed(net, st, s) ensures v in s {
        SkipSetIsLeast(net, st, s);
        assert Starved(net, st, s, v);
      }
    }
  }

  /** The least fixed point is a fixed point: nothing is skipped without a reason. */
  lemma SkipFixpoint(net: Net, st: State, v: string)
    ensures v in SkipSet(net, st) <==> v in st.skipped || Starved(net, st, SkipSet(net, st), v)
  {
    SkipSetIsClosed(net, st);
    if v in SkipSet(net, st) && v !in st.skipped && !Starved(net, st, SkipSet(net, st), v) {
      var s := SkipSet(net, st) - {v};
      forall w | Starved(net, st, s, w) ensures w in s {
        assert Starved(net, st, SkipSet(net, st), w);
      }
      SkipSetIsLeast(net, st, s);
      assert false;
    }
  }

  // ---------- readiness ----------

  ghost predicate Ready(net: Net, st: State, v: string) {
    && Pending(net, st, v)
    && v !in SkipSet(net, st)
    && (|| Parents(net, v) == {}
        || (if v in net.anyJoins then Parents(net, v) * st.completed != {}
            else Parents(net, v) <= st.completed + SkipSet(net, st) && Parents(net, v) * st.completed != {}))
  }

  /** The state with every propagated skip recorded. */
  ghost function Fold(net: Net, st: State): State {
    st.(skipped := SkipSet(net, st))
  }

  /** Recording the propagated skips changes no verdict: nothing new is skipped and the same steps are ready. */
  lemma FoldIsIdempotent(net: Net, st: State)
    ensures SkipSet(net, Fold(net, st)) == SkipSet(net, st)
    ensures forall v :: Ready(net, Fold(net, st), v) <==> Ready(net, st, v)
  {
    var folded := Fold(net, st);
    SkipSetIsClosed(net, st);
    forall v ensures !Starved(net, folded, SkipSet(net, st), v) {
      assert Starved(net, folded, SkipSet(net, st), v) ==> Starved(net, st, SkipSet(net, st), v);
    }
    SkipSetIsLeast(net, folded, SkipSet(net, st));
    SkipSetIsClosed(net, folded);
  }

  lemma FoldKeepsConsistency(net: Net, st: State)
    requires Consistent(net, st)
    ensures Consistent(net, Fold(net, st))
  {
    forall v | v in SkipSet(net, st) ensures v in net.steps && v !in st.completed && v !in st.failed {
      SkipFixpoint(net, st, v);
    }
  }

  // ---------- no hidden deadlock ----------

  lemma ParentsShallower(net: Net, v: string)
    requires IsDag(net)
    ensures forall u | u in Parents(net, v) :: u in net.steps && Depth(net.edges, u) < Depth(net.edges, v)
  {
    forall u | u in Parents(net, v) ensures u in net.steps && Depth(net.edges, u) < Depth(net.edges, v) {
      assert (u, v) in net.edges;
      DepthGrows(net.edges, u, v);
    }
  }

  /** A pending, unskipped step that is not ready has an unresolved parent. */
  lemma UnresolvedParent(net: Net, st: State, v: string) returns (u: string)
    requires Pending(net, st, v) && v !in SkipSet(net, st) && !Ready(net, st, v)
    ensures u in Parents(net, v) && u !in st.completed && u !in SkipSet(net, st)
  {
    SkipFixpoint(net, st, v);
    if Parents(net, v) * st.completed == {} {
      u :| u in Parents(net, v) && u !in SkipSet(net, st);
      assert u !in Parents(net, v) * st.completed;
    } else {
      u :| u in Parents(net, v) && u !in st.completed + SkipSet(net, st);
    }
  }

  /** When nothing is ready, whatever is still pending waits on a failed ancestor. */
  lemma {:induction false} StuckBehindFailure(net: Net, st: State, v: string) returns (u: string)
    requires IsDag(net)
    requires forall w :: !Ready(net, st, w)
    requires Pending(net, st, v) && v !in SkipSet(net, st)
    ensures u in st.failed && Reaches(net.edges, u, v)
    decreases Depth(net.edges, v)
  {
    var p := UnresolvedParent(net, st, v);
    EdgeReaches(net.edges, p, v);
    ParentsShallower(net, v);
    if p in st.failed {
      u := p;
    } else {
      SkipFixpoint(net, st, p);
      u := StuckBehindFailure(net, st, p);
      ReachesTrans(net.edges, u, p, v);
    }
  }

  /** Without failures some pending step is ready as long as one is pending after propagation. */
  lemma AlwaysProgress(net: Net, st: State, v: string)
    requires IsDag(net) && st.failed == {}
    requires Pending(net, st, v) && v !in SkipSet(net, st)
    ensures exists w :: Ready(net, st, w)
  {
    if forall w :: !Ready(net, st, w) {
      var u := StuckBehindFailure(net, st, v);
    }
  }

  // ---------- runs ----------

  datatype Outcome = Completes | Skips | Fails

  function Settle(st: State, v: string, o: Outcome): State {
    match o
    case Completes => st.(completed := st.completed + {v})
    case Skips => st.(skipped := st.skipped + {v})
    case Fails => st.(failed := st.failed + {v})
  }

  /** One scheduler move: record the propagated skips, or settle one ready step with its outcome. */
  ghost predicate Move(net: Net, outcome: string -> Outcome, st: State, st': State) {
    || st' == Fold(net, st)
    || exists v :: Ready(net, st, v) && st' == Settle(st, v, outcome(v))
  }

  ghost predicate IsRun(net: Net, outcome: string -> Outcome, run: seq<State>) {
    && |run| >= 1
    && forall i, j | 0 <= i < j < |run| && j == i + 1 :: Move(net, outcome, run[i], run[j])
  }

  /** Nothing is ready and nothing is left to propagate. */
  ghost predicate Terminal(net: Net, st: State) {
    (forall v :: !Ready(net, st, v)) && SkipSet(net, st) == st.skipped
  }

  lemma SettleKeepsSkips(net: Net, st: State, u: string, o: Outcome)
    requires Ready(net, st, u)
    ensures SkipSet(net, st) <= SkipSet(net, Settle(st, u, o))
  {
    var st' := Settle(st, u, o);
    SkipSetIsClosed(net, st');
    SkipSetIsClosed(net, st);
    var s := SkipSet(net, st) * SkipSet(net, st');
    forall w | Starved(net, st, s, w) ensures w in s {
      assert Starved(net, st, SkipSet(net, st), w);
      assert w != u;
      assert Starved(net, st', SkipSet(net, st'), w);
    }
    SkipSetIsLeast(net, st, s);
  }

  /** A ready step left alone stays ready through every move: propagation never takes it away. */
  lemma ReadyPersists(net: Net, outcome: string -> Outcome, st: State, st': State, v: string)
    requires Consistent(net, st) && Move(net, outcome, st, st')
    requires Ready(net, st, v) && v !in st'.Settled()
    ensures Ready(net, st', v)
  {
    if st' == Fold(net, st) {
      FoldIsIdempotent(net, st);
    } else {
      var u :| Ready(net, st, u) && st' == Settle(st, u, outcome(u));
      SettleKeepsSkips(net, st, u, outcome(u));
      SkipFixpoint(net, st', v);
      if Parents(net, v) != {} {
        var p :| p in Parents(net, v) * st.completed;
        SkipFixpoint(net, st', p);
      }
    }
  }

  // ---------- confluence ----------

  datatype Fate = Completed | Skipped | Failed | Blocked

  function FateOf(o: Outcome): Fate {
    match o
    case Completes => Completed
    case Skips => Skipped
    case Fails => Failed
  }

  /** What becomes of a step in every maximal run: decided by its parents' fates alone, in no particular order. */
  ghost function FateIn(net: Net, start: State, outcome: string -> Outcome, v: string): Fate
    requires IsDag(net)
    decreases Depth(net.edges, v)
  {
    ParentsShallower(net, v);
    if v in start.completed then Completed
    else if v in start.skipped then Skipped
    else if v in start.failed then Failed
    else if Parents(net, v) == {} then FateOf(outcome(v))
    else if forall u | u in Parents(net, v) :: FateIn(net, start, outcome, u) == Skipped then Skipped
    else if v in net.anyJoins then
      if exists u | u in Parents(net, v) :: FateIn(net, start, outcome, u) == Completed then FateOf(outcome(v))
      else Blocked
    else
      if forall u | u in Parents(net, v) :: FateIn(net, start, outcome, u) in {Completed, Skipped}
      then FateOf(outcome(v))
      else Blocked
  }

  /** The state has settled steps only as fated, on top of the start state. */
  ghost predicate Fated(net: Net, start: State, outcome: string -> Outcome, st: State)
    requires IsDag(net)
  {
    && start.completed <= st.completed && start.skipped <= st.skipped && start.failed <= st.failed
    && (forall v | v in st.completed :: FateIn(net, start, outcome, v) == Completed)
    && (forall v | v in st.skipped :: FateIn(net, start, outcome, v) == Skipped)
    && (forall v | v in st.failed :: FateIn(net, start, outcome, v) == Failed)
  }

  lemma StartFated(net: Net, start: State, outcome: string -> Outcome)
    requires IsDag(net) && Consistent(net, start)
    ensures Fated(net, start, outcome, start)
  {
  }

  lemma PropagatedSkipsFated(net: Net, start: State, outcome: string -> Outcome, st: State)
    requires IsDag(net) && Fated(net, start, outcome, st)
    ensures forall v | v in SkipSet(net, st) :: FateIn(net, start, outcome, v) == Skipped
  {
    var s := set v | v in net.steps + st.skipped && FateIn(net, start, outcome, v) == Skipped;
    forall v | Starved(net, st, s, v) ensures v in s {
      assert FateIn(net, start, outcome, v) == Skipped;
    }
    SkipSetIsLeast(net, st, s);
  }

  lemma ReadyFated(net: Net, start: State, outcome: string -> Outcome, st: State, v: string)
    requires IsDag(net) && Fated(net, start, outcome, st) && Ready(net, st, v)
    ensures FateIn(net, start, outcome, v) == FateOf(outcome(v))
  {
    PropagatedSkipsFated(net, start, outcome, st);
    if Parents(net, v) != {} {
      var p :| p in Parents(net, v) * st.completed;
      assert FateIn(net, start, outcome, p) == Completed;
    }
  }

  lemma MoveFated(net: Net, start: State, outcome: string -> Outcome, st: State, st': State)
    requires IsDag(net) && Fated(net, start, outcome, st) && Move(net, outcome, st, st')
    ensures Fated(net, start, outcome, st')
  {
    if st' == Fold(net, st) {
      PropagatedSkipsFated(net, start, outcome, st);
      SkipSetIsClosed(net, st);
    } else {
      var v :| Ready(net, st, v) && st' == Settle(st, v, outcome(v));
      ReadyFated(net, start, outcome, st, v);
    }
  }

  lemma {:induction false} RunFated(net: Net, outcome: string -> Outcome, run: seq<State>)
    requires IsDag(net) && IsRun(net, outcome, run) && Consistent(net, run[0])
    ensures Fated(net, run[0], outcome, run[|run| - 1])
  {
    if |run| == 1 {
      StartFated(net, run[0], outcome);
    } else {
      var prefix := run[..|run| - 1];
      RunFated(net, outcome, prefix);
      assert Move(net, outcome, run[|run| - 2], run[|run| - 1]);
      MoveFated(net, run[0], outcome, run[|run| - 2], run[|run| - 1]);
    }
  }

  /** In a terminal state the steps left pending are exactly the blocked ones. */
  lemma {:induction false} LeftoverBlocked(net: Net, start: State, outcome: string -> Outcome, st: State, v: string)
    requires IsDag(net) && Fated(net, start, outcome, st) && Terminal(net, st) && Pending(net, st, v)
    ensures FateIn(net, start, outcome, v) == Blocked
    decreases Depth(net.edges, v)
  {
    ParentsShallower(net, v);
    var p := UnresolvedParent(net, st, v);
    assert FateIn(net, start, outcome, p) in {Failed, Blocked} by {
      if p !in st.failed {
        LeftoverBlocked(net, start, outcome, st, p);
      }
    }
    if v in net.anyJoins {
      forall u | u in Parents(net, v) ensures FateIn(net, start, outcome, u) != Completed {
        assert u !in Parents(net, v) * st.completed;
        if u !in st.Settled() {
          LeftoverBlocked(net, start, outcome, st, u);
        }
      }
    }
  }

  /** The partition every maximal run ends in. */
  lemma TerminalIsFate(net: Net, start: State, outcome: string -> Outcome, st: State)
    requires IsDag(net) && Consistent(net, st) && Fated(net, start, outcome, st) && Terminal(net, st)
    ensures st.completed == set v | v in net.steps && FateIn(net, start, outcome, v) == Completed
    ensures st.skipped == set v | v in net.steps && FateIn(net, start, outcome, v) == Skipped
    ensures st.failed == set v | v in net.steps && FateIn(net, start, outcome, v) == Failed
    ensures forall v | v in net.steps :: Pending(net, st, v) <==> FateIn(net, start, outcome, v) == Blocked
  {
    forall v | Pending(net, st, v) ensures FateIn(net, start, outcome, v) == Blocked {
      LeftoverBlocked(net, start, outcome, st, v);
    }
  }

  lemma MoveKeepsConsistency(net: Net, outcome: string -> Outcome, st: State, st': State)
    requires Consistent(net, st) && Move(net, outcome, st, st')
    ensures Consistent(net, st')
  {
    if st' == Fold(net, st) {
      FoldKeepsConsistency(net, st);
    }
  }

  lemma {:induction false} RunKeepsConsistency(net: Net, outcome: string -> Outcome, run: seq<State>)
    requires IsRun(net, outcome, run) && Consistent(net, run[0])
    ensures Consistent(net, run[|run| - 1])
  {
    if |run| > 1 {
      RunKeepsConsistency(net, outcome, run[..|run| - 1]);
      assert Move(net, outcome, run[|run| - 2], run[|run| - 1]);
      MoveKeepsConsistency(net, outcome, run[|run| - 2], run[|run| - 1]);
    }
  }

  /** Whatever order ready steps are settled in, and whenever skips are recorded, all maximal runs end alike. */
  lemma Confluence(net: Net, outcome: string -> Outcome, run1: seq<State>, run2: seq<State>)
    requires IsDag(net) && IsRun(net, outcome, run1) && IsRun(net, outcome, run2)
    requires run1[0] == run2[0] && Consistent(net, run1[0])
    requires Terminal(net, run1[|run1| - 1]) && Terminal(net, run2[|run2| - 1])
    ensures run1[|run1| - 1] == run2[|run2| - 1]
  {
    RunFated(net, outcome, run1);
    RunFated(net, outcome, run2);
    RunKeepsConsistency(net, outcome, run1);
    RunKeepsConsistency(net, outcome, run2);
    TerminalIsFate(net, run1[0], outcome, run1[|run1| - 1]);
    TerminalIsFate(net, run1[0], outcome, run2[|run2| - 1]);
  }
}
