/** An accepted expansion does not disturb the scheduler: the existing steps that are ready or newly skipped
    are the same before and after the splice (internal/dag/expansion.go, internal/dag/ready.go). */
module Conservativity {
  import opened Walks
  import opened Definitions
  import opened Scheduling
  import opened Expansions
  import opened Gate

  /** Splicing delta and added steps (with their own join modes) into a net. */
  ghost function Spliced(net: Net, delta: set<(string, string)>, added: set<string>, addedJoins: set<string>): Net {
    Net(net.steps + added, net.edges + delta, net.anyJoins + addedJoins)
  }

  /** The anchors of a delta are in the state the gate demands: an edge leaves only steps that are neither
      settled nor about to be skipped, and enters only steps that are pending and not yet ready. */
  ghost predicate AnchorsMatch(net: Net, st: State, delta: set<(string, string)>) {
    && (forall e | e in delta && e.0 in net.steps :: e.0 !in SkipSet(net, st))
    && (forall e | e in delta && e.1 in net.steps ::
          Pending(net, st, e.1) && e.1 !in SkipSet(net, st) && !Ready(net, st, e.1))
  }

  ghost predicate IsExpansion(net: Net, st: State, delta: set<(string, string)>, added: set<string>,
                              addedJoins: set<string>)
  {
    && IsSplice(net.edges, net.steps, delta, added)
    && addedJoins <= added && net.anyJoins <= net.steps
    && Consistent(net, st) && AnchorsMatch(net, st, delta)
  }

  /** A step the delta does not enter keeps its parents. */
  lemma ParentsKept(net: Net, delta: set<(string, string)>, added: set<string>, joins: set<string>, v: string)
    requires IsSplice(net.edges, net.steps, delta, added)
    requires v in net.steps && forall e | e in delta :: e.1 != v
    ensures Parents(Spliced(net, delta, added, joins), v) == Parents(net, v)
  {
  }

  /** A step the delta enters gains only added parents. */
  lemma ParentsGained(net: Net, delta: set<(string, string)>, added: set<string>, joins: set<string>, v: string)
    requires IsSplice(net.edges, net.steps, delta, added) && v in net.steps
    ensures Parents(net, v) <= Parents(Spliced(net, delta, added, joins), v) <= Parents(net, v) + added
  {
  }

  lemma SkipsNotGained(net: Net, st: State, delta: set<(string, string)>, added: set<string>, joins: set<string>)
    requires IsExpansion(net, st, delta, added, joins)
    ensures SkipSet(Spliced(net, delta, added, joins), st) <= SkipSet(net, st)
  {
    var net', s := Spliced(net, delta, added, joins), SkipSet(net, st);
    SkipSetIsClosed(net, st);
    forall v | Starved(net', st, s, v) ensures v in s {
      if v !in added {
        forall e | e in delta ensures e.1 != v {
          assert e.1 == v ==> e.0 in Parents(net', v) && e.0 in added;
        }
        ParentsKept(net, delta, added, joins, v);
        assert Starved(net, st, s, v);
      }
    }
    SkipSetIsLeast(net', st, s);
  }

  lemma SkipsNotLost(net: Net, st: State, delta: set<(string, string)>, added: set<string>, joins: set<string>)
    requires IsExpansion(net, st, delta, added, joins)
    ensures SkipSet(net, st) <= SkipSet(Spliced(net, delta, added, joins), st)
  {
    var net' := Spliced(net, delta, added, joins);
    var s := SkipSet(net, st) * SkipSet(net', st);
    SkipSetIsClosed(net, st);
    SkipSetIsClosed(net', st);
    forall v | Starved(net, st, s, v) ensures v in s {
      assert Starved(net, st, SkipSet(net, st), v);
      ParentsKept(net, delta, added, joins, v);
      assert Starved(net', st, SkipSet(net', st), v);
    }
    SkipSetIsLeast(net, st, s);
  }

  /** Skip propagation and readiness agree on every existing step before and after the splice,
      and no injected step is skipped. */
  lemma ExpansionIsConservative(net: Net, st: State, delta: set<(string, string)>, added: set<string>,
                                joins: set<string>)
    requires IsExpansion(net, st, delta, added, joins)
    ensures SkipSet(Spliced(net, delta, added, joins), st) == SkipSet(net, st)
    ensures forall v | v in net.steps :: Ready(Spliced(net, delta, added, joins), st, v) <==> Ready(net, st, v)
  {
    SkipsNotGained(net, st, delta, added, joins);
    SkipsNotLost(net, st, delta, added, joins);
    forall v | v in net.steps ensures Ready(Spliced(net, delta, added, joins), st, v) <==> Ready(net, st, v) {
      if forall e | e in delta :: e.1 != v {
        ParentsKept(net, delta, added, joins, v);
      } else {
        EnteredStaysUnready(net, st, delta, added, joins, v);
      }
    }
  }

  lemma EnteredStaysUnready(net: Net, st: State, delta: set<(string, string)>, added: set<string>, joins: set<string>,
                            v: string)
    requires IsExpansion(net, st, delta, added, joins) && v in net.steps
    requires exists e :: e in delta && e.1 == v
    requires SkipSet(Spliced(net, delta, added, joins), st) == SkipSet(net, st)
    ensures !Ready(Spliced(net, delta, added, joins), st, v)
  {
    var net' := Spliced(net, delta, added, joins);
    var e :| e in delta && e.1 == v;
    ParentsGained(net, delta, added, joins, v);
    SkipFixpoint(net, st, e.0);
    assert e.0 in Parents(net', v) && e.0 in added;
    assert Parents(net', v) * st.completed == Parents(net, v) * st.completed;
  }

  /** The anchor statuses the input reports agree with the run state. */
  ghost predicate StatusesMatch(x: Input, net: Net, st: State) {
    && net.steps == x.existing.Keys && net.edges == Old(x)
    && (forall id | id in x.existing && x.existing[id].status != AnchorTerminal :: id !in SkipSet(net, st))
    && (forall id | id in x.existing && x.existing[id].status == AnchorPending ::
          Pending(net, st, id) && !Ready(net, st, id))
  }

  /** Any plan that fits, spliced while the reported statuses hold, leaves every existing verdict as it was. */
  lemma FittingPlanIsConservative(x: Input, net: Net, st: State, joins: set<string>)
    requires SoundRun(x) && IdsFit(x) && EdgesFit(x)
    requires StatusesMatch(x, net, st) && Consistent(net, st) && net.anyJoins <= net.steps && joins <= Added(x)
    ensures SkipSet(Spliced(net, Delta(x), Added(x), joins), st) == SkipSet(net, st)
    ensures forall v | v in net.steps :: Ready(Spliced(net, Delta(x), Added(x), joins), st, v) <==> Ready(net, st, v)
  {
    PlanSplices(x);
    forall e | e in Delta(x)
      ensures e.0 in net.steps ==> e.0 !in SkipSet(net, st)
      ensures e.1 in net.steps ==> Pending(net, st, e.1) && e.1 !in SkipSet(net, st) && !Ready(net, st, e.1)
    {
      var k :| 0 <= k < |x.plan.edges| && !x.plan.edges[k].IsLoop() && e == (x.plan.edges[k].from, x.plan.edges[k].to);
      assert EdgeFits(x, Ids(x.plan.steps), x.plan.edges[k]);
    }
    ExpansionIsConservative(net, st, Delta(x), Added(x), joins);
  }
}
