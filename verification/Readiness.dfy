/** ReadySteps (internal/dag/ready.go): one topological pass of skip propagation, then the
    readiness test, refining the scheduling relation. */
module Readiness {
  import opened Walks
  import opened Counting
  import opened Definitions
  import opened Graphs
  import opened TopoOrders
  import opened Scheduling

  datatype StepState = IsPending | IsCompleted | IsSkipped | IsFailed

  datatype ReadyError =
    | BadSets(unknown: set<string>, overlap: set<string>)
    | CyclicGraph

  /** The join mode of a join step; a join without config gets the stricter rule of any other step. */
  function JoinModeOf(s: Step): Option<JoinMode> {
    if s.typ == StepJoin && s.config.JoinConfig? then Some(s.config.mode) else None
  }

  function NetOf(def: Definition): Net {
    Net(Ids(def.steps), Pairs(def.edges), set s | s in def.steps && JoinModeOf(s) == Some(JoinAny) :: s.id)
  }

  /** Some normal edge leads from u to v. */
  ghost predicate Feeds(edges: seq<Edge>, u: string, v: string) {
    exists k :: 0 <= k < |edges| && edges[k].typ == Normal && edges[k].from == u && edges[k].to == v
  }

  ghost function ReadySet(net: Net, st: State): set<string> {
    set v | v in net.steps && Ready(net, st, v)
  }

  lemma FeedsExact(edges: seq<Edge>, u: string, v: string)
    ensures Feeds(edges, u, v) <==> (u, v) in Pairs(edges)
  {
  }

  lemma JoinsExact(def: Definition, s: Step)
    requires DistinctIds(def.steps) && s in def.steps
    ensures s.id in NetOf(def).anyJoins <==> s.typ == StepJoin && s.config == JoinConfig(JoinAny)
  {
    forall t | t in def.steps && t.id == s.id ensures t == s {
      var i, j :| 0 <= i < |def.steps| && def.steps[i] == s && 0 <= j < |def.steps| && def.steps[j] == t;
      assert i == j;
    }
  }

  lemma FedBy(def: Definition, v: string, done: set<string>)
    ensures var parents := Parents(NetOf(def), v);
            && (parents == {} <==> forall u :: !Feeds(def.edges, u, v))
            && (parents * done != {} <==> exists u :: Feeds(def.edges, u, v) && u in done)
            && (parents <= done <==> forall u | Feeds(def.edges, u, v) :: u in done)
  {
    forall u ensures Feeds(def.edges, u, v) <==> u in Parents(NetOf(def), v) {
      FeedsExact(def.edges, u, v);
    }
    hide Feeds, NetOf;
    var both := Parents(NetOf(def), v) * done;
    assert both != {} ==> exists u :: u in both;
    assert forall u :: u in both <==> Feeds(def.edges, u, v) && u in done;
  }

  lemma StepKnown(def: Definition, s: Step)
    requires s in def.steps
    ensures s.id in NetOf(def).steps
  {
  }

  /** When a step is skipped: it was, or it is unsettled and every step that feeds it is skipped, one at least. */
  lemma SkippedByEdges(def: Definition, st: State, v: string)
    requires v in Ids(def.steps)
    ensures var skipped := SkipSet(NetOf(def), st);
            v in skipped <==>
            || v in st.skipped
            || (&& v !in st.completed && v !in st.failed && (exists u :: Feeds(def.edges, u, v))
                && forall u | Feeds(def.edges, u, v) :: u in skipped)
  {
    hide Feeds, SkipSet, Parents;
    SkipFixpoint(NetOf(def), st, v);
    FedBy(def, v, SkipSet(NetOf(def), st));
  }

  /** When a step is ready, from its own config: a join of mode any with its first completed parent, every other step
      once all its parents are completed or skipped, one of them completed; an entry step at once. */
  lemma ReadyByConfig(def: Definition, st: State, s: Step)
    requires DistinctIds(def.steps) && s in def.steps
    ensures var skipped := SkipSet(NetOf(def), st);
            s.id in ReadySet(NetOf(def), st) <==>
            && s.id !in st.completed && s.id !in st.failed && s.id !in skipped
            && (|| (forall u :: !Feeds(def.edges, u, s.id))
                || (&& (exists u :: Feeds(def.edges, u, s.id) && u in st.completed)
                    && (|| (s.typ == StepJoin && s.config == JoinConfig(JoinAny))
                        || forall u | Feeds(def.edges, u, s.id) :: u in st.completed || u in skipped)))
  {
    hide Feeds, SkipSet, Parents, Starved, NetOf;
    var net := NetOf(def);
    JoinsExact(def, s);
    FedBy(def, s.id, st.completed);
    FedBy(def, s.id, st.completed + SkipSet(net, st));
    SkipFixpoint(net, st, s.id);
    StepKnown(def, s);
  }

  /** The members of ids among the first n steps, in declaration order. */
  ghost function Listed(steps: seq<Step>, n: nat, ids: set<string>): seq<string>
    requires n <= |steps|
  {
    if n == 0 then []
    else Listed(steps, n - 1, ids) + if steps[n - 1].id in ids then [steps[n - 1].id] else []
  }

  function StateIn(st: State, id: string): StepState {
    if id in st.completed then IsCompleted
    else if id in st.skipped then IsSkipped
    else if id in st.failed then IsFailed
    else IsPending
  }

  /** Ids in more than one of the sets. */
  function Overlap(st: State): set<string> {
    st.completed * st.skipped + st.completed * st.failed + st.skipped * st.failed
  }

  lemma ParentsListed(g: Graph, s: nat)
    requires g.Valid() && s < g.Size()
    ensures |g.inNormal| == g.Size()
    ensures forall e | e in g.inNormal[s] :: e < |g.def.edges| && g.IdAt(g.From(e)) in Parents(NetOf(g.def), g.IdAt(s))
    ensures forall u | u in Parents(NetOf(g.def), g.IdAt(s)) :: exists e :: e in g.inNormal[s] && g.IdAt(g.From(e)) == u
  {
    g.AdjacencyExact(s);
    forall u | u in Parents(NetOf(g.def), g.IdAt(s)) ensures exists e :: e in g.inNormal[s] && g.IdAt(g.From(e)) == u {
      assert (u, g.IdAt(s)) in Pairs(g.def.edges);
      var e: nat :|
        && e < |g.def.edges| && !g.def.edges[e].IsLoop()
        && (u, g.IdAt(s)) == (g.def.edges[e].from, g.def.edges[e].to);
      assert g.Normal(e) && e in g.inNormal[s];
    }
  }

  /** The sources of a step's in-edges are known steps. */
  ghost predicate Inputs(g: Graph, states: seq<StepState>, s: nat) {
    s < |g.inNormal| && forall e | e in g.inNormal[s] :: g.From(e) < |states|
  }

  /** Whether every in-edge of a step is skipped. */
  method AllSkipped(g: Graph, states: seq<StepState>, s: nat) returns (yes: bool)
    requires Inputs(g, states, s)
    ensures yes <==> forall e | e in g.inNormal[s] :: states[g.From(e)] == IsSkipped
  {
    for k := 0 to |g.inNormal[s]|
      invariant forall j | 0 <= j < k :: states[g.From(g.inNormal[s][j])] == IsSkipped
    {
      if states[g.From(g.inNormal[s][k])] != IsSkipped {
        return false;
      }
    }
    yes := true;
  }

  /** Whether some in-edge has fired, and whether all are resolved. */
  method Fired(g: Graph, states: seq<StepState>, s: nat) returns (any: bool, resolved: bool)
    requires Inputs(g, states, s)
    ensures any <==> exists e :: e in g.inNormal[s] && states[g.From(e)] == IsCompleted
    ensures resolved <==> forall e | e in g.inNormal[s] :: states[g.From(e)] in {IsCompleted, IsSkipped}
  {
    any, resolved := false, true;
    for k := 0 to |g.inNormal[s]|
      invariant any <==> exists j :: 0 <= j < k && states[g.From(g.inNormal[s][j])] == IsCompleted
      invariant resolved <==> forall j | 0 <= j < k :: states[g.From(g.inNormal[s][j])] in {IsCompleted, IsSkipped}
    {
      match states[g.From(g.inNormal[s][k])]
      case IsCompleted => any := true;
      case IsSkipped =>
      case _ => resolved := false;
    }
  }

  /** Steps already passed hold their propagated state, the others their given one. */
  ghost predicate Propagated(g: Graph, st: State, states: seq<StepState>, passed: seq<nat>) {
    && |states| == g.Size()
    && forall v: nat | v < g.Size() ::
         states[v] == StateIn(if v in passed then Fold(NetOf(g.def), st) else st, g.IdAt(v))
  }

  lemma InputsKnown(g: Graph, states: seq<StepState>, s: nat)
    requires g.Valid() && s < g.Size() && |states| == g.Size()
    ensures Inputs(g, states, s)
  {
    g.AdjacencyExact(s);
  }

  /** What a passed step's state says in terms of the scheduling relation. */
  lemma PassedState(g: Graph, st: State, states: seq<StepState>, passed: seq<nat>, v: nat)
    requires Propagated(g, st, states, passed) && Consistent(NetOf(g.def), st) && v < g.Size() && v in passed
    ensures states[v] == IsSkipped <==> g.IdAt(v) in SkipSet(NetOf(g.def), st)
    ensures states[v] == IsCompleted <==> g.IdAt(v) in st.completed
  {
    FoldKeepsConsistency(NetOf(g.def), st);
  }

  /** A step's in-edges look skipped exactly when its parents are, provided they are passed. */
  lemma SkippedParents(g: Graph, st: State, states: seq<StepState>, passed: seq<nat>, s: nat)
    requires g.Valid() && s < g.Size() && Propagated(g, st, states, passed) && Consistent(NetOf(g.def), st)
    requires forall e | e in g.inNormal[s] :: g.From(e) in passed
    ensures Inputs(g, states, s)
    ensures Parents(NetOf(g.def), g.IdAt(s)) == {} <==> g.inNormal[s] == []
    ensures Parents(NetOf(g.def), g.IdAt(s)) <= SkipSet(NetOf(g.def), st) <==>
            forall e | e in g.inNormal[s] :: states[g.From(e)] == IsSkipped
  {
    hide SkipSet, Consistent, NetOf;
    InputsKnown(g, states, s);
    ParentsListed(g, s);
    NoParents(g, s);
    g.AdjacencyExact(s);
    forall e | e in g.inNormal[s]
      ensures states[g.From(e)] == IsSkipped <==> g.IdAt(g.From(e)) in SkipSet(NetOf(g.def), st)
    {
      PassedState(g, st, states, passed, g.From(e));
    }
  }

  /** Passing one more step keeps the propagation, whether or not the step turns out skipped. */
  lemma PassStep(g: Graph, st: State, states: seq<StepState>, passed: seq<nat>, s: nat, skip: bool)
    requires g.Valid() && s < g.Size() && Propagated(g, st, states, passed) && Consistent(NetOf(g.def), st)
    requires s !in passed && forall e | e in g.inNormal[s] :: g.From(e) in passed
    requires skip <==>
             && states[s] == IsPending && g.inNormal[s] != []
             && forall e | e in g.inNormal[s] :: states[g.From(e)] == IsSkipped
    ensures skip <==> g.IdAt(s) in SkipSet(NetOf(g.def), st) - st.skipped
    ensures Propagated(g, st, if skip then states[s := IsSkipped] else states, passed + [s])
  {
    hide Graph.Valid, Propagated, Consistent, SkipSet, NetOf, Parents;
    PassVerdict(g, st, states, passed, s);
    PassState(g, st, states, passed, s, skip);
  }

  /** A step about to be passed is newly skipped exactly when it is pending and all of its in-edges are skipped. */
  lemma PassVerdict(g: Graph, st: State, states: seq<StepState>, passed: seq<nat>, s: nat)
    requires g.Valid() && s < g.Size() && Propagated(g, st, states, passed) && Consistent(NetOf(g.def), st)
    requires s !in passed && forall e | e in g.inNormal[s] :: g.From(e) in passed
    ensures Inputs(g, states, s)
    ensures g.IdAt(s) in SkipSet(NetOf(g.def), st) - st.skipped <==>
            && states[s] == IsPending && g.inNormal[s] != []
            && forall e | e in g.inNormal[s] :: states[g.From(e)] == IsSkipped
  {
    SkippedParents(g, st, states, passed, s);
    SkipFixpoint(NetOf(g.def), st, g.IdAt(s));
    PendingState(g, st, states, passed, s);
    hide Propagated, SkipSet, NetOf, Graph.Valid, Consistent;
  }

  lemma PendingState(g: Graph, st: State, states: seq<StepState>, passed: seq<nat>, s: nat)
    requires g.Valid() && s < g.Size() && Propagated(g, st, states, passed) && s !in passed
    ensures states[s] == IsPending <==> Pending(NetOf(g.def), st, g.IdAt(s))
  {
    assert g.IdAt(s) in NetOf(g.def).steps;
  }

  lemma PassState(g: Graph, st: State, states: seq<StepState>, passed: seq<nat>, s: nat, skip: bool)
    requires s < g.Size() && Propagated(g, st, states, passed) && Consistent(NetOf(g.def), st) && s !in passed
    requires skip <==> g.IdAt(s) in SkipSet(NetOf(g.def), st) - st.skipped
    ensures Propagated(g, st, if skip then states[s := IsSkipped] else states, passed + [s])
  {
    FoldKeepsConsistency(NetOf(g.def), st);
    hide SkipSet, NetOf;
  }

  /** Skip propagation in topological order: one pass reaches the least fixed point. */
  method Propagate(g: Graph, st: State, given: seq<StepState>, order: seq<nat>)
    returns (states: seq<StepState>, newly: seq<nat>)
    requires g.Valid() && Consistent(NetOf(g.def), st) && IsTopological(g, order)
    requires Propagated(g, st, given, [])
    ensures Propagated(g, st, states, order)
    ensures Distinct(newly)
    ensures forall v: nat :: v in newly <==> v < g.Size() && g.IdAt(v) in SkipSet(NetOf(g.def), st) - st.skipped
  {
    hide SkipSet, NetOf, Graph.Valid;
    states, newly := given, [];
    for i := 0 to |order|
      invariant Propagated(g, st, states, order[..i])
      invariant Distinct(newly)
      invariant forall v: nat :: v in newly <==> v in order[..i] && g.IdAt(v) in SkipSet(NetOf(g.def), st) - st.skipped
    {
      var s := order[i];
      SourcesPassed(g, order, i);
      assert order[..i + 1] == order[..i] + [s];
      InputsKnown(g, states, s);
      var skip := false;
      if states[s] == IsPending && |g.inNormal[s]| != 0 {
        skip := AllSkipped(g, states, s);
      }
      PassStep(g, st, states, order[..i], s, skip);
      if skip {
        states := states[s := IsSkipped];
        DistinctAppend(newly, s);
        newly := newly + [s];
      }
    }
    assert order[..|order|] == order;
  }

  lemma SourcesPassed(g: Graph, order: seq<nat>, i: nat)
    requires g.Valid() && IsTopological(g, order) && i < |order|
    ensures order[i] < g.Size() && order[i] !in order[..i]
    ensures |g.inNormal| == g.Size() && forall e | e in g.inNormal[order[i]] :: g.From(e) in order[..i]
  {
    assert order[i] in order;
    g.AdjacencyExact(order[i]);
  }

  lemma FiredParents(g: Graph, st: State, states: seq<StepState>, order: seq<nat>, s: nat)
    requires g.Valid() && s < g.Size() && Propagated(g, st, states, order) && Consistent(NetOf(g.def), st)
    requires forall v: nat | v < g.Size() :: v in order
    requires Inputs(g, states, s)
    ensures (exists e :: e in g.inNormal[s] && states[g.From(e)] == IsCompleted) <==>
            Parents(NetOf(g.def), g.IdAt(s)) * st.completed != {}
    ensures (forall e | e in g.inNormal[s] :: states[g.From(e)] in {IsCompleted, IsSkipped}) <==>
            Parents(NetOf(g.def), g.IdAt(s)) <= st.completed + SkipSet(NetOf(g.def), st)
  {
    var net, id := NetOf(g.def), g.IdAt(s);
    ParentsListed(g, s);
    forall e | e in g.inNormal[s]
      ensures states[g.From(e)] == IsSkipped <==> g.IdAt(g.From(e)) in SkipSet(net, st)
      ensures states[g.From(e)] == IsCompleted <==> g.IdAt(g.From(e)) in st.completed
    {
      PassedState(g, st, states, order, g.From(e));
    }
    if e :| e in g.inNormal[s] && states[g.From(e)] == IsCompleted {
      assert g.IdAt(g.From(e)) in Parents(net, id) * st.completed;
    }
    if Parents(net, id) * st.completed != {} {
      var u :| u in Parents(net, id) * st.completed;
      var e :| e in g.inNormal[s] && g.IdAt(g.From(e)) == u;
    }
  }

  lemma PassedPending(g: Graph, st: State, states: seq<StepState>, order: seq<nat>, s: nat)
    requires g.Valid() && s < g.Size() && Propagated(g, st, states, order) && Consistent(NetOf(g.def), st) && s in order
    ensures states[s] == IsPending <==> Pending(NetOf(g.def), st, g.IdAt(s)) && g.IdAt(s) !in SkipSet(NetOf(g.def), st)
  {
    SkipSetIsClosed(NetOf(g.def), st);
  }

  /** The readiness test of one step, once every step is passed. */
  lemma ReadyByStates(g: Graph, st: State, states: seq<StepState>, order: seq<nat>, s: nat, any: bool, resolved: bool)
    requires g.Valid() && s < g.Size() && Propagated(g, st, states, order) && Consistent(NetOf(g.def), st)
    requires forall v: nat | v < g.Size() :: v in order
    requires any <==> Parents(NetOf(g.def), g.IdAt(s)) * st.completed != {}
    requires resolved <==> Parents(NetOf(g.def), g.IdAt(s)) <= st.completed + SkipSet(NetOf(g.def), st)
    ensures |g.inNormal| == g.Size()
    ensures g.IdAt(s) in ReadySet(NetOf(g.def), st) <==>
            && states[s] == IsPending
            && (g.inNormal[s] == [] || (if JoinModeOf(g.def.steps[s]) == Some(JoinAny) then any else resolved && any))
  {
    AnyJoinListed(g, s);
    PassedPending(g, st, states, order, s);
    NoParents(g, s);
  }

  lemma NoParents(g: Graph, s: nat)
    requires g.Valid() && s < g.Size()
    ensures |g.inNormal| == g.Size()
    ensures Parents(NetOf(g.def), g.IdAt(s)) == {} <==> g.inNormal[s] == []
  {
    ParentsListed(g, s);
    assert g.inNormal[s] != [] ==> g.inNormal[s][0] in g.inNormal[s];
  }

  lemma AnyJoinListed(g: Graph, s: nat)
    requires g.Valid() && s < g.Size()
    ensures g.IdAt(s) in NetOf(g.def).anyJoins <==> JoinModeOf(g.def.steps[s]) == Some(JoinAny)
  {
  }

  lemma InsertAscending(r: seq<nat>, k: nat, x: nat)
    requires Ascending(r) && k <= |r| && (forall j | 0 <= j < k :: r[j] < x) && (k < |r| ==> x < r[k])
    ensures Ascending(r[..k] + [x] + r[k..])
    ensures forall v: nat :: v in r[..k] + [x] + r[k..] <==> v in r || v == x
  {
    assert r == r[..k] + r[k..];
  }

  /** Sorts indices into declaration order (insertion sort). */
  method SortIndices(xs: seq<nat>) returns (r: seq<nat>)
    requires Distinct(xs)
    ensures Ascending(r) && forall v: nat :: v in r <==> v in xs
  {
    r := [];
    for i := 0 to |xs|
      invariant Ascending(r) && forall v: nat :: v in r <==> v in xs[..i]
    {
      var k := 0;
      while k < |r| && r[k] < xs[i]
        invariant 0 <= k <= |r| && forall j | 0 <= j < k :: r[j] < xs[i]
      {
        k := k + 1;
      }
      assert xs[..i + 1] == xs[..i] + [xs[i]];
      assert k < |r| ==> r[k] in r;
      assert xs[i] !in xs[..i];
      InsertAscending(r, k, xs[i]);
      r := r[..k] + [xs[i]] + r[k..];
    }
    assert xs[..|xs|] == xs;
  }

  function IdsAt(g: Graph, xs: seq<nat>): seq<string> {
    seq(|xs|, i requires 0 <= i < |xs| => g.IdAt(xs[i]))
  }

  /** An ascending list of exactly the steps in ids spells them in declaration order. */
  lemma {:induction false} AscendingListed(g: Graph, xs: seq<nat>, n: nat, ids: set<string>)
    requires Ascending(xs) && n <= g.Size()
    requires forall v: nat :: v in xs <==> v < n && g.IdAt(v) in ids
    ensures IdsAt(g, xs) == Listed(g.def.steps, n, ids)
  {
    if n == 0 {
      DistinctCount(xs);
      assert Elements(xs) == {};
    } else if n - 1 in xs {
      var rest := xs[..|xs| - 1];
      assert xs[|xs| - 1] in xs;
      assert xs[|xs| - 1] == n - 1;
      assert xs == rest + [n - 1];
      forall v: nat ensures v in rest <==> v < n - 1 && g.IdAt(v) in ids {
        assert v in xs <==> v in rest || v == n - 1;
        assert v in rest ==> v != n - 1;
      }
      AscendingListed(g, rest, n - 1, ids);
      assert IdsAt(g, xs) == IdsAt(g, rest) + [g.IdAt(n - 1)];
    } else {
      forall v: nat ensures v in xs <==> v < n - 1 && g.IdAt(v) in ids {
      }
      AscendingListed(g, xs, n - 1, ids);
    }
  }

  /** The steps ready to run and the steps propagation has just skipped, both in declaration order. */
  method ReadySteps(g: Graph, completed: set<string>, skipped: set<string>, failed: set<string>)
    returns (r: Result<(seq<string>, seq<string>), ReadyError>)
    requires g.Valid()
    ensures var net, st := NetOf(g.def), State(completed, skipped, failed);
            match r
            case Err(BadSets(unknown, overlap)) =>
              && !Consistent(net, st)
              && unknown == st.Settled() - net.steps && overlap == Overlap(st) * net.steps
            case Err(CyclicGraph) => Consistent(net, st) && !Acyclic(net.edges)
            case Ok((ready, newlySkipped)) =>
              && Consistent(net, st) && Acyclic(net.edges)
              && ready == Listed(g.def.steps, g.Size(), ReadySet(net, st))
              && newlySkipped == Listed(g.def.steps, g.Size(), SkipSet(net, st) - skipped)
  {
    var st := State(completed, skipped, failed);
    var unknown := st.Settled() - Ids(g.def.steps);
    var overlap := Overlap(st) * Ids(g.def.steps);
    ConsistentIff(NetOf(g.def), st);
    if unknown != {} || overlap != {} {
      return Err(BadSets(unknown, overlap));
    }
    var order, ok := TopoOrder(g);
    if !ok {
      return Err(CyclicGraph);
    }
    var given := seq(g.Size(), i requires 0 <= i < g.Size() => StateIn(st, g.IdAt(i)));
    var states, newly := Propagate(g, st, given, order);
    var sorted := SortIndices(newly);
    AscendingListed(g, sorted, g.Size(), SkipSet(NetOf(g.def), st) - skipped);
    var ready := CollectReady(g, st, states, order);
    r := Ok((ready, IdsAt(g, sorted)));
  }

  lemma ConsistentIff(net: Net, st: State)
    ensures Consistent(net, st) <==> st.Settled() - net.steps == {} && Overlap(st) * net.steps == {}
  {
    if st.Settled() - net.steps == {} && Overlap(st) * net.steps == {} {
      forall v | v in st.Settled() ensures v in net.steps && v !in Overlap(st) {
        assert v !in st.Settled() - net.steps && v !in Overlap(st) * net.steps;
      }
    }
  }

  /** The readiness pass, in declaration order. */
  method CollectReady(g: Graph, ghost st: State, states: seq<StepState>, ghost order: seq<nat>)
    returns (ready: seq<string>)
    requires g.Valid() && Consistent(NetOf(g.def), st) && IsTopological(g, order) && Propagated(g, st, states, order)
    ensures ready == Listed(g.def.steps, g.Size(), ReadySet(NetOf(g.def), st))
  {
    hide Graph.Valid, Consistent, IsTopological, Propagated, ReadySet, NetOf;
    ready := [];
    for s := 0 to g.Size()
      invariant ready == Listed(g.def.steps, s, ReadySet(NetOf(g.def), st))
    {
      var yes := ReadyAt(g, st, states, order, s);
      if yes {
        ready := ready + [g.IdAt(s)];
      }
    }
  }

  /** Entry steps are ready; `join any` needs one fired edge, everything else all edges resolved and one fired. */
  method ReadyAt(g: Graph, ghost st: State, states: seq<StepState>, ghost order: seq<nat>, s: nat) returns (yes: bool)
    requires g.Valid() && Consistent(NetOf(g.def), st) && IsTopological(g, order) && Propagated(g, st, states, order)
    requires s < g.Size()
    ensures yes <==> g.IdAt(s) in ReadySet(NetOf(g.def), st)
  {
    InputsKnown(g, states, s);
    var any, resolved := Fired(g, states, s);
    FiredParents(g, st, states, order, s);
    ReadyByStates(g, st, states, order, s, any, resolved);
    if states[s] != IsPending {
      return false;
    }
    if |g.inNormal[s]| == 0 {
      return true;
    }
    if JoinModeOf(g.def.steps[s]) == Some(JoinAny) {
      return any;
    }
    return resolved && any;
  }
}
