/** The loop unroller (internal/dag/loopexpand.go): the plan one loop iteration applies. */
module Loops {
  import opened Walks
  import opened Counting
  import opened Texts
  import opened Definitions
  import opened StepIds
  import opened Graphs
  import opened Searches
  import opened Expansions
  import opened Unrolling

  datatype LoopError =
    | BadGraph(error: GraphError)
    | UnknownStep
    | LeavesBody(from: string, to: string)

  ghost function SpecOf(def: Definition, loopEdge: Edge): LoopSpec {
    LoopSpec(Ids(def.steps), Pairs(def.edges), loopEdge.from, loopEdge.to)
  }

  // ---------- cloning a body step ----------

  function CloneTokens(tokens: seq<Token>, body: set<string>, iter: nat): seq<Token> {
    seq(|tokens|, i requires 0 <= i < |tokens| => Token(LoopRewrite(body, iter, tokens[i].text), tokens[i].lenient))
  }

  function CloneSources(sources: seq<ContextSource>, body: set<string>, iter: nat): seq<ContextSource> {
    seq(|sources|, i requires 0 <= i < |sources| =>
      var src := sources[i];
      if src.kind == StepOutput && src.step in body then src.(step := InstanceId(src.step, iter)) else src)
  }

  function CloneStep(s: Step, body: set<string>, iter: nat): Step {
    Step(InstanceId(s.id, iter), s.typ,
         if s.config.Templated? then Templated(CloneTokens(s.config.tokens, body, iter)) else s.config,
         CloneSources(s.context, body, iter))
  }

  function Repoint(body: set<string>, iter: nat, refs: seq<string>): seq<string> {
    seq(|refs|, i requires 0 <= i < |refs| => if refs[i] in body then InstanceId(refs[i], iter) else refs[i])
  }

  lemma {:induction false} CloneTokenRefs(tokens: seq<Token>, body: set<string>, iter: nat)
    ensures TokenRefs(CloneTokens(tokens, body, iter)) == Repoint(body, iter, TokenRefs(tokens))
  {
    hide RefStep, LoopRewrite, HasPrefix, RefTail, InstanceId;
    if tokens != [] {
      var t, rest := tokens[0], tokens[1..];
      CloneTokenRefs(rest, body, iter);
      LoopRewriteRefers(body, iter, t.text);
      assert CloneTokens(tokens, body, iter)[1..] == CloneTokens(rest, body, iter);
      var head := if !t.lenient && RefStep(t.text).Some? then [RefStep(t.text).value] else [];
      RepointConcat(body, iter, head, TokenRefs(rest));
    }
  }

  lemma {:induction false} CloneSourceRefs(sources: seq<ContextSource>, body: set<string>, iter: nat)
    requires "" !in body
    ensures SourceRefs(CloneSources(sources, body, iter)) == Repoint(body, iter, SourceRefs(sources))
  {
    if sources != [] {
      CloneSourceRefs(sources[1..], body, iter);
      assert CloneSources(sources, body, iter)[1..] == CloneSources(sources[1..], body, iter);
    }
  }

  /** A clone refers to exactly what its original did, with body members moved to this iteration. */
  lemma CloneRefs(s: Step, body: set<string>, iter: nat)
    requires "" !in body
    ensures StepRefs(CloneStep(s, body, iter)) == Repoint(body, iter, StepRefs(s))
  {
    var tokens := if s.config.Templated? then s.config.tokens else [];
    CloneTokenRefs(tokens, body, iter);
    CloneSourceRefs(s.context, body, iter);
    RepointConcat(body, iter, TokenRefs(tokens), SourceRefs(s.context));
    CloneParts(s, tokens, body, iter);
    hide StepRefs, CloneStep, TokenRefs, SourceRefs, Repoint, CloneTokens, CloneSources;
  }

  lemma RepointConcat(body: set<string>, iter: nat, a: seq<string>, b: seq<string>)
    ensures Repoint(body, iter, a + b) == Repoint(body, iter, a) + Repoint(body, iter, b)
  {
  }

  lemma CloneParts(s: Step, tokens: seq<Token>, body: set<string>, iter: nat)
    requires tokens == if s.config.Templated? then s.config.tokens else []
    ensures StepRefs(s) == TokenRefs(tokens) + SourceRefs(s.context)
    ensures StepRefs(CloneStep(s, body, iter))
            == TokenRefs(CloneTokens(tokens, body, iter)) + SourceRefs(CloneSources(s.context, body, iter))
  {
    if !s.config.Templated? {
      assert CloneTokens([], body, iter) == [];
    }
  }

  // ---------- the edges of the plan ----------

  function CloneEdge(e: Edge, iter: nat): Edge {
    Edge(InstanceId(e.from, iter), InstanceId(e.to, iter), e.when, Normal, "", 0, e.decision)
  }

  predicate IsInternal(e: Edge, body: set<string>) {
    !e.IsLoop() && e.from in body && e.to in body
  }

  predicate IsExit(e: Edge, body: set<string>, source: string) {
    !e.IsLoop() && e.from == source && e.to !in body
  }

  predicate LeavesElsewhere(e: Edge, body: set<string>, source: string) {
    !e.IsLoop() && e.from != source && e.from in body && e.to !in body
  }

  function InternalEdges(edges: seq<Edge>, body: set<string>, iter: nat): seq<Edge> {
    if edges == [] then []
    else
      var last := edges[|edges| - 1];
      InternalEdges(edges[..|edges| - 1], body, iter) + if IsInternal(last, body) then [CloneEdge(last, iter)] else []
  }

  function ExitEdges(edges: seq<Edge>, body: set<string>, source: string, iter: nat): seq<Edge> {
    if edges == [] then []
    else
      var last := edges[|edges| - 1];
      ExitEdges(edges[..|edges| - 1], body, source, iter)
      + if IsExit(last, body, source)
        then [Edge(InstanceId(source, iter), last.to, last.when, Normal, "", 0, last.decision)] else []
  }

  function EntryEdges(entries: seq<string>, current: string, iter: nat): seq<Edge> {
    seq(|entries|, i requires 0 <= i < |entries| => Plain(current, InstanceId(entries[i], iter)))
  }

  // ---------- body and entries ----------

  /** The endpoints plus the target's descendants that are the source or its ancestors. */
  method LoopBody(g: Graph, from: string, to: string) returns (r: Option<set<string>>)
    requires g.Valid()
    ensures r.Some? <==> from in Ids(g.def.steps) && to in Ids(g.def.steps)
    ensures r.Some? ==> r.value == LoopSpec(Ids(g.def.steps), Pairs(g.def.edges), from, to).Body()
  {
    var desc := Descendants(g, to);
    var anc := Ancestors(g, from);
    if desc.None? || anc.None? {
      return None;
    }
    var body := {from, to} + set id | id in desc.value && (id == from || id in anc.value);
    PairsWithin(g.def.edges, Ids(g.def.steps));
    forall v | Reaches(Pairs(g.def.edges), to, v) ensures v in Ids(g.def.steps) {
      ReachesEndpoints(Pairs(g.def.edges), Ids(g.def.steps), to, v);
    }
    r := Some(body);
  }

  ghost predicate HasBodyParent(edges: seq<Edge>, body: set<string>, id: string) {
    exists i :: 0 <= i < |edges| && IsInternal(edges[i], body) && edges[i].to == id
  }

  /** The body members no other body member leads to, in definition order. */
  method LoopEntries(def: Definition, body: set<string>) returns (entries: seq<string>)
    requires DistinctIds(def.steps)
    ensures Distinct(entries) && FollowsOrder(def.steps, entries)
    ensures forall id :: id in entries <==> id in Ids(def.steps) && id in body && !HasBodyParent(def.edges, body, id)
  {
    var entered: set<string> := {};
    for i := 0 to |def.edges|
      invariant forall id :: id in entered <==> HasBodyParent(def.edges[..i], body, id)
    {
      EnteredGrows(def.edges, body, i);
      if IsInternal(def.edges[i], body) {
        entered := entered + {def.edges[i].to};
      }
    }
    assert def.edges[..|def.edges|] == def.edges;
    entries := [];
    for i := 0 to |def.steps|
      invariant Distinct(entries) && FollowsOrder(def.steps, entries)
      invariant forall id :: id in entries <==> id in Ids(def.steps[..i]) && id in body && id !in entered
    {
      IdsGrow(def.steps, i);
      assert def.steps[..i + 1] == def.steps[..i] + [def.steps[i]];
      var id := def.steps[i].id;
      if id in body && id !in entered {
        assert id !in Ids(def.steps[..i]);
        OrderGrows(def.steps, entries, i);
        entries := entries + [id];
      }
    }
    assert def.steps[..|def.steps|] == def.steps;
  }

  lemma EnteredGrows(edges: seq<Edge>, body: set<string>, i: nat)
    requires i < |edges|
    ensures forall id :: HasBodyParent(edges[..i + 1], body, id) <==>
                         HasBodyParent(edges[..i], body, id) || (IsInternal(edges[i], body) && edges[i].to == id)
  {
    assert edges[..i + 1] == edges[..i] + [edges[i]];
    forall id | HasBodyParent(edges[..i], body, id) ensures HasBodyParent(edges[..i + 1], body, id) {
      var j :| 0 <= j < i && IsInternal(edges[..i][j], body) && edges[..i][j].to == id;
      assert edges[..i + 1][j] == edges[..i][j];
    }
    assert edges[..i + 1][i] == edges[i];
  }

  /** Exactly one entry: the loop edge's target. */
  lemma EntriesAreTarget(def: Definition, loopEdge: Edge, entries: seq<string>)
    requires SpecOf(def, loopEdge).Valid() && Distinct(entries)
    requires var body := SpecOf(def, loopEdge).Body();
             forall id :: id in entries <==> id in Ids(def.steps) && id in body && !HasBodyParent(def.edges, body, id)
    ensures entries == [loopEdge.to]
  {
    var l := SpecOf(def, loopEdge);
    hide LoopSpec.Body, LoopSpec.Valid, HasBodyParent, Pairs;
    forall v | v in l.Body() ensures v in entries <==> v == l.target {
      BodyAuthored(l, v);
      EntryIsTarget(l, v);
      BodyParents(def, loopEdge, v);
    }
    EndsInBody(l);
    BodyAuthored(l, l.target);
    Singleton(entries, l.target);
  }

  lemma EndsInBody(l: LoopSpec)
    ensures l.target in l.Body() && l.source in l.Body()
  {
  }

  /** The code's parent test on edges is the graph's. */
  lemma BodyParents(def: Definition, loopEdge: Edge, v: string)
    requires v in SpecOf(def, loopEdge).Body()
    ensures var l := SpecOf(def, loopEdge);
            HasBodyParent(def.edges, l.Body(), v) <==> exists u :: u in l.Body() && (u, v) in l.edges
  {
    var l := SpecOf(def, loopEdge);
    hide LoopSpec.Body;
    if HasBodyParent(def.edges, l.Body(), v) {
      var i :| 0 <= i < |def.edges| && IsInternal(def.edges[i], l.Body()) && def.edges[i].to == v;
      assert (def.edges[i].from, v) in l.edges;
    }
    if u :| u in l.Body() && (u, v) in l.edges {
      var k :| 0 <= k < |def.edges| && !def.edges[k].IsLoop() && (u, v) == (def.edges[k].from, def.edges[k].to);
      assert IsInternal(def.edges[k], l.Body());
    }
  }

  // ---------- the generator ----------

  /** The definition's step of that id. */
  ghost predicate IsStepOf(def: Definition, s: Step, id: string) {
    s in def.steps && s.id == id
  }

  /** One clone per body member, in id order. */
  ghost predicate ListsClones(def: Definition, body: set<string>, iter: nat, steps: seq<Step>) {
    exists members: seq<string> :: StrictlySorted(members) && ClonesMembers(def, body, iter, members, steps)
  }

  ghost predicate ClonesMembers(def: Definition, body: set<string>, iter: nat, members: seq<string>, steps: seq<Step>) {
    && (forall id :: id in members <==> id in body)
    && |steps| == |members|
    && forall i | 0 <= i < |members| :: IsCloneOf(def, body, iter, members[i], steps[i])
  }

  ghost predicate IsCloneOf(def: Definition, body: set<string>, iter: nat, id: string, clone: Step) {
    exists s :: IsStepOf(def, s, id) && clone == CloneStep(s, body, iter)
  }

  /** The plan of iteration iter: the body's clones in id order, its edges, the entry splice and the exits. */
  ghost predicate IsLoopPlan(def: Definition, loopEdge: Edge, entries: seq<string>, current: string, iter: nat,
                             plan: Plan)
  {
    var body := SpecOf(def, loopEdge).Body();
    && plan.schemaVersion == PLAN_SCHEMA_VERSION
    && ListsClones(def, body, iter, plan.steps)
    && plan.edges == InternalEdges(def.edges, body, iter) + EntryEdges(entries, current, iter)
                     + ExitEdges(def.edges, body, loopEdge.from, iter)
  }

  ghost predicate IsEntryList(def: Definition, body: set<string>, entries: seq<string>) {
    && Distinct(entries)
    && forall id :: id in entries <==> id in Ids(def.steps) && id in body && !HasBodyParent(def.edges, body, id)
  }

  /** The generator succeeds exactly on a compilable definition with a known loop edge whose body only the source
      leaves. */
  method GenerateLoopExpansion(def: Definition, loopEdge: Edge, current: string, iter: nat)
    returns (r: Result<Plan, LoopError>)
    ensures var l := SpecOf(def, loopEdge);
            match r
            case Err(BadGraph(_)) => !WellFormed(def)
            case Err(UnknownStep) => WellFormed(def) && !(l.source in l.steps && l.target in l.steps)
            case Err(LeavesBody(u, w)) =>
              WellFormed(def) && l.source in l.steps && l.target in l.steps && Escapes(l, u, w)
            case Ok(plan) =>
              && WellFormed(def) && l.source in l.steps && l.target in l.steps && l.OnlySourceExits()
              && exists entries ::
                   IsEntryList(def, l.Body(), entries) && IsLoopPlan(def, loopEdge, entries, current, iter, plan)
  {
    var graph := NewGraph(def);
    if graph.Err? {
      return Err(BadGraph(graph.error));
    }
    var body := LoopBody(graph.value, loopEdge.from, loopEdge.to);
    if body.None? {
      return Err(UnknownStep);
    }
    ghost var entries;
    r, entries := UnrollBody(def, loopEdge, body.value, current, iter);
  }

  ghost predicate Escapes(l: LoopSpec, u: string, w: string) {
    (u, w) in l.edges && u in l.Body() && u != l.source && w !in l.Body()
  }

  method UnrollBody(def: Definition, loopEdge: Edge, body: set<string>, current: string, iter: nat)
    returns (r: Result<Plan, LoopError>, ghost entries: seq<string>)
    requires WellFormed(def) && loopEdge.from in Ids(def.steps) && loopEdge.to in Ids(def.steps)
    requires body == SpecOf(def, loopEdge).Body()
    ensures r.Err? ==> r.error.LeavesBody? && Escapes(SpecOf(def, loopEdge), r.error.from, r.error.to)
    ensures r.Ok? ==> SpecOf(def, loopEdge).OnlySourceExits() && IsEntryList(def, body, entries)
    ensures r.Ok? ==> IsLoopPlan(def, loopEdge, entries, current, iter, r.value)
  {
    BodyKnown(def, loopEdge);
    var steps := CloneBody(def, body, iter);
    var internal := CollectInternal(def.edges, body, iter);
    var found := LoopEntries(def, body);
    entries := found;
    var exits, bad := CollectExits(def.edges, body, loopEdge.from, iter);
    if bad.Some? {
      r := Err(LeavesBody(def.edges[bad.value].from, def.edges[bad.value].to));
    } else {
      NoEscape(def, loopEdge);
      r := Ok(Plan(PLAN_SCHEMA_VERSION, steps, internal + EntryEdges(found, current, iter) + exits));
    }
  }

  lemma NoEscape(def: Definition, loopEdge: Edge)
    requires forall i | 0 <= i < |def.edges| ::
               !LeavesElsewhere(def.edges[i], SpecOf(def, loopEdge).Body(), loopEdge.from)
    ensures SpecOf(def, loopEdge).OnlySourceExits()
  {
    var l := SpecOf(def, loopEdge);
    forall e | e in l.edges && e.0 in l.Body() && e.0 != l.source ensures e.1 in l.Body() {
      var k :| 0 <= k < |def.edges| && !def.edges[k].IsLoop() && e == (def.edges[k].from, def.edges[k].to);
    }
  }

  lemma BodyKnown(def: Definition, loopEdge: Edge)
    requires loopEdge.from in Ids(def.steps) && loopEdge.to in Ids(def.steps)
    ensures SpecOf(def, loopEdge).Body() <= Ids(def.steps)
  {
  }

  method CloneBody(def: Definition, body: set<string>, iter: nat) returns (steps: seq<Step>)
    requires DistinctIds(def.steps) && body <= Ids(def.steps)
    ensures ListsClones(def, body, iter, steps)
  {
    var members := SortStrings(body);
    steps := [];
    for i := 0 to |members|
      invariant |steps| == i
      invariant forall j | 0 <= j < i :: IsCloneOf(def, body, iter, members[j], steps[j])
    {
      assert members[i] in body;
      var s := StepNamed(def, members[i]);
      assert IsCloneOf(def, body, iter, members[i], CloneStep(s, body, iter));
      steps := steps + [CloneStep(s, body, iter)];
    }
    assert ClonesMembers(def, body, iter, members, steps);
  }

  method StepNamed(def: Definition, id: string) returns (s: Step)
    requires id in Ids(def.steps)
    ensures IsStepOf(def, s, id)
  {
    var i := 0;
    while i < |def.steps| && def.steps[i].id != id
      invariant i <= |def.steps| && forall j | 0 <= j < i :: def.steps[j].id != id
    {
      i := i + 1;
    }
    s := def.steps[i];
  }

  method CollectInternal(edges: seq<Edge>, body: set<string>, iter: nat) returns (r: seq<Edge>)
    ensures r == InternalEdges(edges, body, iter)
  {
    r := [];
    for i := 0 to |edges|
      invariant r == InternalEdges(edges[..i], body, iter)
    {
      assert edges[..i + 1][..i] == edges[..i];
      if IsInternal(edges[i], body) {
        r := r + [CloneEdge(edges[i], iter)];
      }
    }
    assert edges[..|edges|] == edges;
  }

  /** The re-hung exits of the loop source, or the first edge by which another body step leaves the body. */
  method CollectExits(edges: seq<Edge>, body: set<string>, source: string, iter: nat)
    returns (r: seq<Edge>, bad: Option<nat>)
    ensures bad.Some? ==> bad.value < |edges| && LeavesElsewhere(edges[bad.value], body, source)
    ensures bad.None? ==> r == ExitEdges(edges, body, source, iter)
    ensures bad.None? ==> forall i | 0 <= i < |edges| :: !LeavesElsewhere(edges[i], body, source)
  {
    r := [];
    for i := 0 to |edges|
      invariant r == ExitEdges(edges[..i], body, source, iter)
      invariant forall j | 0 <= j < i :: !LeavesElsewhere(edges[j], body, source)
    {
      assert edges[..i + 1][..i] == edges[..i];
      var e := edges[i];
      if LeavesElsewhere(e, body, source) {
        return r, Some(i);
      }
      if IsExit(e, body, source) {
        r := r + [Edge(InstanceId(source, iter), e.to, e.when, Normal, "", 0, e.decision)];
      }
    }
    assert edges[..|edges|] == edges;
    bad := None;
  }

  // ---------- the plan edge by edge ----------

  /** p is e between other ends: a normal edge with the condition and the decision of e. */
  ghost predicate Moved(e: Edge, from: string, to: string, p: Edge) {
    && p.from == from && p.to == to && p.typ == Normal && p.when == e.when && p.decision == e.decision
    && p.condition == "" && p.maxIterations == 0
  }

  /** The positions of the normal edges inside the body, in order. */
  ghost predicate AreInternal(edges: seq<Edge>, body: set<string>, at: seq<nat>) {
    && Ascending(at)
    && forall i: nat ::
         i in at <==> i < |edges| && edges[i].typ == Normal && edges[i].from in body && edges[i].to in body
  }

  /** The positions of the normal edges by which the source leaves the body, in order. */
  ghost predicate AreExits(edges: seq<Edge>, body: set<string>, source: string, at: seq<nat>) {
    && Ascending(at)
    && forall i: nat ::
         i in at <==> i < |edges| && edges[i].typ == Normal && edges[i].from == source && edges[i].to !in body
  }

  /** The edges at those positions between the clones of both their ends. */
  ghost predicate MovesBoth(edges: seq<Edge>, at: seq<nat>, iter: nat, r: seq<Edge>) {
    && |r| == |at|
    && forall j | 0 <= j < |at| :: at[j] < |edges| && MovedBoth(edges[at[j]], iter, r[j])
  }

  ghost predicate MovedBoth(e: Edge, iter: nat, p: Edge) {
    Moved(e, InstanceId(e.from, iter), InstanceId(e.to, iter), p)
  }

  /** The edges at those positions from the clone of the source. */
  ghost predicate MovesStart(edges: seq<Edge>, at: seq<nat>, source: string, iter: nat, r: seq<Edge>) {
    && |r| == |at|
    && forall j | 0 <= j < |at| :: at[j] < |edges| && MovedStart(edges[at[j]], source, iter, r[j])
  }

  ghost predicate MovedStart(e: Edge, source: string, iter: nat, p: Edge) {
    Moved(e, InstanceId(source, iter), e.to, p)
  }

  lemma NothingSelected(edges: seq<Edge>, body: set<string>, source: string)
    ensures edges == [] ==> AreInternal(edges, body, []) && AreExits(edges, body, source, [])
  {
  }

  lemma InternalGrows(edges: seq<Edge>, body: set<string>, at: seq<nat>)
    requires edges != [] && AreInternal(edges[..|edges| - 1], body, at)
    ensures AreInternal(edges, body, if IsInternal(edges[|edges| - 1], body) then at + [|edges| - 1] else at)
  {
    assert forall j | 0 <= j < |at| :: at[j] in at;
  }

  lemma ExitsGrow(edges: seq<Edge>, body: set<string>, source: string, at: seq<nat>)
    requires edges != [] && AreExits(edges[..|edges| - 1], body, source, at)
    ensures AreExits(edges, body, source, if IsExit(edges[|edges| - 1], body, source) then at + [|edges| - 1] else at)
  {
    assert forall j | 0 <= j < |at| :: at[j] in at;
  }

  lemma {:induction false} InternalExact(edges: seq<Edge>, body: set<string>, iter: nat) returns (at: seq<nat>)
    ensures AreInternal(edges, body, at) && MovesBoth(edges, at, iter, InternalEdges(edges, body, iter))
  {
    hide MovedBoth, CloneEdge, AreInternal, IsInternal;
    at := [];
    NothingSelected(edges, body, "");
    if edges != [] {
      var n := |edges| - 1;
      at := InternalExact(edges[..n], body, iter);
      ClonedBoth(edges[n], iter);
      InternalGrows(edges, body, at);
      if IsInternal(edges[n], body) {
        at := at + [n];
      }
    }
  }

  lemma ClonedBoth(e: Edge, iter: nat)
    ensures MovedBoth(e, iter, CloneEdge(e, iter))
  {
  }

  lemma {:induction false} ExitsExact(edges: seq<Edge>, body: set<string>, source: string, iter: nat)
    returns (at: seq<nat>)
    ensures AreExits(edges, body, source, at)
    ensures MovesStart(edges, at, source, iter, ExitEdges(edges, body, source, iter))
  {
    hide MovedStart, InstanceId, AreExits, IsExit;
    at := [];
    NothingSelected(edges, body, source);
    if edges != [] {
      var n := |edges| - 1;
      at := ExitsExact(edges[..n], body, source, iter);
      RehungStart(edges[n], source, iter);
      ExitsGrow(edges, body, source, at);
      if IsExit(edges[n], body, source) {
        at := at + [n];
      }
    }
  }

  lemma RehungStart(e: Edge, source: string, iter: nat)
    ensures MovedStart(e, source, iter, Edge(InstanceId(source, iter), e.to, e.when, Normal, "", 0, e.decision))
  {
  }

  /** The edges of the plan, one by one: every normal edge inside the body between the clones of its ends, the splice
      from the current source into each entry, and every exit of the loop source from the source's clone. Each cloned
      edge keeps its condition and decision, in definition order, and there are no others. */
  lemma PlanEdgesExact(def: Definition, loopEdge: Edge, entries: seq<string>, current: string, iter: nat, plan: Plan)
    returns (inner: seq<nat>, outer: seq<nat>)
    requires IsLoopPlan(def, loopEdge, entries, current, iter, plan)
    ensures var body := SpecOf(def, loopEdge).Body();
            AreInternal(def.edges, body, inner) && AreExits(def.edges, body, loopEdge.from, outer)
    ensures var a, b := |inner|, |inner| + |entries|;
            && |plan.edges| == b + |outer|
            && MovesBoth(def.edges, inner, iter, plan.edges[..a])
            && MovesStart(def.edges, outer, loopEdge.from, iter, plan.edges[b..])
            && forall j | 0 <= j < |entries| ::
                 plan.edges[a + j] == Edge(current, InstanceId(entries[j], iter), "", Normal, "", 0, "")
  {
    hide ListsClones, LoopSpec.Body, MovedBoth, MovedStart, AreInternal, AreExits, InternalEdges, ExitEdges, InstanceId;
    var body := SpecOf(def, loopEdge).Body();
    inner := InternalExact(def.edges, body, iter);
    outer := ExitsExact(def.edges, body, loopEdge.from, iter);
  }

  // ---------- the plan on the graph level ----------

  lemma {:induction false} InternalPairs(edges: seq<Edge>, body: set<string>, iter: nat)
    ensures Pairs(InternalEdges(edges, body, iter)) ==
            set e | e in Pairs(edges) && e.0 in body && e.1 in body :: (InstanceId(e.0, iter), InstanceId(e.1, iter))
  {
    if edges != [] {
      var rest, last := edges[..|edges| - 1], edges[|edges| - 1];
      InternalPairs(rest, body, iter);
      assert edges == rest + [last];
      PairsConcat(rest, [last]);
      var added := if IsInternal(last, body) then [CloneEdge(last, iter)] else [];
      PairsConcat(InternalEdges(rest, body, iter), added);
      PairsOfOne(last);
      if IsInternal(last, body) {
        PairsOfOne(CloneEdge(last, iter));
      }
    }
  }

  lemma PairsOfOne(e: Edge)
    ensures Pairs([e]) == if e.IsLoop() then {} else {(e.from, e.to)}
  {
    assert [e][0] == e;
  }

  lemma {:induction false} ExitPairs(edges: seq<Edge>, body: set<string>, source: string, iter: nat)
    ensures Pairs(ExitEdges(edges, body, source, iter)) ==
            set e | e in Pairs(edges) && e.0 == source && e.1 !in body :: (InstanceId(source, iter), e.1)
  {
    if edges != [] {
      var rest, last := edges[..|edges| - 1], edges[|edges| - 1];
      ExitPairs(rest, body, source, iter);
      assert edges == rest + [last];
      PairsConcat(rest, [last]);
      var exit := Edge(InstanceId(source, iter), last.to, last.when, Normal, "", 0, last.decision);
      var added := if IsExit(last, body, source) then [exit] else [];
      PairsConcat(ExitEdges(rest, body, source, iter), added);
      PairsOfOne(last);
      PairsOfOne(exit);
    }
  }

  lemma {:induction false} GeneratedAreNormal(edges: seq<Edge>, body: set<string>, source: string, iter: nat)
    ensures forall e | e in InternalEdges(edges, body, iter) + ExitEdges(edges, body, source, iter) :: !e.IsLoop()
  {
    if edges != [] {
      GeneratedAreNormal(edges[..|edges| - 1], body, source, iter);
    }
  }

  lemma PairsOfThree(a: seq<Edge>, e: Edge, b: seq<Edge>)
    requires !e.IsLoop()
    ensures Pairs(a + [e] + b) == Pairs(a) + {(e.from, e.to)} + Pairs(b)
  {
    PairsOfOne(e);
    PairsConcat(a, [e]);
    PairsConcat(a + [e], b);
  }

  /** The plan of iteration k spliced after the previous source instance is the delta of that iteration. */
  lemma PlanIsDelta(def: Definition, loopEdge: Edge, entries: seq<string>, k: nat, plan: Plan)
    requires k >= 1 && SpecOf(def, loopEdge).Valid()
    requires IsEntryList(def, SpecOf(def, loopEdge).Body(), entries)
    requires IsLoopPlan(def, loopEdge, entries, SourceAt(SpecOf(def, loopEdge), k - 1), k, plan)
    ensures Pairs(plan.edges) == DeltaAt(SpecOf(def, loopEdge), k)
    ensures forall e | e in plan.edges :: !e.IsLoop()
  {
    hide InternalEdges, ExitEdges, Pairs, InstanceId;
    var l := SpecOf(def, loopEdge);
    var internal, exits := InternalEdges(def.edges, l.Body(), k), ExitEdges(def.edges, l.Body(), l.source, k);
    EntriesAreTarget(def, loopEdge, entries);
    var entry := Plain(SourceAt(l, k - 1), InstanceId(l.target, k));
    assert EntryEdges(entries, SourceAt(l, k - 1), k) == [entry];
    InternalPairs(def.edges, l.Body(), k);
    ExitPairs(def.edges, l.Body(), l.source, k);
    PairsOfThree(internal, entry, exits);
    GeneratedAreNormal(def.edges, l.Body(), l.source, k);
  }

  lemma ClonesDistinct(members: seq<string>, k: nat, steps: seq<Step>)
    requires StrictlySorted(members) && |steps| == |members|
    requires forall i | 0 <= i < |members| :: '#' !in members[i] && steps[i].id == InstanceId(members[i], k)
    ensures DistinctIds(steps)
  {
    forall i, j | 0 <= i < j < |steps| ensures steps[i].id != steps[j].id {
      LessIrreflexive(members[i]);
      if InstanceId(members[i], k) == InstanceId(members[j], k) {
        InstanceIdInjective(members[i], k, members[j], k);
      }
    }
  }

  lemma ClonesNamed(def: Definition, body: set<string>, k: nat, members: seq<string>, steps: seq<Step>)
    requires ClonesMembers(def, body, k, members, steps)
    ensures forall i | 0 <= i < |members| :: members[i] in body && steps[i].id == InstanceId(members[i], k)
    ensures Ids(steps) == set v | v in body :: InstanceId(v, k)
  {
    forall i | 0 <= i < |members| ensures members[i] in body && steps[i].id == InstanceId(members[i], k) {
      assert members[i] in members;
    }
    forall v | v in body ensures InstanceId(v, k) in Ids(steps) {
      var i :| 0 <= i < |members| && members[i] == v;
      assert steps[i].id == InstanceId(v, k);
    }
  }

  lemma PlanStepsAreClones(def: Definition, loopEdge: Edge, k: nat, steps: seq<Step>)
    requires SpecOf(def, loopEdge).Valid() && ListsClones(def, SpecOf(def, loopEdge).Body(), k, steps)
    ensures Ids(steps) == Clones(SpecOf(def, loopEdge), k) && DistinctIds(steps)
  {
    var l := SpecOf(def, loopEdge);
    var members: seq<string> :| StrictlySorted(members) && ClonesMembers(def, l.Body(), k, members, steps);
    ClonesNamed(def, l.Body(), k, members, steps);
    forall i | 0 <= i < |members| ensures '#' !in members[i] {
      BodyAuthored(l, members[i]);
    }
    ClonesDistinct(members, k, steps);
  }
}
