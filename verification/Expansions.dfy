/** The gate every runtime expansion passes through (internal/dag/expansion.go): run caps,
    injected ids, anchors, merged-graph cycles, loop ancestry and references. */
module Expansions {
  import opened Walks
  import opened Counting
  import opened Texts
  import opened Definitions
  import opened StepIds
  import opened Graphs
  import opened Searches
  import opened Cycles

  const PLAN_SCHEMA_VERSION := 1
  const DEFAULT_MAX_ADDED_STEPS := 32
  const DEFAULT_MAX_EXPANSIONS := 100
  const DEFAULT_MAX_DEPTH := 4
  const DEFAULT_MAX_TOTAL_STEPS := 10000

  datatype Policy = Policy(maxAddedSteps: Option<int>, maxTotalSteps: Option<int>,
                           maxExpansions: Option<int>, maxDepth: Option<int>)

  datatype Caps = Caps(maxAddedSteps: int, maxTotalSteps: int, maxExpansions: int, maxDepth: int)

  function OrDefault(value: Option<int>, default: int): int {
    if value.Some? then value.value else default
  }

  /** Applies the compiled defaults to an optional policy. */
  function Resolve(p: Option<Policy>): Caps {
    if p.None? then Caps(DEFAULT_MAX_ADDED_STEPS, DEFAULT_MAX_TOTAL_STEPS, DEFAULT_MAX_EXPANSIONS, DEFAULT_MAX_DEPTH)
    else Caps(OrDefault(p.value.maxAddedSteps, DEFAULT_MAX_ADDED_STEPS),
              OrDefault(p.value.maxTotalSteps, DEFAULT_MAX_TOTAL_STEPS),
              OrDefault(p.value.maxExpansions, DEFAULT_MAX_EXPANSIONS), OrDefault(p.value.maxDepth, DEFAULT_MAX_DEPTH))
  }

  datatype Plan = Plan(schemaVersion: int, steps: seq<Step>, edges: seq<Edge>)

  datatype OriginKind = FromPlanner | FromMap | FromLoop

  datatype AnchorStatus = AnchorPending | AnchorActive | AnchorTerminal

  datatype Anchor = Anchor(typ: StepType, status: AnchorStatus, succeeded: bool)

  datatype Input = Input(plan: Plan, kind: OriginKind, depth: int,
                         existing: map<string, Anchor>, existingEdges: seq<Edge>,
                         perExpansionCap: int, caps: Caps, currentStepCount: int, expansionsSoFar: int)

  datatype Limit = MaxAddedSteps | MaxTotalSteps | MaxExpansions | MaxDepth

  datatype CapBreach = CapBreach(limit: Limit, current: int, cap: int)

  datatype Code = FieldInvalid | CapExceeded | InvalidStepId | AnchorInvalid | DuplicateStepId
                | UnknownEndpoint | CycleDetected | LoopNotAncestor | RefInvalid

  datatype Issue = Issue(code: Code, at: nat)

  datatype Verdict = Verdict(issues: seq<Issue>, breaches: seq<CapBreach>)
  {
    predicate OK() {
      issues == []
    }

    predicate CapExceeded() {
      exists i :: 0 <= i < |issues| && issues[i].code == Code.CapExceeded
    }
  }

  // ---------- what the gate demands ----------

  ghost predicate WithinCaps(x: Input) {
    && (x.perExpansionCap > 0 ==> |x.plan.steps| <= x.perExpansionCap)
    && x.currentStepCount + |x.plan.steps| <= x.caps.maxTotalSteps
    && x.expansionsSoFar + 1 <= x.caps.maxExpansions
    && x.depth + 1 <= x.caps.maxDepth
  }

  /** Ids are well formed, fresh to the run, and distinct. Only map and loop deltas may mint instance ids. */
  predicate IdAllowed(x: Input, id: string) {
    IsStepId(id) || (x.plan.schemaVersion == PLAN_SCHEMA_VERSION && x.kind != FromPlanner && IsInstanceId(id))
  }

  ghost predicate IdsFit(x: Input) {
    && (forall i | 0 <= i < |x.plan.steps| :: IdAllowed(x, x.plan.steps[i].id) && x.plan.steps[i].id !in x.existing)
    && DistinctIds(x.plan.steps)
  }

  /** Endpoints resolve, every edge touches an injected step, no edge leaves a terminal step,
      and an edge enters an existing step only while that is pending. */
  predicate EdgeFits(x: Input, added: set<string>, e: Edge) {
    && (e.from in added || e.from in x.existing)
    && (e.to in added || e.to in x.existing)
    && (e.from in added || e.to in added)
    && (e.from in x.existing && e.from !in added ==> x.existing[e.from].status != AnchorTerminal)
    && (e.to in x.existing && e.to !in added ==> x.existing[e.to].status == AnchorPending)
  }

  ghost predicate EdgesFit(x: Input) {
    forall k | 0 <= k < |x.plan.edges| :: EdgeFits(x, Ids(x.plan.steps), x.plan.edges[k])
  }

  /** Everything the gate checks before it looks at the merged graph. */
  ghost predicate Fits(x: Input) {
    && x.plan.schemaVersion == PLAN_SCHEMA_VERSION && x.plan.steps != []
    && WithinCaps(x) && IdsFit(x) && EdgesFit(x)
  }

  /** The existing steps in id order, then the injected ones; the existing edges, then the new ones. */
  ghost predicate IsMerged(x: Input, def: Definition) {
    && |def.steps| >= |x.plan.steps|
    && def.steps[|def.steps| - |x.plan.steps|..] == x.plan.steps
    && (var before := def.steps[..|def.steps| - |x.plan.steps|];
        && Ids(before) == x.existing.Keys
        && (forall i, j | 0 <= i < j < |before| :: Less(before[i].id, before[j].id))
        && (forall s | s in before :: s.id in x.existing && s == Step(s.id, x.existing[s.id].typ, NoConfig, [])))
    && def.edges == x.existingEdges + x.plan.edges
  }

  predicate TouchesDelta(x: Input, e: Edge) {
    e.from in Ids(x.plan.steps) || e.to in Ids(x.plan.steps)
  }

  /** The cycle check as written: a finding counts only when its closing edge touches the delta. */
  ghost predicate NoneBlamed(x: Input, def: Definition, findings: seq<Finding>) {
    forall f | f in findings && f.edge < |def.edges| :: !TouchesDelta(x, def.edges[f.edge])
  }

  ghost predicate LoopsAnchored(x: Input, def: Definition) {
    forall k | 0 <= k < |x.plan.edges| :: LoopAnchored(def, x.plan.edges[k])
  }

  /** A loop edge leads back to a normal-edge ancestor of its source. */
  ghost predicate LoopAnchored(def: Definition, e: Edge) {
    e.IsLoop() ==> Reaches(Pairs(def.edges), e.to, e.from)
  }

  /** The steps a step's config (strict tokens) and context refer to, in order. */
  function TokenRefs(tokens: seq<Token>): seq<string> {
    if tokens == [] then []
    else
      var ref := RefStep(tokens[0].text);
      (if !tokens[0].lenient && ref.Some? then [ref.value] else []) + TokenRefs(tokens[1..])
  }

  function SourceRefs(sources: seq<ContextSource>): seq<string> {
    if sources == [] then []
    else (if sources[0].kind == StepOutput && sources[0].step != "" then [sources[0].step] else [])
         + SourceRefs(sources[1..])
  }

  function StepRefs(s: Step): seq<string> {
    (if s.config.Templated? then TokenRefs(s.config.tokens) else []) + SourceRefs(s.context)
  }

  /** The step is named by a strict token of the config, or by a step-output source of the context. */
  ghost predicate Names(s: Step, ref: string) {
    || (s.config.Templated? && exists t :: t in s.config.tokens && !t.lenient && Refers(t.text, ref))
    || (exists src :: src in s.context && src.kind == StepOutput && src.step == ref && ref != "")
  }

  /** The token is "steps.", the step's id, and then the end or a dot. */
  ghost predicate Refers(tok: string, ref: string) {
    '.' !in ref && exists tail :: tok == "steps." + ref + tail && (tail == "" || tail[0] == '.')
  }

  lemma RefersExact(tok: string, ref: string)
    ensures Refers(tok, ref) <==> RefStep(tok) == Some(ref)
  {
    if tail :| tok == "steps." + ref + tail && (tail == "" || tail[0] == '.') && '.' !in ref {
      assert tok == StepToken(ref, tail);
      assert HasPrefix(tok, "steps.") by { assert tok[..6] == "steps."; }
      StepTokenRefers(ref, tail);
    }
    if RefStep(tok) == Some(ref) {
      TokenParts(tok);
      assert tok == "steps." + ref + RefTail(tok);
    }
  }

  lemma {:induction false} TokenRefsExact(tokens: seq<Token>, ref: string)
    ensures ref in TokenRefs(tokens) <==> exists t :: t in tokens && !t.lenient && Refers(t.text, ref)
  {
    hide Refers, RefStep;
    if tokens != [] {
      TokenRefsExact(tokens[1..], ref);
      RefersExact(tokens[0].text, ref);
      assert forall t :: t in tokens <==> t == tokens[0] || t in tokens[1..];
    }
  }

  lemma {:induction false} SourceRefsExact(sources: seq<ContextSource>, ref: string)
    ensures ref in SourceRefs(sources) <==>
            exists src :: src in sources && src.kind == StepOutput && src.step == ref && ref != ""
  {
    if sources != [] {
      SourceRefsExact(sources[1..], ref);
      assert forall src :: src in sources <==> src == sources[0] || src in sources[1..];
    }
  }

  /** The references the gate checks are exactly those a step names; a lenient token names nothing. */
  lemma StepRefsExact(s: Step, ref: string)
    ensures ref in StepRefs(s) <==> Names(s, ref)
  {
    SourceRefsExact(s.context, ref);
    if s.config.Templated? {
      TokenRefsExact(s.config.tokens, ref);
    }
  }

  /** A reference resolves to a strict ancestor, or to an existing step whose output is already recorded. */
  ghost predicate RefResolves(x: Input, def: Definition, s: Step, ref: string) {
    && ref in Ids(def.steps) && ref != s.id
    && (Reaches(Pairs(def.edges), ref, s.id) || (ref in x.existing && x.existing[ref].succeeded))
  }

  ghost predicate RefsResolve(x: Input, def: Definition) {
    forall i | 0 <= i < |x.plan.steps| ::
      forall ref | ref in StepRefs(x.plan.steps[i]) :: RefResolves(x, def, x.plan.steps[i], ref)
  }

  // ---------- the checks ----------

  /** One record per crossed run guard, with the value the expansion would have reached. */
  function Breaches(x: Input): (r: seq<CapBreach>)
    ensures r == [] <==> WithinCaps(x)
    ensures forall b | b in r :: b.current > b.cap
  {
    var n := |x.plan.steps|;
    (if x.perExpansionCap > 0 && n > x.perExpansionCap then [CapBreach(MaxAddedSteps, n, x.perExpansionCap)] else [])
    + (if x.currentStepCount + n > x.caps.maxTotalSteps
       then [CapBreach(MaxTotalSteps, x.currentStepCount + n, x.caps.maxTotalSteps)] else [])
    + (if x.expansionsSoFar + 1 > x.caps.maxExpansions
       then [CapBreach(MaxExpansions, x.expansionsSoFar + 1, x.caps.maxExpansions)] else [])
    + (if x.depth + 1 > x.caps.maxDepth then [CapBreach(MaxDepth, x.depth + 1, x.caps.maxDepth)] else [])
  }

  /** The value a plan brings up to a run guard, and the guard's cap; no cap on added steps when none is set. */
  ghost predicate Crosses(x: Input, b: CapBreach) {
    && b.current > b.cap
    && match b.limit
       case MaxAddedSteps => b.current == |x.plan.steps| && b.cap == x.perExpansionCap && b.cap > 0
       case MaxTotalSteps => b.current == x.currentStepCount + |x.plan.steps| && b.cap == x.caps.maxTotalSteps
       case MaxExpansions => b.current == x.expansionsSoFar + 1 && b.cap == x.caps.maxExpansions
       case MaxDepth => b.current == x.depth + 1 && b.cap == x.caps.maxDepth
  }

  /** The records are exactly the crossings, each under the name of its own guard. */
  lemma BreachesExact(x: Input, b: CapBreach)
    ensures b in Breaches(x) <==> Crosses(x, b)
  {
    var n, total := |x.plan.steps|, x.currentStepCount + |x.plan.steps|;
    var added := if x.perExpansionCap > 0 && n > x.perExpansionCap
                 then [CapBreach(MaxAddedSteps, n, x.perExpansionCap)] else [];
    var all := if total > x.caps.maxTotalSteps then [CapBreach(MaxTotalSteps, total, x.caps.maxTotalSteps)] else [];
    assert b.limit.MaxAddedSteps? ==> (b in added <==> Crosses(x, b));
    assert b in Breaches(x) <==> b in added || b in all || b in Breaches(x)[|added| + |all|..];
  }

  /** A planner injects into the authored id space only: a plan of its own with a minted id does not fit. */
  lemma PlannersMintNothing(x: Input)
    requires x.kind == FromPlanner && IdsFit(x)
    ensures forall s | s in x.plan.steps :: '#' !in s.id && '.' !in s.id
  {
    forall s | s in x.plan.steps ensures '#' !in s.id && '.' !in s.id {
      var i :| 0 <= i < |x.plan.steps| && x.plan.steps[i] == s;
      assert IdAllowed(x, x.plan.steps[i].id);
      StepIdPlain(s.id);
    }
  }

  method CheckIds(x: Input) returns (issues: seq<Issue>)
    ensures issues == [] <==> IdsFit(x)
    ensures forall i | i in issues :: i.code in {InvalidStepId, AnchorInvalid, DuplicateStepId}
  {
    IdsFitAll(x);
    hide IdAllowed, IdsFitTo, IdsFit, DistinctIds;
    issues := [];
    var seen: set<string> := {};
    for i := 0 to |x.plan.steps|
      invariant seen == Ids(x.plan.steps[..i])
      invariant forall j | j in issues :: j.code in {InvalidStepId, AnchorInvalid, DuplicateStepId}
      invariant issues == [] <==> IdsFitTo(x, i)
    {
      var id := x.plan.steps[i].id;
      IdsFitStep(x, i);
      IdsGrow(x.plan.steps, i);
      if !IdAllowed(x, id) {
        issues := issues + [Issue(InvalidStepId, i)];
      }
      if id in x.existing {
        issues := issues + [Issue(AnchorInvalid, i)];
      }
      if id in seen {
        issues := issues + [Issue(DuplicateStepId, i)];
      }
      seen := seen + {id};
    }
  }

  ghost predicate IdsFitTo(x: Input, i: nat) {
    && i <= |x.plan.steps|
    && (forall j | 0 <= j < i :: IdAllowed(x, x.plan.steps[j].id) && x.plan.steps[j].id !in x.existing)
    && DistinctIds(x.plan.steps[..i])
  }

  lemma IdsFitAll(x: Input)
    ensures IdsFitTo(x, 0) && (IdsFitTo(x, |x.plan.steps|) <==> IdsFit(x))
  {
    assert x.plan.steps[..|x.plan.steps|] == x.plan.steps;
  }

  lemma IdsFitStep(x: Input, i: nat)
    requires i < |x.plan.steps|
    ensures var id := x.plan.steps[i].id;
            IdsFitTo(x, i + 1) <==>
              IdsFitTo(x, i) && IdAllowed(x, id) && id !in x.existing && id !in Ids(x.plan.steps[..i])
  {
    hide IdAllowed;
    IdsGrow(x.plan.steps, i);
  }

  lemma IdsGrow(steps: seq<Step>, i: nat)
    requires i < |steps|
    ensures Ids(steps[..i + 1]) == Ids(steps[..i]) + {steps[i].id}
    ensures DistinctIds(steps[..i + 1]) <==> DistinctIds(steps[..i]) && steps[i].id !in Ids(steps[..i])
  {
    assert steps[..i + 1] == steps[..i] + [steps[i]];
    var all := steps[..i + 1];
    if DistinctIds(all) {
      assert forall j | 0 <= j < i :: all[j].id != all[i].id;
    }
  }

  method CheckEdges(x: Input) returns (issues: seq<Issue>)
    ensures issues == [] <==> EdgesFit(x)
    ensures forall i | i in issues :: i.code in {UnknownEndpoint, AnchorInvalid}
  {
    issues := [];
    var added := Ids(x.plan.steps);
    for k := 0 to |x.plan.edges|
      invariant issues == [] <==> forall j | 0 <= j < k :: EdgeFits(x, added, x.plan.edges[j])
      invariant forall i | i in issues :: i.code in {UnknownEndpoint, AnchorInvalid}
    {
      var e := x.plan.edges[k];
      if e.from !in added && e.from !in x.existing {
        issues := issues + [Issue(UnknownEndpoint, k)];
      }
      if e.to !in added && e.to !in x.existing {
        issues := issues + [Issue(UnknownEndpoint, k)];
      }
      if e.from in x.existing && e.from !in added && e.to in x.existing && e.to !in added {
        issues := issues + [Issue(AnchorInvalid, k)];
      }
      if e.from in x.existing && e.from !in added && x.existing[e.from].status == AnchorTerminal {
        issues := issues + [Issue(AnchorInvalid, k)];
      }
      if e.to in x.existing && e.to !in added && x.existing[e.to].status != AnchorPending {
        issues := issues + [Issue(AnchorInvalid, k)];
      }
    }
  }

  method BuildMerged(x: Input) returns (def: Definition)
    ensures IsMerged(x, def)
  {
    var ids := SortStrings(x.existing.Keys);
    var steps := seq(|ids|, i requires 0 <= i < |ids| => Step(ids[i], x.existing[ids[i]].typ, NoConfig, []));
    assert forall i | 0 <= i < |ids| :: ids[i] in x.existing;
    assert Ids(steps) == x.existing.Keys by {
      forall id | id in x.existing ensures id in Ids(steps) {
        var i :| 0 <= i < |ids| && ids[i] == id;
        assert steps[i].id == id;
      }
    }
    def := Definition(steps + x.plan.steps, x.existingEdges + x.plan.edges);
    assert def.steps[..|def.steps| - |x.plan.steps|] == steps;
  }

  /** Blames the findings whose closing edge touches the delta. */
  method CheckCycles(x: Input, g: Graph) returns (issues: seq<Issue>, ghost findings: seq<Finding>)
    requires g.Valid()
    ensures IsSearchResult(g.def, findings)
    ensures issues == [] <==> NoneBlamed(x, g.def, findings)
  {
    hide NoneBlamed, IsCycleFinding, Graph.Valid, Pairs, TouchesDelta;
    var found := FindCycles(g);
    findings := found;
    issues := [];
    NoneFound(x, g.def);
    for i := 0 to |found|
      invariant issues == [] <==> NoneBlamed(x, g.def, found[..i])
    {
      assert found[..i + 1] == found[..i] + [found[i]];
      assert found[i] in found;
      FindingKnown(g.def, found[i]);
      BlameNext(x, g.def, found[..i], found[i]);
      if TouchesDelta(x, g.def.edges[found[i].edge]) {
        issues := issues + [Issue(CycleDetected, i)];
      }
    }
    assert found[..|found|] == found;
  }

  lemma NoneFound(x: Input, def: Definition)
    ensures NoneBlamed(x, def, [])
  {
  }

  lemma FindingKnown(def: Definition, f: Finding)
    requires IsCycleFinding(def, f)
    ensures f.edge < |def.edges|
  {
  }

  lemma BlameNext(x: Input, def: Definition, findings: seq<Finding>, f: Finding)
    requires f.edge < |def.edges|
    ensures NoneBlamed(x, def, findings + [f]) <==> NoneBlamed(x, def, findings) && !TouchesDelta(x, def.edges[f.edge])
  {
    hide TouchesDelta;
    assert forall g :: g in findings + [f] <==> g in findings || g == f;
  }

  /** Loop edges of the plan must lead back to a normal-edge ancestor; unknown ends were reported earlier. */
  method CheckLoops(x: Input, g: Graph) returns (issues: seq<Issue>)
    requires g.Valid() && EndpointsIn(x.plan.edges, g.index.Keys)
    ensures issues == [] <==> LoopsAnchored(x, g.def)
  {
    hide Graph.Valid;
    issues := [];
    for k := 0 to |x.plan.edges|
      invariant issues == [] <==> forall j | 0 <= j < k :: LoopAnchored(g.def, x.plan.edges[j])
    {
      var ok := LoopEdgeOK(g, x.plan.edges[k]);
      if !ok {
        issues := issues + [Issue(LoopNotAncestor, k)];
      }
    }
  }

  method LoopEdgeOK(g: Graph, e: Edge) returns (ok: bool)
    requires g.Valid() && e.from in g.index && e.to in g.index
    ensures ok <==> LoopAnchored(g.def, e)
  {
    if !e.IsLoop() {
      return true;
    }
    ok := CanReach(g, g.index[e.to], g.index[e.from]);
  }

  method CheckRefs(x: Input, g: Graph) returns (issues: seq<Issue>)
    requires g.Valid() && forall i | 0 <= i < |x.plan.steps| :: x.plan.steps[i].id in g.index
    ensures issues == [] <==> RefsResolve(x, g.def)
  {
    issues := [];
    for i := 0 to |x.plan.steps|
      invariant issues == [] <==>
                forall j | 0 <= j < i ::
                  forall ref | ref in StepRefs(x.plan.steps[j]) :: RefResolves(x, g.def, x.plan.steps[j], ref)
    {
      var ok := RefsOfStepOK(x, g, x.plan.steps[i]);
      if !ok {
        issues := issues + [Issue(RefInvalid, i)];
      }
    }
  }

  lemma Indexed(g: Graph)
    requires g.Valid()
    ensures g.index.Keys == Ids(g.def.steps)
  {
  }

  lemma RefVerdict(x: Input, g: Graph, s: Step, ancestors: set<string>, ref: string)
    requires g.Valid() && forall id :: id in ancestors <==> Reaches(g.Relation(), id, s.id)
    ensures RefResolves(x, g.def, s, ref) <==>
            ref in g.index && ref != s.id && (ref in ancestors || (ref in x.existing && x.existing[ref].succeeded))
  {
    Indexed(g);
  }

  method RefsOfStepOK(x: Input, g: Graph, s: Step) returns (ok: bool)
    requires g.Valid() && s.id in g.index
    ensures ok <==> forall ref | ref in StepRefs(s) :: RefResolves(x, g.def, s, ref)
  {
    hide RefResolves, Graph.Valid, Graph.Relation, StepRefs;
    Indexed(g);
    var ancestors := Ancestors(g, s.id);
    var refs := StepRefs(s);
    ok := true;
    for k := 0 to |refs|
      invariant ok <==> forall j | 0 <= j < k :: RefResolves(x, g.def, s, refs[j])
    {
      var ref := refs[k];
      RefVerdict(x, g, s, ancestors.value, ref);
      if ref !in g.index || ref == s.id {
        ok := false;
      } else if ref !in ancestors.value && !(ref in x.existing && x.existing[ref].succeeded) {
        ok := false;
      }
    }
  }

  predicate Has(issues: seq<Issue>, codes: set<Code>) {
    exists i :: 0 <= i < |issues| && issues[i].code in codes
  }

  /** Version, emptiness and the run guards: decided on counts alone. */
  method CheckCounts(x: Input) returns (issues: seq<Issue>)
    ensures issues == [] <==> x.plan.schemaVersion == PLAN_SCHEMA_VERSION && x.plan.steps != [] && WithinCaps(x)
    ensures forall i | i in issues :: i.code in {FieldInvalid, CapExceeded}
    ensures Has(issues, {CapExceeded}) <==> Breaches(x) != []
  {
    issues := [];
    if x.plan.schemaVersion != PLAN_SCHEMA_VERSION {
      issues := issues + [Issue(FieldInvalid, 0)];
    }
    if |x.plan.steps| == 0 {
      issues := issues + [Issue(FieldInvalid, 0)];
    }
    var n := |issues|;
    issues := issues + seq(|Breaches(x)|, i => Issue(CapExceeded, 0));
    assert Breaches(x) != [] ==> issues[n].code == CapExceeded;
  }

  /** The checks on the merged graph, skipped when it does not compile. */
  method CheckMerged(x: Input) returns (issues: seq<Issue>, ghost def: Definition, ghost findings: seq<Finding>)
    requires IdsFit(x) && EdgesFit(x)
    ensures IsMerged(x, def) && (WellFormed(def) ==> IsSearchResult(def, findings))
    ensures issues == [] <==> (WellFormed(def) ==> MergedFits(x, def, findings))
  {
    hide IsMerged, WellFormed, Graph.Valid, IdsFit, EdgesFit, IsSearchResult, NoneBlamed, LoopsAnchored, RefsResolve;
    var merged := BuildMerged(x);
    def, findings, issues := merged, [], [];
    var graph := NewGraph(merged);
    if graph.Ok? {
      PlanIndexed(x, graph.value);
      var cycles, loops, refs;
      cycles, findings := CheckCycles(x, graph.value);
      loops := CheckLoops(x, graph.value);
      refs := CheckRefs(x, graph.value);
      issues := cycles + loops + refs;
    }
  }

  lemma PlanIndexed(x: Input, g: Graph)
    requires g.Valid() && IsMerged(x, g.def) && EdgesFit(x)
    ensures EndpointsIn(x.plan.edges, g.index.Keys)
    ensures forall i | 0 <= i < |x.plan.steps| :: x.plan.steps[i].id in g.index
  {
    MergedKnows(x, g.def);
    Indexed(g);
    forall k | 0 <= k < |x.plan.edges|
      ensures x.plan.edges[k].from in g.index && x.plan.edges[k].to in g.index
    {
      assert EdgeFits(x, Ids(x.plan.steps), x.plan.edges[k]);
    }
  }

  /** No finding is blamed on the plan, its loop edges are anchored and its references resolve. */
  ghost predicate MergedFits(x: Input, def: Definition, findings: seq<Finding>) {
    NoneBlamed(x, def, findings) && LoopsAnchored(x, def) && RefsResolve(x, def)
  }

  /** The verdict is clean exactly when the input fits and, if the merged graph compiles, the merged graph does too. */
  method ValidateExpansion(x: Input) returns (v: Verdict, ghost def: Definition, ghost findings: seq<Finding>)
    ensures IdsFit(x) && EdgesFit(x) ==> IsMerged(x, def) && (WellFormed(def) ==> IsSearchResult(def, findings))
    ensures v.OK() <==> Fits(x) && (WellFormed(def) ==> MergedFits(x, def, findings))
    ensures v.OK() && WellFormed(def) ==>
              forall e | e in x.plan.edges && e.typ == Loop :: Reaches(Pairs(def.edges), e.to, e.from)
    ensures v.breaches == Breaches(x)
    ensures !WithinCaps(x) ==> v.CapExceeded()
  {
    var counts := CheckCounts(x);
    var ids := CheckIds(x);
    var edges := CheckEdges(x);
    var issues := counts + ids + edges;
    def, findings := Definition([], []), [];
    GateCodes(counts, ids, edges);
    if !Has(issues, {DuplicateStepId, UnknownEndpoint, AnchorInvalid, InvalidStepId}) {
      var merged;
      merged, def, findings := CheckMerged(x);
      issues := issues + merged;
    }
    v := Verdict(issues, Breaches(x));
    LoopsLeadBack(x, def);
    if Has(counts, {CapExceeded}) {
      var i :| 0 <= i < |counts| && counts[i].code in {CapExceeded};
      assert v.issues[i] == counts[i];
    }
  }

  lemma LoopsLeadBack(x: Input, def: Definition)
    ensures LoopsAnchored(x, def) ==>
              forall e | e in x.plan.edges && e.typ == Loop :: Reaches(Pairs(def.edges), e.to, e.from)
  {
    if LoopsAnchored(x, def) {
      forall e | e in x.plan.edges && e.typ == Loop ensures Reaches(Pairs(def.edges), e.to, e.from) {
        var k :| 0 <= k < |x.plan.edges| && x.plan.edges[k] == e;
        assert LoopAnchored(def, x.plan.edges[k]);
      }
    }
  }

  /** The graph checks run exactly when the id and edge checks are clean. */
  lemma GateCodes(counts: seq<Issue>, ids: seq<Issue>, edges: seq<Issue>)
    requires forall i | i in counts :: i.code in {FieldInvalid, CapExceeded}
    requires forall i | i in ids :: i.code in {InvalidStepId, AnchorInvalid, DuplicateStepId}
    requires forall i | i in edges :: i.code in {UnknownEndpoint, AnchorInvalid}
    ensures !Has(counts + ids + edges, {DuplicateStepId, UnknownEndpoint, AnchorInvalid, InvalidStepId}) <==>
            ids == [] && edges == []
  {
    var all := counts + ids + edges;
    if ids != [] {
      assert all[|counts|] == ids[0] && ids[0] in ids;
    } else if edges != [] {
      assert all[|counts|] == edges[0] && edges[0] in edges;
    } else {
      assert all == counts;
      assert forall i | 0 <= i < |all| :: all[i] in counts;
    }
  }

  lemma MergedKnows(x: Input, def: Definition)
    requires IsMerged(x, def)
    ensures Ids(def.steps) == x.existing.Keys + Ids(x.plan.steps)
  {
    var n := |def.steps| - |x.plan.steps|;
    assert def.steps == def.steps[..n] + def.steps[n..];
  }
}
