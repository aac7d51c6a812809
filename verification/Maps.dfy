/** The map fan-out generator (internal/dag/mapexpand.go): the plan a map step's completion applies. */
module Maps {
  import opened Walks
  import opened Counting
  import opened Texts
  import opened Definitions
  import opened StepIds
  import opened Expansions
  import opened Fanout

  datatype MapError = EmptyBody | NotOneSink(sinks: seq<string>)

  // ---------- cloning a template step ----------

  function InstanceTokens(tokens: seq<Token>, mapStep: string, k: nat): seq<Token> {
    seq(|tokens|, i requires 0 <= i < |tokens| => Token(MapRewrite(mapStep, k, tokens[i].text), tokens[i].lenient))
  }

  function InstanceSources(sources: seq<ContextSource>, k: nat): seq<ContextSource> {
    seq(|sources|, i requires 0 <= i < |sources| =>
      var src := sources[i];
      if src.kind == StepOutput && src.step != "" then src.(step := InstanceId(src.step, k)) else src)
  }

  function InstanceStep(s: Step, mapStep: string, k: nat): Step {
    Step(InstanceId(s.id, k), s.typ,
         if s.config.Templated? then Templated(InstanceTokens(s.config.tokens, mapStep, k)) else s.config,
         InstanceSources(s.context, k))
  }

  /** Every reference of an instance step is to the map step or to the instance of a template reference. */
  lemma {:induction false} InstanceTokenRefs(tokens: seq<Token>, mapStep: string, k: nat, ref: string)
    requires '.' !in mapStep && ref in TokenRefs(InstanceTokens(tokens, mapStep, k))
    ensures ref == mapStep || exists x :: x in TokenRefs(tokens) && ref == InstanceId(x, k)
  {
    var cloned := InstanceTokens(tokens, mapStep, k);
    var rest := tokens[1..];
    assert cloned[1..] == InstanceTokens(rest, mapStep, k);
    MapRewriteRefers(mapStep, k, tokens[0].text);
    if ref in TokenRefs(cloned[1..]) {
      InstanceTokenRefs(rest, mapStep, k, ref);
    }
  }

  lemma {:induction false} InstanceSourceRefs(sources: seq<ContextSource>, k: nat, ref: string)
    requires ref in SourceRefs(InstanceSources(sources, k))
    ensures exists x :: x in SourceRefs(sources) && ref == InstanceId(x, k)
  {
    var cloned := InstanceSources(sources, k);
    assert cloned[1..] == InstanceSources(sources[1..], k);
    if ref in SourceRefs(cloned[1..]) {
      InstanceSourceRefs(sources[1..], k, ref);
    } else {
      assert sources[0].step in SourceRefs(sources);
    }
  }

  lemma InstanceRefs(s: Step, mapStep: string, k: nat, ref: string)
    requires '.' !in mapStep && ref in StepRefs(InstanceStep(s, mapStep, k))
    ensures ref == mapStep || exists x :: x in StepRefs(s) && ref == InstanceId(x, k)
  {
    var inst := InstanceStep(s, mapStep, k);
    if ref in SourceRefs(inst.context) {
      InstanceSourceRefs(s.context, k, ref);
    } else {
      InstanceTokenRefs(s.config.tokens, mapStep, k, ref);
    }
  }

  // ---------- the frontier ----------

  ghost predicate Enters(edges: seq<Edge>, id: string) {
    exists i :: 0 <= i < |edges| && !edges[i].IsLoop() && edges[i].to == id
  }

  ghost predicate Leaves(edges: seq<Edge>, id: string) {
    exists i :: 0 <= i < |edges| && !edges[i].IsLoop() && edges[i].from == id
  }

  /** The steps without a normal in-edge and those without a normal out-edge, in template order. */
  method TemplateFrontier(tmpl: Definition) returns (entries: seq<string>, sinks: seq<string>)
    requires DistinctIds(tmpl.steps)
    ensures FollowsOrder(tmpl.steps, entries) && FollowsOrder(tmpl.steps, sinks)
    ensures Distinct(entries) && forall id :: id in entries <==> id in Ids(tmpl.steps) && !Enters(tmpl.edges, id)
    ensures Distinct(sinks) && forall id :: id in sinks <==> id in Ids(tmpl.steps) && !Leaves(tmpl.edges, id)
  {
    var entered, left := Degrees(tmpl.edges);
    entries, sinks := [], [];
    for i := 0 to |tmpl.steps|
      invariant Distinct(entries) && Distinct(sinks)
      invariant FollowsOrder(tmpl.steps, entries) && FollowsOrder(tmpl.steps, sinks)
      invariant forall id :: id in entries <==> id in Ids(tmpl.steps[..i]) && id !in entered
      invariant forall id :: id in sinks <==> id in Ids(tmpl.steps[..i]) && id !in left
    {
      var id := tmpl.steps[i].id;
      IdsGrow(tmpl.steps, i);
      assert tmpl.steps[..|tmpl.steps|] == tmpl.steps;
      PrefixDistinct(tmpl.steps, i);
      if id !in entered {
        OrderGrows(tmpl.steps, entries, i);
        entries := entries + [id];
      }
      if id !in left {
        OrderGrows(tmpl.steps, sinks, i);
        sinks := sinks + [id];
      }
    }
    assert tmpl.steps[..|tmpl.steps|] == tmpl.steps;
  }

  lemma PrefixDistinct(steps: seq<Step>, i: nat)
    requires DistinctIds(steps) && i < |steps|
    ensures steps[i].id !in Ids(steps[..i])
  {
    assert steps[..i + 1] == steps[..i] + [steps[i]];
  }

  /** Which steps some normal edge enters, and which one leaves. */
  method Degrees(edges: seq<Edge>) returns (entered: set<string>, left: set<string>)
    ensures forall id :: id in entered <==> Enters(edges, id)
    ensures forall id :: id in left <==> Leaves(edges, id)
  {
    entered, left := {}, {};
    for i := 0 to |edges|
      invariant forall id :: id in entered <==> exists j :: 0 <= j < i && !edges[j].IsLoop() && edges[j].to == id
      invariant forall id :: id in left <==> exists j :: 0 <= j < i && !edges[j].IsLoop() && edges[j].from == id
    {
      if !edges[i].IsLoop() {
        entered := entered + {edges[i].to};
        left := left + {edges[i].from};
      }
    }
  }

  // ---------- the plan ----------

  function InstanceEdge(e: Edge, k: nat): Edge {
    Edge(InstanceId(e.from, k), InstanceId(e.to, k), e.when, e.typ, e.condition, e.maxIterations, e.decision)
  }

  /** The edges of instance k: the template's, the map step into each entry, the sink into the gather. */
  function EdgesOf(tmpl: Definition, entries: seq<string>, sink: string, mapStep: string, k: nat): seq<Edge> {
    seq(|tmpl.edges|, i requires 0 <= i < |tmpl.edges| => InstanceEdge(tmpl.edges[i], k))
    + seq(|entries|, i requires 0 <= i < |entries| => Plain(mapStep, InstanceId(entries[i], k)))
    + [Plain(InstanceId(sink, k), GatherId(mapStep))]
  }

  function StepsOf(tmpl: Definition, mapStep: string, k: nat): seq<Step> {
    seq(|tmpl.steps|, i requires 0 <= i < |tmpl.steps| => InstanceStep(tmpl.steps[i], mapStep, k))
  }

  function AllEdges(tmpl: Definition, entries: seq<string>, sink: string, mapStep: string, n: nat): seq<Edge> {
    if n == 0 then [] else AllEdges(tmpl, entries, sink, mapStep, n - 1) + EdgesOf(tmpl, entries, sink, mapStep, n - 1)
  }

  function AllSteps(tmpl: Definition, mapStep: string, n: nat): seq<Step> {
    if n == 0 then [] else AllSteps(tmpl, mapStep, n - 1) + StepsOf(tmpl, mapStep, n - 1)
  }

  function SinkTokens(sink: string, n: nat): seq<Token> {
    if n == 0 then [] else SinkTokens(sink, n - 1) + [Token(StepToken(InstanceId(sink, n - 1), ".output"), false)]
  }

  /** The barrier that collects each instance's sink output, in item order. */
  function GatherStep(sink: string, mapStep: string, n: nat): Step {
    Step(GatherId(mapStep), StepGather, Templated(SinkTokens(sink, n)), [])
  }

  ghost predicate IsMapPlan(tmpl: Definition, entries: seq<string>, sink: string, mapStep: string, n: nat, plan: Plan) {
    && plan.schemaVersion == PLAN_SCHEMA_VERSION
    && plan.steps == AllSteps(tmpl, mapStep, n) + [GatherStep(sink, mapStep, n)]
    && plan.edges == AllEdges(tmpl, entries, sink, mapStep, n)
  }

  /** The entries in template order, and the one sink. */
  ghost predicate IsFrontier(tmpl: Definition, entries: seq<string>, sink: string) {
    && FollowsOrder(tmpl.steps, entries)
    && (forall id :: id in entries <==> id in Ids(tmpl.steps) && !Enters(tmpl.edges, id))
    && (forall id :: id == sink <==> id in Ids(tmpl.steps) && !Leaves(tmpl.edges, id))
  }

  method GenerateMapExpansion(tmpl: Definition, items: nat, mapStep: string)
    returns (r: Result<Plan, MapError>)
    requires DistinctIds(tmpl.steps)
    ensures match r
            case Err(EmptyBody) => tmpl.steps == []
            case Err(NotOneSink(sinks)) =>
              && tmpl.steps != [] && |sinks| != 1
              && Distinct(sinks) && forall id :: id in sinks <==> id in Ids(tmpl.steps) && !Leaves(tmpl.edges, id)
            case Ok(plan) =>
              exists entries, sink ::
                IsFrontier(tmpl, entries, sink) && IsMapPlan(tmpl, entries, sink, mapStep, items, plan)
  {
    if |tmpl.steps| == 0 {
      return Err(EmptyBody);
    }
    var found, sinks := TemplateFrontier(tmpl);
    if |sinks| != 1 {
      return Err(NotOneSink(sinks));
    }
    assert IsFrontier(tmpl, found, sinks[0]);
    var steps: seq<Step>, edges: seq<Edge>, tokens: seq<Token> := [], [], [];
    for k := 0 to items
      invariant steps == AllSteps(tmpl, mapStep, k) && edges == AllEdges(tmpl, found, sinks[0], mapStep, k)
      invariant tokens == SinkTokens(sinks[0], k)
    {
      steps := steps + StepsOf(tmpl, mapStep, k);
      edges := edges + EdgesOf(tmpl, found, sinks[0], mapStep, k);
      tokens := tokens + [Token(StepToken(InstanceId(sinks[0], k), ".output"), false)];
    }
    r := Ok(Plan(PLAN_SCHEMA_VERSION, steps + [Step(GatherId(mapStep), StepGather, Templated(tokens), [])], edges));
  }

  // ---------- the plan edge by edge ----------

  /** p is e between the k-th instances of its ends, with everything else e says. */
  ghost predicate Instantiates(e: Edge, k: nat, p: Edge) {
    && p.from == InstanceId(e.from, k) && p.to == InstanceId(e.to, k)
    && p.typ == e.typ && p.when == e.when && p.decision == e.decision
    && p.condition == e.condition && p.maxIterations == e.maxIterations
  }

  /** The edges of instance k: the template's, and unconditioned ones from the map step and into the gather. */
  ghost predicate InInstance(tmpl: Definition, entries: seq<string>, sink: string, mapStep: string, k: nat, p: Edge) {
    || (exists e :: e in tmpl.edges && Instantiates(e, k, p))
    || (exists id :: id in entries && p == Edge(mapStep, InstanceId(id, k), "", Normal, "", 0, ""))
    || p == Edge(InstanceId(sink, k), GatherId(mapStep), "", Normal, "", 0, "")
  }

  lemma EdgesOfExact(tmpl: Definition, entries: seq<string>, sink: string, mapStep: string, k: nat, p: Edge)
    ensures p in EdgesOf(tmpl, entries, sink, mapStep, k) <==> InInstance(tmpl, entries, sink, mapStep, k, p)
  {
    hide InstanceId, GatherId;
    var copies := seq(|tmpl.edges|, i requires 0 <= i < |tmpl.edges| => InstanceEdge(tmpl.edges[i], k));
    var splices := seq(|entries|, i requires 0 <= i < |entries| => Plain(mapStep, InstanceId(entries[i], k)));
    CopiesExact(tmpl.edges, k, copies, p);
    SplicesExact(entries, mapStep, k, splices, p);
    hide InstanceEdge, Instantiates;
    assert EdgesOf(tmpl, entries, sink, mapStep, k)
           == copies + splices + [Plain(InstanceId(sink, k), GatherId(mapStep))];
  }

  lemma CopiesExact(edges: seq<Edge>, k: nat, copies: seq<Edge>, p: Edge)
    requires |copies| == |edges| && forall i | 0 <= i < |edges| :: copies[i] == InstanceEdge(edges[i], k)
    ensures p in copies <==> exists e :: e in edges && Instantiates(e, k, p)
  {
    if e :| e in edges && Instantiates(e, k, p) {
      var i :| 0 <= i < |edges| && edges[i] == e;
      assert copies[i] == p;
    }
    if i :| 0 <= i < |copies| && copies[i] == p {
      assert edges[i] in edges && Instantiates(edges[i], k, p);
    }
  }

  lemma SplicesExact(entries: seq<string>, mapStep: string, k: nat, splices: seq<Edge>, p: Edge)
    requires |splices| == |entries|
    requires forall i | 0 <= i < |entries| :: splices[i] == Plain(mapStep, InstanceId(entries[i], k))
    ensures p in splices <==> exists id :: id in entries && p == Edge(mapStep, InstanceId(id, k), "", Normal, "", 0, "")
  {
    hide InstanceId;
    if id :| id in entries && p == Edge(mapStep, InstanceId(id, k), "", Normal, "", 0, "") {
      var i :| 0 <= i < |entries| && entries[i] == id;
      assert splices[i] == p;
    }
    if i :| 0 <= i < |splices| && splices[i] == p {
      assert entries[i] in entries;
    }
  }

  /** The plan holds exactly the edges of its instances, every condition, decision and loop marker kept. */
  lemma {:induction false} MapEdgesExact(tmpl: Definition, entries: seq<string>, sink: string, mapStep: string, n: nat,
                                         p: Edge)
    ensures p in AllEdges(tmpl, entries, sink, mapStep, n) <==>
            exists k: nat :: k < n && InInstance(tmpl, entries, sink, mapStep, k, p)
  {
    hide EdgesOf, InInstance;
    if n > 0 {
      MapEdgesExact(tmpl, entries, sink, mapStep, n - 1, p);
      EdgesOfExact(tmpl, entries, sink, mapStep, n - 1, p);
    }
  }
}
