/** How a template reference is read when a step runs (internal/dag/template.go), and that rewriting references for a
    loop iteration or a map instance preserves what they read (internal/dag/loopexpand.go,
    internal/dag/mapexpand.go). */
module Rendering {
  import opened Definitions
  import opened StepIds
  import opened Texts
  import Loops
  import Maps
  import opened Expansions
  import opened Resolution
  import opened Unrolling

  /** The recorded outputs of a run, by step id. */
  type Outputs = map<string, Json>

  /** What references are resolved against: each step's output and the run's parameters. */
  function Root(outputs: Outputs, params: Json): map<string, Json> {
    map["steps" := Object(map id | id in outputs :: Object(map["output" := outputs[id]])),
        "run" := Object(map["params" := params])]
  }

  /** The value a dotted reference reads. */
  function Read(root: map<string, Json>, ref: string): Option<Json> {
    Walk(Object(root), Split(ref, '.'))
  }

  method ResolvePath(root: map<string, Json>, ref: string) returns (r: Option<Json>)
    ensures r == Read(root, ref)
  {
    var tokens, cur := Split(ref, '.'), Object(root);
    for i := 0 to |tokens|
      invariant Walk(Object(root), tokens[..i]) == Some(cur)
    {
      assert tokens == tokens[..i] + tokens[i..];
      WalkConcat(Object(root), tokens[..i], tokens[i..]);
      assert tokens[..i + 1] == tokens[..i] + [tokens[i]];
      WalkConcat(Object(root), tokens[..i], [tokens[i]]);
      var next := Resolution.Step(cur, tokens[i]);
      if next.None? {
        return None;
      }
      cur := next.value;
    }
    assert tokens[..|tokens|] == tokens;
    return Some(cur);
  }

  // ---------- reading a step's output ----------

  /** What a path reads inside the output of a step, were it recorded. */
  function ReadStep(outputs: Outputs, id: string, path: seq<string>): Option<Json> {
    if id in outputs then Walk(Object(map["output" := outputs[id]]), path) else None
  }

  lemma ReadSteps(root: map<string, Json>, outputs: Outputs, params: Json, path: seq<string>)
    requires root.Keys >= {"steps"} && root["steps"] == Root(outputs, params)["steps"] && path != []
    ensures Walk(Object(root), ["steps"] + path) == ReadStep(outputs, path[0], path[1..])
  {
    assert (["steps"] + path)[1..] == path;
  }

  lemma SplitHead(head: string, rest: string)
    requires '.' !in head
    ensures Split(head + "." + rest, '.') == [head] + Split(rest, '.')
  {
    SplitOnce(head, rest, '.');
  }

  /** The segments of a path that follows some head: none, or what stands behind its leading dot. */
  function Behind(tail: string): seq<string> {
    if tail == "" then [] else Split(tail[1..], '.')
  }

  lemma SplitTail(head: string, tail: string)
    requires '.' !in head && (tail == "" || tail[0] == '.')
    ensures Split(head + tail, '.') == [head] + Behind(tail)
  {
    hide Split;
    if tail == "" {
      assert head + tail == head;
      SplitNone(head, '.');
    } else {
      assert head + tail == head + "." + tail[1..];
      SplitHead(head, tail[1..]);
    }
  }

  lemma ReadToken(root: map<string, Json>, outputs: Outputs, params: Json, id: string, tail: string)
    requires root.Keys >= {"steps"} && root["steps"] == Root(outputs, params)["steps"]
    requires '.' !in id && (tail == "" || tail[0] == '.')
    ensures Read(root, StepToken(id, tail)) == ReadStep(outputs, id, Behind(tail))
  {
    hide Split, Root, ReadStep, Behind, Walk;
    assert StepToken(id, tail) == "steps" + "." + (id + tail);
    SplitHead("steps", id + tail);
    SplitTail(id, tail);
    var path := [id] + Behind(tail);
    assert path[1..] == Behind(tail);
    ReadSteps(root, outputs, params, path);
  }

  /** A reference to something else than a step reads the same wherever that something is the same. */
  lemma ReadElsewhere(a: map<string, Json>, b: map<string, Json>, ref: string)
    requires var head := Before(ref, '.'); (head in a <==> head in b) && (head in a ==> a[head] == b[head])
    ensures Read(a, ref) == Read(b, ref)
  {
  }

  lemma HeadIsSteps(ref: string, head: string)
    requires Before(ref, '.') == head
    ensures ref == head || HasPrefix(ref, head + ".")
  {
    if '.' in ref {
      assert ref == head + "." + ref[|head| + 1..];
    }
  }

  // ---------- loop iterations ----------

  /** The outputs as an iteration of the body sees them: its own for the body's steps, the run's for all others. */
  function Iteration(outputs: Outputs, body: set<string>, iter: nat): Outputs {
    map id | id in (outputs.Keys - body) + (set id | id in body && InstanceId(id, iter) in outputs) ::
      outputs[if id in body then InstanceId(id, iter) else id]
  }

  /** A reference rewritten for an iteration reads in the run what the authored one reads in that iteration. The bare
      root is no reference: a template with it does not parse. */
  lemma LoopRewriteReads(outputs: Outputs, params: Json, body: set<string>, iter: nat, ref: string)
    requires ref != "steps"
    ensures Read(Root(outputs, params), LoopRewrite(body, iter, ref))
            == Read(Root(Iteration(outputs, body, iter), params), ref)
  {
    hide Read, ReadStep, Root, Behind;
    var run, own := Root(outputs, params), Root(Iteration(outputs, body, iter), params);
    RootKeys(outputs, params);
    RootKeys(Iteration(outputs, body, iter), params);
    if HasPrefix(ref, "steps.") {
      TokenParts(ref);
      var id, tail := RefStep(ref).value, RefTail(ref);
      var moved := if id in body then InstanceId(id, iter) else id;
      InstanceIdUndotted(id, iter);
      ReadToken(own, Iteration(outputs, body, iter), params, id, tail);
      ReadToken(run, outputs, params, moved, tail);
      ReadMoved(outputs, body, iter, id, Behind(tail));
    } else {
      HeadIsSteps(ref, Before(ref, '.'));
      ReadElsewhere(run, own, ref);
    }
  }

  lemma RootKeys(outputs: Outputs, params: Json)
    ensures Root(outputs, params).Keys == {"steps", "run"}
    ensures Root(outputs, params)["run"] == Object(map["params" := params])
  {
  }

  lemma ReadMoved(outputs: Outputs, body: set<string>, iter: nat, id: string, path: seq<string>)
    ensures ReadStep(Iteration(outputs, body, iter), id, path)
            == ReadStep(outputs, if id in body then InstanceId(id, iter) else id, path)
  {
  }

  // ---------- map instances ----------

  /** What a map step records: its items, their positions and their number. */
  function MapOutput(items: seq<Json>): Json {
    Object(map["items" := Array(items),
               "indices" := Array(seq(|items|, i requires 0 <= i < |items| => Scalar(Decimal(i)))),
               "count" := Scalar(Decimal(|items|))])
  }

  /** The outputs as instance k sees them: the template's steps under their own names. */
  function Instance(outputs: Outputs, k: nat): Outputs {
    map id | id in BasesOf(outputs, k) :: outputs[InstanceId(id, k)]
  }

  function BasesOf(outputs: Outputs, k: nat): (ids: set<string>)
    ensures forall id :: id in ids <==> InstanceId(id, k) in outputs
  {
    var n := |Decimal(k)| + 1;
    var ids := set long | long in outputs && |long| >= n && long == InstanceId(long[..|long| - n], k) ::
      long[..|long| - n];
    assert forall id :: InstanceId(id, k) in outputs ==> InstanceId(id, k)[..|InstanceId(id, k)| - n] == id;
    ids
  }

  /** What the references of instance k are about: its own steps, the run's parameters, its item and its position. */
  function View(outputs: Outputs, params: Json, items: seq<Json>, k: nat): map<string, Json>
    requires k < |items|
  {
    Root(Instance(outputs, k), params)["item" := items[k]]["item_index" := Scalar(Decimal(k))]
  }

  /** A reference rewritten for instance k reads in the run what the authored one reads in the instance's view: item k,
      position k, the instance's own steps. */
  lemma MapRewriteReads(outputs: Outputs, params: Json, items: seq<Json>, mapStep: string, k: nat, ref: string)
    requires k < |items| && '.' !in mapStep && mapStep in outputs && outputs[mapStep] == MapOutput(items)
    requires ref != "steps"
    ensures Read(Root(outputs, params), MapRewrite(mapStep, k, ref)) == Read(View(outputs, params, items, k), ref)
  {
    hide Read, ReadStep, Root, Behind, MapOutput;
    var run, own := Root(outputs, params), View(outputs, params, items, k);
    RootKeys(outputs, params);
    RootKeys(Instance(outputs, k), params);
    if HasPrefix(ref, "steps.") {
      TokenParts(ref);
      var id, tail := RefStep(ref).value, RefTail(ref);
      assert ref[0] == 's';
      InstanceIdUndotted(id, k);
      ReadToken(own, Instance(outputs, k), params, id, tail);
      ReadToken(run, outputs, params, InstanceId(id, k), tail);
      ReadInstance(outputs, k, id, Behind(tail));
    } else if ref == "item" || HasPrefix(ref, "item.") {
      ReadItem(outputs, params, items, mapStep, k, ref[4..], own);
      assert ref == "item" + ref[4..];
    } else if ref == "item_index" {
      ReadIndex(outputs, params, items, mapStep, k, own);
    } else {
      HeadIsSteps(ref, Before(ref, '.'));
      if Before(ref, '.') == "item_index" {
        ReadInsideIndex(run, own, k, ref);
      } else {
        ReadElsewhere(run, own, ref);
      }
    }
  }

  lemma ReadInstance(outputs: Outputs, k: nat, id: string, path: seq<string>)
    ensures ReadStep(Instance(outputs, k), id, path) == ReadStep(outputs, InstanceId(id, k), path)
  {
  }

  lemma ReadOutput(outputs: Outputs, items: seq<Json>, mapStep: string, k: nat, rest: seq<string>)
    requires k < |items| && mapStep in outputs && outputs[mapStep] == MapOutput(items)
    ensures ReadStep(outputs, mapStep, ["output", "items", Decimal(k)] + rest) == Walk(items[k], rest)
    ensures ReadStep(outputs, mapStep, ["output", "indices", Decimal(k)]) == Some(Scalar(Decimal(k)))
  {
    AtoiInverts(k);
    var doc := Object(map["output" := MapOutput(items)]);
    WalkThree(doc, MapOutput(items), Array(items), "items", k, rest);
    var indices := MapOutput(items).fields["indices"];
    WalkThree(doc, MapOutput(items), indices, "indices", k, []);
    assert ["output", "indices", Decimal(k)] + [] == ["output", "indices", Decimal(k)];
  }

  lemma WalkOn(doc: Json, token: string, rest: seq<string>)
    ensures var next := Resolution.Step(doc, token);
            Walk(doc, [token] + rest) == if next.None? then None else Walk(next.value, rest)
  {
    assert ([token] + rest)[1..] == rest;
  }

  lemma WalkThree(doc: Json, inner: Json, list: Json, name: string, k: nat, rest: seq<string>)
    requires doc == Object(map["output" := inner]) && inner.Object?
    requires name in inner.fields && inner.fields[name] == list
    requires list.Array? && k < |list.items|
    ensures Walk(doc, ["output", name, Decimal(k)] + rest) == Walk(list.items[k], rest)
  {
    hide Walk;
    AtoiInverts(k);
    assert ["output", name, Decimal(k)] + rest == ["output"] + ([name] + ([Decimal(k)] + rest));
    WalkOn(doc, "output", [name] + ([Decimal(k)] + rest));
    WalkOn(inner, name, [Decimal(k)] + rest);
    WalkOn(list, Decimal(k), rest);
  }

  lemma SplitItems(name: string, k: nat, tail: string)
    requires '.' !in name && (tail == "" || tail[0] == '.')
    ensures Behind(".output." + name + "." + Decimal(k) + tail) == ["output", name, Decimal(k)] + Behind(tail)
  {
    hide Split, Decimal;
    DecimalDigits(k);
    var inner := Decimal(k) + tail;
    PathBehind(name, Decimal(k), tail);
    SplitHead("output", name + "." + inner);
    SplitHead(name, inner);
    SplitTail(Decimal(k), tail);
  }

  lemma PathBehind(name: string, index: string, tail: string)
    ensures (".output." + name + "." + index + tail)[1..] == "output" + "." + (name + "." + (index + tail))
  {
  }

  lemma ReadItem(outputs: Outputs, params: Json, items: seq<Json>, mapStep: string, k: nat, tail: string,
                 own: map<string, Json>)
    requires k < |items| && '.' !in mapStep && mapStep in outputs && outputs[mapStep] == MapOutput(items)
    requires (tail == "" || tail[0] == '.') && own == View(outputs, params, items, k)
    ensures Read(Root(outputs, params), MapRewrite(mapStep, k, "item" + tail)) == Read(own, "item" + tail)
  {
    hide Split, MapOutput, MapRewrite, ReadStep, Walk, Root, Behind, StepToken, Instance;
    var path := ".output.items." + Decimal(k) + tail;
    ItemTokens(mapStep, k, tail);
    RootKeys(outputs, params);
    ReadToken(Root(outputs, params), outputs, params, mapStep, path);
    SplitItems("items", k, tail);
    assert ".output." + "items" + "." == ".output.items.";
    ReadOutput(outputs, items, mapStep, k, Behind(tail));
    SplitTail("item", tail);
    WalkOn(Object(own), "item", Behind(tail));
  }

  lemma ReadIndex(outputs: Outputs, params: Json, items: seq<Json>, mapStep: string, k: nat, own: map<string, Json>)
    requires k < |items| && '.' !in mapStep && mapStep in outputs && outputs[mapStep] == MapOutput(items)
    requires own == View(outputs, params, items, k)
    ensures Read(Root(outputs, params), MapRewrite(mapStep, k, "item_index")) == Read(own, "item_index")
  {
    hide Split, MapOutput, MapRewrite, ReadStep, Walk, Root, Behind, StepToken, Instance;
    var path := ".output.indices." + Decimal(k);
    ItemTokens(mapStep, k, "");
    RootKeys(outputs, params);
    ReadToken(Root(outputs, params), outputs, params, mapStep, path);
    SplitItems("indices", k, "");
    assert path + "" == path && ".output." + "indices" + "." == ".output.indices.";
    ReadOutput(outputs, items, mapStep, k, []);
    BehindNothing();
    SplitNone("item_index", '.');
    WalkOn(Object(own), "item_index", []);
    WalkEnd(Scalar(Decimal(k)));
    assert ["item_index"] + [] == ["item_index"];
    assert ["output", "indices", Decimal(k)] + [] == ["output", "indices", Decimal(k)];
  }

  lemma BehindNothing()
    ensures Behind("") == []
  {
  }

  lemma WalkEnd(doc: Json)
    ensures Walk(doc, []) == Some(doc)
  {
  }

  lemma ItemTokens(mapStep: string, k: nat, tail: string)
    requires tail == "" || tail[0] == '.'
    ensures MapRewrite(mapStep, k, "item" + tail) == StepToken(mapStep, ".output.items." + Decimal(k) + tail)
    ensures MapRewrite(mapStep, k, "item_index") == StepToken(mapStep, ".output.indices." + Decimal(k))
  {
    var tok := "item" + tail;
    assert tail != "" ==> tok[4..] == tail && tok == "item." + tail[1..];
    assert "item."[4] == '.' && "item_index"[4] == '_';
  }

  /** A path behind item_index reads nothing, rewritten or not. */
  lemma ReadInsideIndex(run: map<string, Json>, own: map<string, Json>, k: nat, ref: string)
    requires Before(ref, '.') == "item_index" && ref != "item_index"
    requires "item_index" !in run && "item_index" in own && own["item_index"] == Scalar(Decimal(k))
    ensures Read(run, ref) == Read(own, ref) == None
  {
    var rest := ref[|"item_index"| + 1..];
    assert '.' in ref;
    assert Split(ref, '.') == ["item_index"] + Split(rest, '.');
    WalkOn(Object(run), "item_index", Split(rest, '.'));
    WalkOn(Object(own), "item_index", Split(rest, '.'));
  }

  // ---------- whole steps ----------

  /** No token is the bare root, which a template cannot hold. */
  ghost predicate Parses(s: Step) {
    s.config.Templated? ==> forall t | t in s.config.tokens :: t.text != "steps"
  }

  /** The output a context source names. */
  function ReadSource(outputs: Outputs, src: ContextSource): Option<Json> {
    if src.kind == StepOutput && src.step != "" && src.step in outputs then Some(outputs[src.step]) else None
  }

  /** The clone, in its surroundings, is the step in the original ones: same type, same fixed config, and reference by
      reference and source by source the same values, as strictly. */
  ghost predicate Mirrors(s: Step, root: map<string, Json>, outputs: Outputs,
                          clone: Step, cloneRoot: map<string, Json>, cloneOutputs: Outputs)
  {
    && clone.typ == s.typ
    && (if s.config.Templated?
        then clone.config.Templated? && TokensMirror(s.config.tokens, root, clone.config.tokens, cloneRoot)
        else clone.config == s.config)
    && SourcesMirror(s.context, outputs, clone.context, cloneOutputs)
  }

  ghost predicate TokensMirror(tokens: seq<Token>, root: map<string, Json>,
                               clones: seq<Token>, cloneRoot: map<string, Json>)
  {
    && |clones| == |tokens|
    && forall i | 0 <= i < |tokens| ::
         clones[i].lenient == tokens[i].lenient && Read(cloneRoot, clones[i].text) == Read(root, tokens[i].text)
  }

  ghost predicate SourcesMirror(sources: seq<ContextSource>, outputs: Outputs,
                                clones: seq<ContextSource>, cloneOutputs: Outputs)
  {
    && |clones| == |sources|
    && forall i | 0 <= i < |sources| ::
         clones[i].kind == sources[i].kind && ReadSource(cloneOutputs, clones[i]) == ReadSource(outputs, sources[i])
  }

  /** A body step cloned for an iteration is in the run what the authored step is in that iteration. */
  lemma CloneMirrors(s: Step, body: set<string>, iter: nat, outputs: Outputs, params: Json)
    requires Parses(s) && "" !in body
    ensures var own := Iteration(outputs, body, iter);
            Mirrors(s, Root(own, params), own, Loops.CloneStep(s, body, iter), Root(outputs, params), outputs)
  {
    hide Read, Root, LoopRewrite;
    var own, clone := Iteration(outputs, body, iter), Loops.CloneStep(s, body, iter);
    if s.config.Templated? {
      forall i | 0 <= i < |s.config.tokens|
        ensures Read(Root(outputs, params), clone.config.tokens[i].text)
                == Read(Root(own, params), s.config.tokens[i].text)
      {
        assert s.config.tokens[i] in s.config.tokens;
        LoopRewriteReads(outputs, params, body, iter, s.config.tokens[i].text);
      }
    }
  }

  /** A template step cloned for instance k is in the run what the template step is in the instance's view. */
  lemma InstanceMirrors(s: Step, mapStep: string, k: nat, outputs: Outputs, params: Json, items: seq<Json>)
    requires Parses(s) && k < |items| && '.' !in mapStep && mapStep in outputs && outputs[mapStep] == MapOutput(items)
    ensures Mirrors(s, View(outputs, params, items, k), Instance(outputs, k),
                    Maps.InstanceStep(s, mapStep, k), Root(outputs, params), outputs)
  {
    hide Read, Root, View, MapRewrite, MapOutput;
    var clone := Maps.InstanceStep(s, mapStep, k);
    if s.config.Templated? {
      forall i | 0 <= i < |s.config.tokens|
        ensures Read(Root(outputs, params), clone.config.tokens[i].text)
                == Read(View(outputs, params, items, k), s.config.tokens[i].text)
      {
        assert s.config.tokens[i] in s.config.tokens;
        MapRewriteReads(outputs, params, items, mapStep, k, s.config.tokens[i].text);
      }
    }
  }

  // ---------- whole plans ----------

  /** Every body member has its clone in the plan of an iteration, and it mirrors the member. */
  lemma IterationMirrors(def: Definition, loopEdge: Edge, entries: seq<string>, current: string, iter: nat, plan: Plan,
                         id: string, outputs: Outputs, params: Json)
    requires Loops.IsLoopPlan(def, loopEdge, entries, current, iter, plan) && id in Loops.SpecOf(def, loopEdge).Body()
    requires "" !in Loops.SpecOf(def, loopEdge).Body() && forall s | s in def.steps :: Parses(s)
    ensures var own := Iteration(outputs, Loops.SpecOf(def, loopEdge).Body(), iter);
            exists s, clone ::
              && s in def.steps && s.id == id && clone in plan.steps && clone.id == InstanceId(id, iter)
              && Mirrors(s, Root(own, params), own, clone, Root(outputs, params), outputs)
  {
    hide LoopSpec.Body, Mirrors, Parses, Loops.CloneStep;
    var body := Loops.SpecOf(def, loopEdge).Body();
    var members :| StrictlySorted(members) && Loops.ClonesMembers(def, body, iter, members, plan.steps);
    var i :| 0 <= i < |members| && members[i] == id;
    assert Loops.IsCloneOf(def, body, iter, members[i], plan.steps[i]);
    var s :| Loops.IsStepOf(def, s, id) && plan.steps[i] == Loops.CloneStep(s, body, iter);
    CloneMirrors(s, body, iter, outputs, params);
    CloneNamed(s, body, iter);
    assert plan.steps[i] in plan.steps;
  }

  lemma CloneNamed(s: Step, body: set<string>, iter: nat)
    ensures Loops.CloneStep(s, body, iter).id == InstanceId(s.id, iter)
  {
  }

  /** Every template step has its clone for every item in the plan of a fan-out, and it mirrors the step with that
      item. */
  lemma FanoutMirrors(tmpl: Definition, entries: seq<string>, sink: string, mapStep: string, items: seq<Json>,
                      plan: Plan, s: Step, k: nat, outputs: Outputs, params: Json)
    requires Maps.IsMapPlan(tmpl, entries, sink, mapStep, |items|, plan) && s in tmpl.steps && Parses(s) && k < |items|
    requires '.' !in mapStep && mapStep in outputs && outputs[mapStep] == MapOutput(items)
    ensures exists clone ::
              && clone in plan.steps && clone.id == InstanceId(s.id, k)
              && Mirrors(s, View(outputs, params, items, k), Instance(outputs, k),
                         clone, Root(outputs, params), outputs)
  {
    hide Mirrors, View, MapOutput;
    InstanceMirrors(s, mapStep, k, outputs, params, items);
    InstancePlanned(tmpl, mapStep, |items|, s, k);
    assert Maps.InstanceStep(s, mapStep, k) in plan.steps;
  }

  lemma {:induction false} InstancePlanned(tmpl: Definition, mapStep: string, n: nat, s: Step, k: nat)
    requires s in tmpl.steps && k < n
    ensures Maps.InstanceStep(s, mapStep, k) in Maps.AllSteps(tmpl, mapStep, n)
  {
    hide Maps.InstanceStep;
    if k == n - 1 {
      var i :| 0 <= i < |tmpl.steps| && tmpl.steps[i] == s;
      assert Maps.StepsOf(tmpl, mapStep, k)[i] == Maps.InstanceStep(s, mapStep, k);
    } else {
      InstancePlanned(tmpl, mapStep, n - 1, s, k);
    }
  }

  /** The gather reads, strictly and in item order, the output of each instance's sink. */
  lemma GatherReads(tmpl: Definition, entries: seq<string>, sink: string, mapStep: string, n: nat, plan: Plan,
                    outputs: Outputs, params: Json)
    requires Maps.IsMapPlan(tmpl, entries, sink, mapStep, n, plan) && '.' !in sink
    ensures plan.steps != []
    ensures var gather := plan.steps[|plan.steps| - 1];
            && gather.id == GatherId(mapStep) && gather.typ == StepGather && gather.config.Templated?
            && |gather.config.tokens| == n
            && forall k | 0 <= k < n ::
                 && !gather.config.tokens[k].lenient
                 && Read(Root(outputs, params), gather.config.tokens[k].text)
                    == if InstanceId(sink, k) in outputs then Some(outputs[InstanceId(sink, k)]) else None
  {
    hide Read, Root, InstanceId, GatherId;
    forall k | 0 <= k < n
      ensures |Maps.SinkTokens(sink, n)| == n && !Maps.SinkTokens(sink, n)[k].lenient
      ensures Read(Root(outputs, params), Maps.SinkTokens(sink, n)[k].text)
              == if InstanceId(sink, k) in outputs then Some(outputs[InstanceId(sink, k)]) else None
    {
      SinkTokenAt(sink, n, k);
      InstanceIdUndotted(sink, k);
      ReadSink(outputs, params, InstanceId(sink, k));
    }
    SinkTokenCount(sink, n);
  }

  lemma {:induction false} SinkTokenCount(sink: string, n: nat)
    ensures |Maps.SinkTokens(sink, n)| == n
  {
    if n > 0 {
      SinkTokenCount(sink, n - 1);
    }
  }

  lemma {:induction false} SinkTokenAt(sink: string, n: nat, k: nat)
    requires k < n
    ensures |Maps.SinkTokens(sink, n)| == n
    ensures Maps.SinkTokens(sink, n)[k] == Definitions.Token(StepToken(InstanceId(sink, k), ".output"), false)
  {
    SinkTokenCount(sink, n);
    SinkTokenCount(sink, n - 1);
    if k < n - 1 {
      SinkTokenAt(sink, n - 1, k);
    }
  }

  lemma ReadSink(outputs: Outputs, params: Json, id: string)
    requires '.' !in id
    ensures Read(Root(outputs, params), StepToken(id, ".output")) == if id in outputs then Some(outputs[id]) else None
  {
    hide Split, Read, Root, Walk;
    RootKeys(outputs, params);
    ReadToken(Root(outputs, params), outputs, params, id, ".output");
    assert ".output"[1..] == "output";
    SplitNone("output", '.');
    assert ["output"] + [] == ["output"];
    if id in outputs {
      WalkOn(Object(map["output" := outputs[id]]), "output", []);
      WalkEnd(outputs[id]);
    }
  }
}
