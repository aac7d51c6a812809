/** The content cache key (internal/cache/key.go, internal/cache/cache.go). The model stops at the bytes fed to
    SHA-256. */
module CacheKeys {
  import opened Definitions
  import opened Framing
  import opened Texts

  const KEY_SCHEMA_VERSION := 1

  const GLOBAL: Bytes := [103, 108, 111, 98, 97, 108]
  const RUN: Bytes := [114, 117, 110]
  const NONE: Bytes := [110, 111, 110, 101]
  const NULL: Bytes := [110, 117, 108, 108]

  // ---------- numerals as bytes ----------

  function Ascii(c: char): byte {
    if c == '-' then 45
    else if c == '0' then 48
    else if c == '1' then 49
    else if c == '2' then 50
    else if c == '3' then 51
    else if c == '4' then 52
    else if c == '5' then 53
    else if c == '6' then 54
    else if c == '7' then 55
    else if c == '8' then 56
    else if c == '9' then 57
    else 63
  }

  predicate InNumeral(c: char) {
    || c == '-' || c == '0' || c == '1' || c == '2' || c == '3' || c == '4'
    || c == '5' || c == '6' || c == '7' || c == '8' || c == '9'
  }

  function Numeral(n: int): Bytes {
    var s := Itoa(n);
    seq(|s|, i requires 0 <= i < |s| => Ascii(s[i]))
  }

  lemma {:induction false} DecimalInNumeral(n: nat)
    ensures forall c | c in Decimal(n) :: InNumeral(c)
  {
    if n >= 10 {
      DecimalInNumeral(n / 10);
    }
  }

  lemma NumeralInjective(m: int, n: int)
    requires Numeral(m) == Numeral(n)
    ensures m == n
  {
    var s, t := Itoa(m), Itoa(n);
    DecimalInNumeral(if m < 0 then -m else m);
    DecimalInNumeral(if n < 0 then -n else n);
    assert |s| == |Numeral(m)| == |t|;
    forall i | 0 <= i < |s| ensures s[i] == t[i] {
      assert Ascii(s[i]) == Numeral(m)[i] == Numeral(n)[i] == Ascii(t[i]);
      assert s[i] in s && t[i] in t;
    }
    assert s == t;
    ItoaInjective(m, n);
  }

  // ---------- requests ----------

  datatype PluginRef = PluginRef(kind: Bytes, name: Bytes, version: Bytes)

  predicate Unusable(p: PluginRef) {
    p.name == [] || p.version == []
  }

  datatype Request =
    | LLMRequest(model: Bytes, system: Bytes, temperature: Option<Bytes>, maxTokens: int,
                 messages: Bytes, tools: Bytes, outputFormat: Bytes)
    | ToolRequest(input: Bytes)
    | RetrieveRequest(query: Bytes, topK: int)

  datatype KeyInput = KeyInput(schemaVersion: int, executor: PluginRef, plugin: PluginRef,
                               scope: Bytes, runId: Bytes, request: Option<Request>)

  /** Re-encodes a non-empty document, or fails on malformed JSON. */
  type Canon = Bytes -> Option<Bytes>

  function CanonicalJSON(canon: Canon, raw: Bytes): Option<Bytes> {
    if raw == [] then Some(NULL) else canon(raw)
  }

  /** The ordered canonical components of a request body. */
  function Components(canon: Canon, r: Request): Option<seq<Bytes>> {
    match r
    case LLMRequest(model, system, temperature, maxTokens, messages, tools, outputFormat) =>
      var temp := if temperature.Some? then temperature.value else NONE;
      var msgs, defs := CanonicalJSON(canon, messages), CanonicalJSON(canon, tools);
      if msgs.None? || defs.None? then None
      else
        var comps := [model, system, temp, Numeral(maxTokens), msgs.value, defs.value];
        if outputFormat == [] then Some(comps)
        else
          var format := CanonicalJSON(canon, outputFormat);
          if format.None? then None else Some(comps + [format.value])
    case ToolRequest(input) =>
      var doc := CanonicalJSON(canon, input);
      if doc.None? then None else Some([doc.value])
    case RetrieveRequest(query, topK) => Some([query, Numeral(topK)])
  }

  /** A shortest float text starts with a digit, a sign, or the N of NaN; never with the n of "none". */
  ghost predicate FloatTexts(r: Request) {
    r.LLMRequest? && r.temperature.Some? ==> r.temperature.value != [] && r.temperature.value[0] != 110
  }

  /** Two requests ask for the same thing: the same type, and the same canonical content field by field. */
  ghost predicate SameRequest(canon: Canon, a: Request, b: Request) {
    match a
    case LLMRequest(_, _, _, _, _, _, _) =>
      && b.LLMRequest? && a.model == b.model && a.system == b.system && a.temperature == b.temperature
      && a.maxTokens == b.maxTokens && CanonicalJSON(canon, a.messages) == CanonicalJSON(canon, b.messages)
      && CanonicalJSON(canon, a.tools) == CanonicalJSON(canon, b.tools)
      && (a.outputFormat == [] <==> b.outputFormat == [])
      && CanonicalJSON(canon, a.outputFormat) == CanonicalJSON(canon, b.outputFormat)
    case ToolRequest(_) => b.ToolRequest? && CanonicalJSON(canon, a.input) == CanonicalJSON(canon, b.input)
    case RetrieveRequest(_, _) => b.RetrieveRequest? && a.query == b.query && a.topK == b.topK
  }

  lemma LLMComponentsExact(canon: Canon, a: Request, b: Request)
    requires a.LLMRequest? && b.LLMRequest? && FloatTexts(a) && FloatTexts(b)
    requires Components(canon, a).Some? && Components(canon, b).Some? && Components(canon, a) == Components(canon, b)
    ensures SameRequest(canon, a, b)
  {
    var x, y := Components(canon, a).value, Components(canon, b).value;
    assert x[0] == y[0] && x[1] == y[1] && x[2] == y[2] && x[3] == y[3] && x[4] == y[4] && x[5] == y[5];
    NumeralInjective(a.maxTokens, b.maxTokens);
    assert NONE[0] == 110;
    assert |x| == 7 ==> x[6] == y[6];
  }

  /** Component lists coincide exactly for requests that ask for the same thing, across all request types. */
  lemma ComponentsExact(canon: Canon, a: Request, b: Request)
    requires Components(canon, a).Some? && Components(canon, b).Some? && FloatTexts(a) && FloatTexts(b)
    ensures Components(canon, a) == Components(canon, b) <==> SameRequest(canon, a, b)
  {
    if Components(canon, a) == Components(canon, b) {
      var x, y := Components(canon, a).value, Components(canon, b).value;
      match a
      case LLMRequest(_, _, _, _, _, _, _) =>
        assert |x| >= 6;
        LLMComponentsExact(canon, a, b);
      case ToolRequest(_) =>
        assert |x| == 1;
        assert x[0] == y[0];
      case RetrieveRequest(_, _) =>
        assert |x| == 2;
        assert x[0] == y[0] && x[1] == y[1];
        NumeralInjective(a.topK, b.topK);
    }
  }

  // ---------- the key ----------

  function NormalScope(scope: Bytes): Bytes {
    if scope == [] then GLOBAL else scope
  }

  /** What the key refuses: a missing identity or body, an unknown scope, a run scope without a run, malformed JSON. */
  predicate Refused(canon: Canon, i: KeyInput) {
    var scope := NormalScope(i.scope);
    || Unusable(i.executor) || Unusable(i.plugin) || i.request.None?
    || (scope != GLOBAL && scope != RUN) || (scope == RUN && i.runId == [])
    || Components(canon, i.request.value).None?
  }

  function KeyComponents(canon: Canon, i: KeyInput): seq<Bytes>
    requires !Refused(canon, i)
  {
    var scope := NormalScope(i.scope);
    [Numeral(KEY_SCHEMA_VERSION), Numeral(i.schemaVersion), scope, if scope == RUN then i.runId else [],
     i.executor.kind, i.executor.name, i.executor.version, i.plugin.kind, i.plugin.name, i.plugin.version]
    + Components(canon, i.request.value).value
  }

  /** The bytes hashed into the key, or an error for exactly the refused inputs. */
  method Key(i: KeyInput, canon: Canon) returns (fed: Option<Bytes>)
    ensures fed.None? <==> Refused(canon, i)
    ensures fed.Some? ==> fed.value == Framed(KeyComponents(canon, i))
  {
    if Unusable(i.executor) || Unusable(i.plugin) || i.request.None? {
      return None;
    }
    var scope := i.scope;
    if scope == [] {
      scope := GLOBAL;
    }
    var runId: Bytes := [];
    if scope == RUN {
      if i.runId == [] {
        return None;
      }
      runId := i.runId;
    } else if scope != GLOBAL {
      return None;
    }
    var body := Components(canon, i.request.value);
    if body.None? {
      return None;
    }
    var comps := [Numeral(KEY_SCHEMA_VERSION), Numeral(i.schemaVersion), scope, runId,
                  i.executor.kind, i.executor.name, i.executor.version, i.plugin.kind, i.plugin.name, i.plugin.version];
    var bytes := FeedComponents(comps + body.value);
    fed := Some(bytes);
  }

  ghost predicate Agree(canon: Canon, a: KeyInput, b: KeyInput) {
    && a.schemaVersion == b.schemaVersion && NormalScope(a.scope) == NormalScope(b.scope)
    && (NormalScope(a.scope) == RUN ==> a.runId == b.runId)
    && a.executor == b.executor && a.plugin == b.plugin
    && a.request.Some? && b.request.Some? && SameRequest(canon, a.request.value, b.request.value)
  }

  lemma HeadersAgree(canon: Canon, a: KeyInput, b: KeyInput)
    requires !Refused(canon, a) && !Refused(canon, b) && KeyComponents(canon, a) == KeyComponents(canon, b)
    ensures a.schemaVersion == b.schemaVersion && NormalScope(a.scope) == NormalScope(b.scope)
    ensures NormalScope(a.scope) == RUN ==> a.runId == b.runId
    ensures a.executor == b.executor && a.plugin == b.plugin
    ensures Components(canon, a.request.value) == Components(canon, b.request.value)
  {
    var x, y := KeyComponents(canon, a), KeyComponents(canon, b);
    assert x[1] == y[1] && x[2] == y[2] && x[3] == y[3];
    NumeralInjective(a.schemaVersion, b.schemaVersion);
    assert x[4] == y[4] && x[5] == y[5] && x[6] == y[6] && x[7] == y[7] && x[8] == y[8] && x[9] == y[9];
    assert Components(canon, a.request.value).value == x[10..] && Components(canon, b.request.value).value == y[10..];
  }

  /** Keys are collision-free up to the hash: the hashed bytes coincide exactly when the inputs agree. */
  lemma KeysExact(canon: Canon, a: KeyInput, b: KeyInput)
    requires !Refused(canon, a) && !Refused(canon, b)
    requires FloatTexts(a.request.value) && FloatTexts(b.request.value)
    requires Sized(KeyComponents(canon, a)) && Sized(KeyComponents(canon, b))
    ensures Framed(KeyComponents(canon, a)) == Framed(KeyComponents(canon, b)) <==> Agree(canon, a, b)
  {
    ComponentsExact(canon, a.request.value, b.request.value);
    if Framed(KeyComponents(canon, a)) == Framed(KeyComponents(canon, b)) {
      FramedInjective(KeyComponents(canon, a), KeyComponents(canon, b));
      HeadersAgree(canon, a, b);
    }
  }

  /** A missing document keys like a null one. */
  lemma MissingIsNull(canon: Canon)
    requires canon(NULL) == Some(NULL)
    ensures CanonicalJSON(canon, []) == CanonicalJSON(canon, NULL)
  {
  }

  /** An entry is shared by another run exactly when its scope is global, written out or left empty. */
  lemma SharedAcrossRuns(canon: Canon, a: KeyInput, runId: Bytes)
    requires !Refused(canon, a) && runId != [] && FloatTexts(a.request.value)
    requires Sized(KeyComponents(canon, a)) && |runId| < 0x1_0000_0000_0000_0000
    ensures var b := a.(runId := runId);
            && !Refused(canon, b)
            && (Framed(KeyComponents(canon, a)) == Framed(KeyComponents(canon, b)) <==>
                a.scope == [] || a.scope == GLOBAL || runId == a.runId)
  {
    hide Framed, Components;
    var b := a.(runId := runId);
    var x, y := KeyComponents(canon, a), KeyComponents(canon, b);
    assert |x| == |y| && forall i | 0 <= i < |y| && i != 3 :: y[i] == x[i];
    forall c | c in y ensures |c| < 0x1_0000_0000_0000_0000 {
      var i :| 0 <= i < |y| && y[i] == c;
      assert i != 3 ==> x[i] in x;
    }
    KeysExact(canon, a, b);
  }
}
