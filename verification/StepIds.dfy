/** Step-id syntax, engine-minted instance ids, and reference tokens
    (internal/dag/validate.go, internal/dag/mapexpand.go, internal/dag/loopexpand.go). */
module StepIds {
  import opened Texts
  import opened Definitions

  predicate IsLower(c: char) {
    'a' <= c <= 'z'
  }

  /** An authored step id: a lower-case letter, then at most 63 letters, digits, '_' or '-'. */
  predicate IsStepId(s: string) {
    && 1 <= |s| <= 64 && IsLower(s[0])
    && forall c | c in s :: IsLower(c) || IsDigit(c) || c == '_' || c == '-'
  }

  predicate IsSegment(s: string) {
    s != [] && forall c | c in s :: IsLower(c) || IsDigit(c) || c == '_'
  }

  /** One or more '#'-introduced segments. */
  predicate IsSuffix(s: string)
    decreases |s|
  {
    && s != [] && s[0] == '#'
    && var seg := Before(s[1..], '#');
       && IsSegment(seg)
       && (|seg| + 1 == |s| || IsSuffix(s[|seg| + 1..]))
  }

  /** An engine-minted id: an authored id followed by such a suffix. */
  predicate IsInstanceId(s: string) {
    '#' in s && IsStepId(Before(s, '#')) && IsSuffix(s[|Before(s, '#')|..])
  }

  function InstanceId(base: string, k: nat): string {
    base + "#" + Decimal(k)
  }

  function GatherId(mapStep: string): string {
    mapStep + "#gather"
  }

  /** The definition-authored id behind an instance id. */
  function AuthoredId(id: string): string {
    Before(id, '#')
  }

  lemma StepIdPlain(s: string)
    requires IsStepId(s)
    ensures '#' !in s && '.' !in s
  {
  }

  lemma MintedSplits(base: string, suffix: string)
    requires '#' !in base
    ensures AuthoredId(base + "#" + suffix) == base
    ensures (base + "#" + suffix)[|base| + 1..] == suffix
  {
    BeforeUnique(base + "#" + suffix, '#', base, suffix);
  }

  lemma InstanceIdInjective(a: string, j: nat, b: string, k: nat)
    requires '#' !in a && '#' !in b && InstanceId(a, j) == InstanceId(b, k)
    ensures a == b && j == k
  {
    MintedSplits(a, Decimal(j));
    MintedSplits(b, Decimal(k));
    DecimalInjective(j, k);
  }

  /** Instance ids lie outside the authored id space, and no gather id is an instance id. */
  lemma MintedFresh(a: string, j: nat, m: string)
    ensures '#' in InstanceId(a, j) && InstanceId(a, j) != GatherId(m)
  {
    DecimalDigits(j);
    var id, gather := InstanceId(a, j), GatherId(m);
    assert id[|a|] == '#';
    assert id[|id| - 1] == Decimal(j)[|Decimal(j)| - 1] && Decimal(j)[|Decimal(j)| - 1] in Decimal(j);
    assert gather[|gather| - 1] == 'r';
  }

  /** Cut at its hash marks, an instance id reads as the authored id and the index. */
  lemma InstanceIdReads(base: string, k: nat)
    requires '#' !in base
    ensures Split(InstanceId(base, k), '#') == [base, Decimal(k)]
  {
    hide Split;
    DecimalDigits(k);
    SplitOnce(base, Decimal(k), '#');
    SplitNone(Decimal(k), '#');
  }

  lemma MintedIsInstanceId(base: string, seg: string)
    requires IsStepId(base) && IsSegment(seg)
    ensures IsInstanceId(base + "#" + seg)
  {
    StepIdPlain(base);
    var id := base + "#" + seg;
    MintedSplits(base, seg);
    assert id[|base|] == '#';
    var suffix := id[|base|..];
    assert suffix == "#" + seg && suffix[1..] == seg;
    assert '#' !in seg;
  }

  lemma {:induction false} SuffixExtends(s: string, seg: string)
    requires IsSuffix(s) && IsSegment(seg)
    ensures IsSuffix(s + "#" + seg)
    decreases |s|
  {
    var head := Before(s[1..], '#');
    var rest := s[|head| + 1..];
    var tail := rest + "#" + seg;
    assert s == "#" + head + rest;
    assert s + "#" + seg == "#" + head + tail;
    if rest == [] {
      assert tail == "#" + seg;
      OneSegment(seg);
    } else {
      SuffixExtends(rest, seg);
    }
    SuffixCons(head, tail);
  }

  lemma OneSegment(seg: string)
    requires IsSegment(seg)
    ensures IsSuffix("#" + seg)
  {
    assert ("#" + seg)[1..] == seg;
    assert '#' !in seg;
  }

  lemma SuffixCons(head: string, tail: string)
    requires IsSegment(head) && IsSuffix(tail)
    ensures IsSuffix("#" + head + tail)
  {
    var s := "#" + head + tail;
    assert s[1..] == head + "#" + tail[1..];
    assert '#' !in head;
    BeforeUnique(s[1..], '#', head, tail[1..]);
    assert s[|head| + 1..] == tail;
  }

  lemma InstanceIdExtends(id: string, seg: string)
    requires IsInstanceId(id) && IsSegment(seg)
    ensures IsInstanceId(id + "#" + seg)
  {
    var base := Before(id, '#');
    var suffix := id[|base|..];
    SuffixExtends(suffix, seg);
    assert id == base + suffix;
    assert id + "#" + seg == base + (suffix + "#" + seg);
    InstanceIdParts(base, suffix + "#" + seg);
  }

  lemma InstanceIdParts(base: string, suffix: string)
    requires IsStepId(base) && IsSuffix(suffix)
    ensures IsInstanceId(base + suffix)
  {
    StepIdPlain(base);
    var id := base + suffix;
    assert id == base + "#" + suffix[1..];
    BeforeUnique(id, '#', base, suffix[1..]);
    assert id[|base|..] == suffix;
    assert id[|base|] == '#';
  }

  /** The gather of an authored or minted map step has a legal engine-minted id. */
  lemma GatherIdValid(mapStep: string)
    requires IsStepId(mapStep) || IsInstanceId(mapStep)
    ensures IsInstanceId(GatherId(mapStep))
  {
    var seg := "gather";
    assert GatherId(mapStep) == mapStep + "#" + seg;
    if IsStepId(mapStep) {
      MintedIsInstanceId(mapStep, seg);
    } else {
      InstanceIdExtends(mapStep, seg);
    }
  }

  lemma InstanceIdValid(base: string, k: nat)
    requires IsStepId(base)
    ensures IsInstanceId(InstanceId(base, k))
  {
    DecimalDigits(k);
    MintedIsInstanceId(base, Decimal(k));
  }

  // ---------- reference tokens ----------

  predicate HasPrefix(s: string, prefix: string) {
    prefix <= s
  }

  /** The step a token refers to: the segment after "steps.". */
  function RefStep(tok: string): Option<string> {
    if HasPrefix(tok, "steps.") then Some(Before(tok[6..], '.')) else None
  }

  /** A step reference to id with whatever followed the id. */
  function StepToken(id: string, tail: string): string {
    "steps." + id + tail
  }

  lemma StepTokenRefers(id: string, tail: string)
    requires '.' !in id && (tail == [] || tail[0] == '.')
    ensures RefStep(StepToken(id, tail)) == Some(id)
  {
    var tok := StepToken(id, tail);
    assert tok[6..] == id + tail;
    if tail != [] {
      assert tail == "." + tail[1..];
      assert id + tail == id + "." + tail[1..];
      BeforeUnique(id + tail, '.', id, tail[1..]);
    } else {
      assert id + tail == id;
    }
  }

  /** What follows the step id in a step reference. */
  function RefTail(tok: string): string
    requires HasPrefix(tok, "steps.")
  {
    tok[6 + |Before(tok[6..], '.')|..]
  }

  lemma TokenParts(tok: string)
    requires HasPrefix(tok, "steps.")
    ensures tok == StepToken(RefStep(tok).value, RefTail(tok))
    ensures '.' !in RefStep(tok).value && (RefTail(tok) == [] || RefTail(tok)[0] == '.')
  {
    Rejoin(tok, 6, |Before(tok[6..], '.')|);
    assert tok[..6] == "steps.";
    assert RefTail(tok) == tok[6..][|Before(tok[6..], '.')|..];
  }

  lemma Rejoin(s: string, i: nat, n: nat)
    requires i + n <= |s|
    ensures s == s[..i] + s[i..][..n] + s[i + n..]
    ensures s[i + n..] == s[i..][n..]
  {
  }

  /** Loop iteration iter: references to body members move to this iteration, all else stays. */
  function LoopRewrite(body: set<string>, iter: nat, tok: string): string {
    if !HasPrefix(tok, "steps.") then tok
    else
      var id := Before(tok[6..], '.');
      if id !in body then tok else StepToken(InstanceId(id, iter), RefTail(tok))
  }

  /** Map instance k: item roots read the map's output, local step references move to instance k. */
  function MapRewrite(mapStep: string, k: nat, tok: string): string {
    if tok == "item" then "steps." + mapStep + ".output.items." + Decimal(k)
    else if HasPrefix(tok, "item.") then "steps." + mapStep + ".output.items." + Decimal(k) + tok[4..]
    else if tok == "item_index" then "steps." + mapStep + ".output.indices." + Decimal(k)
    else if HasPrefix(tok, "steps.") then StepToken(InstanceId(Before(tok[6..], '.'), k), RefTail(tok))
    else tok
  }

  lemma InstanceIdUndotted(id: string, k: nat)
    requires '.' !in id
    ensures '.' !in InstanceId(id, k)
  {
    DecimalDigits(k);
  }

  /** The rewrite re-points exactly the body references and keeps the path after the step. */
  lemma LoopRewriteRefers(body: set<string>, iter: nat, tok: string)
    ensures var x := RefStep(tok);
            RefStep(LoopRewrite(body, iter, tok)) ==
            if x.Some? && x.value in body then Some(InstanceId(x.value, iter)) else x
    ensures HasPrefix(tok, "steps.") ==> HasPrefix(LoopRewrite(body, iter, tok), "steps.")
                                         && RefTail(LoopRewrite(body, iter, tok)) == RefTail(tok)
  {
    if HasPrefix(tok, "steps.") && Before(tok[6..], '.') in body {
      TokenParts(tok);
      var id := InstanceId(RefStep(tok).value, iter);
      InstanceIdUndotted(RefStep(tok).value, iter);
      StepTokenRefers(id, RefTail(tok));
      assert StepToken(id, RefTail(tok))[6 + |id|..] == RefTail(tok);
    }
  }

  /** Item tokens come to refer to the map step, step tokens to instance k, and nothing else to any step. */
  lemma MapRewriteRefers(mapStep: string, k: nat, tok: string)
    requires '.' !in mapStep
    ensures var item := tok == "item" || tok == "item_index" || HasPrefix(tok, "item.");
            RefStep(MapRewrite(mapStep, k, tok)) ==
            if item then Some(mapStep)
            else if RefStep(tok).Some? then Some(InstanceId(RefStep(tok).value, k))
            else None
  {
    if HasPrefix(tok, "steps.") {
      TokenParts(tok);
      InstanceIdUndotted(RefStep(tok).value, k);
      StepTokenRefers(InstanceId(RefStep(tok).value, k), RefTail(tok));
      assert tok[0] == 's';
    } else if tok == "item" || HasPrefix(tok, "item.") {
      var tail := ".output.items." + Decimal(k) + if tok == "item" then [] else tok[4..];
      assert MapRewrite(mapStep, k, tok) == StepToken(mapStep, tail);
      StepTokenRefers(mapStep, tail);
    } else if tok == "item_index" {
      var tail := ".output.indices." + Decimal(k);
      assert MapRewrite(mapStep, k, tok) == StepToken(mapStep, tail);
      StepTokenRefers(mapStep, tail);
    }
  }
}
