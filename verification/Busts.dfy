/** Storage keys, stats keys and bust patterns (internal/cache/key.go, internal/cache/bust.go). */
module Busts {
  import opened Definitions
  import opened Globs
  import opened Texts

  const KINDS := ["executor", "tool", "retriever", "model_provider", "validator"]

  datatype BustMatch = BustMatch(kind: string, name: string)

  predicate ValidKind(kind: string) {
    kind in KINDS
  }

  /** The storage key of an entry written by the given key version. */
  function RedisKey(prefix: string, version: nat, kind: string, name: string, key: string): string {
    prefix + ":v" + Itoa(version) + ":" + kind + ":" + name + ":" + key
  }

  function StatsRedisKey(prefix: string, kind: string, name: string): string {
    prefix + ":stats:" + kind + ":" + name
  }

  /** The prefix and version marker, a stretch, one fixed middle, and anything after it. */
  function PatternFor(prefix: string, mid: string): string {
    Escape(prefix + ":v") + ("*" + (Escape(mid) + "*"))
  }

  lemma EscapeHead(prefix: string)
    ensures Escape(prefix + ":v") == Escape(prefix) + ":v" && Escape(":") == ":"
  {
    EscapeConcat(prefix, ":v");
    assert ":v"[1..] == "v";
    assert Escape("v") == "v";
  }

  lemma EscapeBetween(inner: string)
    ensures Escape(":" + inner + ":") == ":" + Escape(inner) + ":"
  {
    EscapeConcat(":" + inner, ":");
    EscapeConcat(":", inner);
    assert Escape(":") == ":";
  }

  lemma Joined(head: string, inner: string)
    ensures (head + ":v") + ("*" + ((":" + inner + ":") + "*")) == head + ":v*" + ":" + inner + ":*"
  {
  }

  lemma PlainPattern(prefix: string)
    ensures PatternFor(prefix, ":") == Escape(prefix) + ":v*" + ":*"
  {
    hide Escape;
    EscapeHead(prefix);
    JoinedPlain(Escape(prefix));
  }

  lemma JoinedPlain(head: string)
    ensures (head + ":v") + ("*" + (":" + "*")) == head + ":v*" + ":*"
  {
  }

  lemma KindPattern(prefix: string, kind: string)
    ensures PatternFor(prefix, ":" + kind + ":") == Escape(prefix) + ":v*" + ":" + Escape(kind) + ":*"
  {
    hide Escape;
    EscapeHead(prefix);
    EscapeBetween(kind);
    Joined(Escape(prefix), Escape(kind));
  }

  lemma EscapeJoined(kind: string, name: string)
    ensures Escape(kind + ":" + name) == Escape(kind) + ":" + Escape(name)
  {
    EscapeConcat(kind + ":", name);
    EscapeConcat(kind, ":");
    assert Escape(":") == ":";
  }

  lemma Regroup(head: string, a: string, b: string, tail: string)
    ensures head + ":" + (a + ":" + b) + tail == head + ":" + a + ":" + b + tail
  {
  }

  lemma RegroupMid(a: string, b: string)
    ensures ":" + (a + ":" + b) + ":" == ":" + a + ":" + b + ":"
  {
  }

  lemma PluginPattern(prefix: string, kind: string, name: string)
    ensures PatternFor(prefix, ":" + kind + ":" + name + ":")
            == Escape(prefix) + ":v*" + ":" + Escape(kind) + ":" + Escape(name) + ":*"
  {
    hide Escape, PatternFor;
    EscapeJoined(kind, name);
    KindPattern(prefix, kind + ":" + name);
    Regroup(Escape(prefix) + ":v*", Escape(kind), Escape(name), ":*");
    RegroupMid(kind, name);
  }

  // ---------- counting separators ----------

  ghost function Colons(s: string): nat {
    if s == [] then 0 else (if s[0] == ':' then 1 else 0) + Colons(s[1..])
  }

  lemma {:induction false} ColonsConcat(a: string, b: string)
    ensures Colons(a + b) == Colons(a) + Colons(b)
  {
    if a == [] {
      assert a + b == b;
    } else {
      assert (a + b)[1..] == a[1..] + b;
      ColonsConcat(a[1..], b);
    }
  }

  lemma {:induction false} ColonFree(s: string)
    ensures Colons(s) == 0 <==> ':' !in s
  {
    if s != [] {
      ColonFree(s[1..]);
    }
  }

  /** Text cut at its first separator is cut in one way only. */
  lemma FirstCut(a: string, resta: string, b: string, restb: string)
    requires a + ":" + resta == b + ":" + restb && ':' !in a && ':' !in b
    ensures a == b && resta == restb
  {
    var s := a + ":" + resta;
    BeforeUnique(s, ':', a, resta);
    BeforeUnique(s, ':', b, restb);
    assert resta == s[|a| + 1..] && restb == s[|b| + 1..];
  }

  // ---------- what a pattern matches ----------

  /** The segments of a storage key: none holds a separator. */
  ghost predicate Segments(kind: string, name: string, key: string) {
    ':' !in kind && ':' !in name && ':' !in key
  }

  lemma NumeralColonFree(version: nat)
    ensures ':' !in Itoa(version)
  {
    DecimalDigits(version);
  }

  function EntryTail(version: string, kind: string, name: string, key: string): string {
    version + ":" + (kind + ":" + (name + ":" + key))
  }

  lemma KeySplits(prefix: string, version: string, kind: string, name: string, key: string)
    ensures prefix + ":v" + version + ":" + kind + ":" + name + ":" + key
            == (prefix + ":v") + EntryTail(version, kind, name, key)
  {
  }

  lemma ShapeDrops(head: string, tail: string, mid: string)
    ensures HasShape(head + tail, head, mid) <==> HasShape(tail, "", mid)
  {
    if HasShape(head + tail, head, mid) {
      var x: string, y: string :| head + tail == head + x + mid + y;
      assert tail == (head + tail)[|head|..] == "" + x + mid + y;
    }
    if HasShape(tail, "", mid) {
      var x: string, y: string :| tail == "" + x + mid + y;
      assert head + tail == head + x + mid + y;
    }
  }

  /** Under the key's own prefix, a pattern sees only what follows the version marker. */
  lemma EntryMatch(bracket: Bracket, prefix: string, mid: string, version: nat, kind: string, name: string, key: string)
    ensures Matches(bracket, PatternFor(prefix, mid), RedisKey(prefix, version, kind, name, key))
            <==> HasShape(EntryTail(Itoa(version), kind, name, key), "", mid)
  {
    hide EntryTail, Escape, HasShape, Itoa;
    KeySplits(prefix, Itoa(version), kind, name, key);
    ShapeExact(bracket, prefix + ":v", mid, RedisKey(prefix, version, kind, name, key));
    ShapeDrops(prefix + ":v", EntryTail(Itoa(version), kind, name, key), mid);
  }

  /** A bust of everything reaches every entry under the prefix, of every key version. */
  lemma AllPatternExact(bracket: Bracket, prefix: string, version: nat, kind: string, name: string, key: string)
    ensures Matches(bracket, PatternFor(prefix, ":"), RedisKey(prefix, version, kind, name, key))
  {
    var tail := EntryTail(Itoa(version), kind, name, key);
    assert tail == "" + Itoa(version) + ":" + (kind + ":" + (name + ":" + key));
    EntryMatch(bracket, prefix, ":", version, kind, name, key);
  }

  lemma TailColons(version: string, kind: string, name: string, key: string)
    requires ':' !in version && Segments(kind, name, key)
    ensures Colons(EntryTail(version, kind, name, key)) == 3
  {
    ColonFree(version);
    ColonFree(kind);
    ColonFree(name);
    ColonFree(key);
    SplitColons(version, kind + ":" + (name + ":" + key));
    SplitColons(kind, name + ":" + key);
    SplitColons(name, key);
  }

  lemma SplitColons(a: string, b: string)
    ensures Colons(a + ":" + b) == Colons(a) + 1 + Colons(b)
  {
    ColonsConcat(a + ":", b);
    ColonsConcat(a, ":");
    assert Colons(":") == 1;
  }

  lemma ShapeColons(x: string, mid: string, y: string)
    ensures Colons("" + x + mid + y) == Colons(x) + Colons(mid) + Colons(y)
  {
    assert "" + x == x;
    ColonsConcat(x + mid, y);
    ColonsConcat(x, mid);
  }

  lemma MidColons(inner: string)
    ensures Colons(":" + inner + ":") == 2 + Colons(inner)
  {
    SplitColons("", inner + ":");
    SplitColons(inner, "");
    assert "" + ":" + (inner + ":") == ":" + inner + ":" && inner + ":" + "" == inner + ":";
  }

  /** A bust of one plugin reaches that plugin's entries, of every key version, and no other entry. */
  lemma PluginPatternExact(bracket: Bracket, prefix: string, m: BustMatch, version: nat, kind: string, name: string,
                           key: string)
    requires Segments(kind, name, key) && ':' !in m.kind && ':' !in m.name
    ensures Matches(bracket, PatternFor(prefix, ":" + m.kind + ":" + m.name + ":"),
                    RedisKey(prefix, version, kind, name, key))
            <==> kind == m.kind && name == m.name
  {
    hide Itoa, Escape, PatternFor, RedisKey, Matches;
    NumeralColonFree(version);
    EntryMatch(bracket, prefix, ":" + m.kind + ":" + m.name + ":", version, kind, name, key);
    PluginShape(Itoa(version), m.kind, m.name, kind, name, key);
  }

  lemma PluginShape(version: string, k: string, n: string, kind: string, name: string, key: string)
    requires ':' !in version && Segments(kind, name, key) && ':' !in k && ':' !in n
    ensures HasShape(EntryTail(version, kind, name, key), "", ":" + k + ":" + n + ":") <==> kind == k && name == n
  {
    var tail, mid := EntryTail(version, kind, name, key), ":" + k + ":" + n + ":";
    if HasShape(tail, "", mid) {
      var x: string, y: string :| tail == "" + x + mid + y;
      PluginMid(k, n);
      ShapeColons(x, mid, y);
      TailColons(version, kind, name, key);
      ColonFree(x);
      PluginCut(version, k, n, kind, name, key, x, y);
    }
    if kind == k && name == n {
      assert tail == "" + version + mid + key;
    }
  }

  lemma PluginCut(version: string, k: string, n: string, kind: string, name: string, key: string, x: string, y: string)
    requires ':' !in version && Segments(kind, name, key) && ':' !in k && ':' !in n && ':' !in x
    requires EntryTail(version, kind, name, key) == "" + x + (":" + k + ":" + n + ":") + y
    ensures kind == k && name == n
  {
    assert "" + x + (":" + k + ":" + n + ":") + y == x + ":" + (k + ":" + (n + ":" + y));
    FirstCut(version, kind + ":" + (name + ":" + key), x, k + ":" + (n + ":" + y));
    FirstCut(kind, name + ":" + key, k, n + ":" + y);
    FirstCut(name, key, n, y);
  }

  lemma PluginMid(k: string, n: string)
    requires ':' !in k && ':' !in n
    ensures Colons(":" + k + ":" + n + ":") == 3
  {
    ColonFree(k);
    ColonFree(n);
    SplitColons(k, n);
    MidColons(k + ":" + n);
    RegroupMid(k, n);
  }

  lemma CutOnce(s: string) returns (a: string, b: string)
    requires Colons(s) == 1
    ensures s == a + ":" + b && ':' !in a && ':' !in b
  {
    ColonFree(s);
    a := Before(s, ':');
    b := s[|a| + 1..];
    assert s == a + ":" + b;
    SplitColons(a, b);
    ColonFree(a);
    ColonFree(b);
  }

  /** A bust of one kind reaches the entries of that kind, and those of any plugin that is named like the kind. */
  lemma KindPatternExact(bracket: Bracket, prefix: string, k: string, version: nat, kind: string, name: string,
                         key: string)
    requires Segments(kind, name, key) && ':' !in k
    ensures Matches(bracket, PatternFor(prefix, ":" + k + ":"), RedisKey(prefix, version, kind, name, key))
            <==> kind == k || name == k
  {
    hide Itoa, Escape, PatternFor, RedisKey, Matches;
    NumeralColonFree(version);
    EntryMatch(bracket, prefix, ":" + k + ":", version, kind, name, key);
    KindShape(Itoa(version), k, kind, name, key);
  }

  lemma KindShape(version: string, k: string, kind: string, name: string, key: string)
    requires ':' !in version && Segments(kind, name, key) && ':' !in k
    ensures HasShape(EntryTail(version, kind, name, key), "", ":" + k + ":") <==> kind == k || name == k
  {
    var tail, mid := EntryTail(version, kind, name, key), ":" + k + ":";
    if HasShape(tail, "", mid) {
      KindShapeOnly(version, k, kind, name, key);
    }
    if kind == k {
      assert tail == "" + version + mid + (name + ":" + key);
    } else if name == k {
      assert tail == "" + (version + ":" + kind) + mid + key;
    }
  }

  lemma KindShapeOnly(version: string, k: string, kind: string, name: string, key: string)
    requires ':' !in version && Segments(kind, name, key) && ':' !in k
    requires HasShape(EntryTail(version, kind, name, key), "", ":" + k + ":")
    ensures kind == k || name == k
  {
    var tail, mid := EntryTail(version, kind, name, key), ":" + k + ":";
    var x: string, y: string :| tail == "" + x + mid + y;
    MidColons(k);
    ColonFree(k);
    ShapeColons(x, mid, y);
    TailColons(version, kind, name, key);
    ColonFree(x);
    if ':' !in x {
      assert tail == x + ":" + (k + ":" + y);
      FirstCut(version, kind + ":" + (name + ":" + key), x, k + ":" + y);
      FirstCut(kind, name + ":" + key, k, y);
    } else {
      var a, b := CutOnce(x);
      assert tail == a + ":" + (b + ":" + (k + ":" + y));
      FirstCut(version, kind + ":" + (name + ":" + key), a, b + ":" + (k + ":" + y));
      FirstCut(kind, name + ":" + key, b, k + ":" + y);
      FirstCut(name, key, k, y);
    }
  }

  /** So the promise of a kind-wide bust breaks: busting the tools also takes the entries of a retriever named
      "tool". */
  lemma KindPatternOverreaches(bracket: Bracket, prefix: string, version: nat, key: string)
    requires ':' !in key
    ensures ValidKind("tool") && ValidKind("retriever")
    ensures Matches(bracket, PatternFor(prefix, ":" + "tool" + ":"),
                    RedisKey(prefix, version, "retriever", "tool", key))
  {
    assert KINDS[1] == "tool" && KINDS[2] == "retriever";
    KindPatternExact(bracket, prefix, "tool", version, "retriever", "tool", key);
  }

  /** No bust reaches the counters. */
  lemma StatsSurvive(bracket: Bracket, prefix: string, mid: string, kind: string, name: string)
    ensures !Matches(bracket, PatternFor(prefix, mid), StatsRedisKey(prefix, kind, name))
  {
    var s, head := StatsRedisKey(prefix, kind, name), prefix + ":v";
    ShapeExact(bracket, head, mid, s);
    ShapeStarts(s, head, mid);
    assert s[|prefix| + 1] == 's' && head[|prefix| + 1] == 'v';
  }

  // ---------- the bust pattern ----------

  /** The entries a bust reaches: all, those of a kind or named like it, or those of one plugin. */
  predicate Reached(m: BustMatch, kind: string, name: string) {
    if m.kind == "" then true
    else if m.name == "" then kind == m.kind || name == m.kind
    else kind == m.kind && name == m.name
  }

  function MiddleOf(m: BustMatch): string {
    if m.kind == "" then ":" else if m.name == "" then ":" + m.kind + ":" else ":" + m.kind + ":" + m.name + ":"
  }

  lemma KindsSeparatorFree(kind: string)
    requires ValidKind(kind)
    ensures ':' !in kind
  {
    assert kind == "executor" || kind == "tool" || kind == "retriever" || kind == "model_provider"
           || kind == "validator";
  }

  lemma ReachExact(bracket: Bracket, prefix: string, m: BustMatch, version: nat, kind: string, name: string,
                   key: string)
    requires (m.kind == "" || ValidKind(m.kind)) && ':' !in m.name && Segments(kind, name, key)
    ensures Matches(bracket, PatternFor(prefix, MiddleOf(m)), RedisKey(prefix, version, kind, name, key)) <==>
            Reached(m, kind, name)
  {
    if m.kind == "" {
      AllPatternExact(bracket, prefix, version, kind, name, key);
    } else {
      KindsSeparatorFree(m.kind);
      if m.name == "" {
        KindPatternExact(bracket, prefix, m.kind, version, kind, name, key);
      } else {
        PluginPatternExact(bracket, prefix, m, version, kind, name, key);
      }
    }
  }

  /** The glob a bust scans for; None for a name without a kind or a kind outside the vocabulary. It matches exactly the
      entries it reaches under the prefix, of every key version, and no stats key. */
  method BustPattern(prefix: string, m: BustMatch) returns (p: Option<string>)
    ensures p.None? <==> (m.kind == "" && m.name != "") || (m.kind != "" && !ValidKind(m.kind))
    ensures p.Some? && ':' !in m.name ==>
              forall bracket: Bracket, version: nat, kind: string, name: string, key: string
                | Segments(kind, name, key) ::
                Matches(bracket, p.value, RedisKey(prefix, version, kind, name, key)) <==> Reached(m, kind, name)
    ensures p.Some? ==> forall bracket: Bracket, kind: string, name: string ::
                          !Matches(bracket, p.value, StatsRedisKey(prefix, kind, name))
  {
    var escaped := GlobEscape(prefix);
    var base := escaped + ":v*";
    if m.kind == "" && m.name != "" {
      return None;
    }
    if m.kind != "" && !ValidKind(m.kind) {
      return None;
    }
    var text;
    if m.kind == "" {
      PlainPattern(prefix);
      text := base + ":*";
    } else {
      var kind := GlobEscape(m.kind);
      if m.name == "" {
        KindPattern(prefix, m.kind);
        text := base + ":" + kind + ":*";
      } else {
        var name := GlobEscape(m.name);
        PluginPattern(prefix, m.kind, m.name);
        text := base + ":" + kind + ":" + name + ":*";
      }
    }
    assert text == PatternFor(prefix, MiddleOf(m));
    PatternExact(prefix, m);
    return Some(text);
  }

  lemma PatternExact(prefix: string, m: BustMatch)
    requires (m.kind == "" && m.name == "") || ValidKind(m.kind)
    ensures ':' !in m.name ==>
              forall bracket: Bracket, version: nat, kind: string, name: string, key: string
                | Segments(kind, name, key) ::
                Matches(bracket, PatternFor(prefix, MiddleOf(m)), RedisKey(prefix, version, kind, name, key)) <==>
                  Reached(m, kind, name)
    ensures forall bracket: Bracket, kind: string, name: string ::
              !Matches(bracket, PatternFor(prefix, MiddleOf(m)), StatsRedisKey(prefix, kind, name))
  {
    hide Matches, PatternFor, MiddleOf, RedisKey, StatsRedisKey, Reached;
    if ':' !in m.name {
      forall bracket: Bracket, version: nat, kind: string, name: string, key: string | Segments(kind, name, key)
        ensures Matches(bracket, PatternFor(prefix, MiddleOf(m)), RedisKey(prefix, version, kind, name, key)) <==>
                Reached(m, kind, name)
      {
        ReachExact(bracket, prefix, m, version, kind, name, key);
      }
    }
    forall bracket: Bracket, kind: string, name: string
      ensures !Matches(bracket, PatternFor(prefix, MiddleOf(m)), StatsRedisKey(prefix, kind, name))
    {
      StatsSurvive(bracket, prefix, MiddleOf(m), kind, name);
    }
  }

  // ---------- stats keys ----------

  /** The plugin a stats key speaks of. */
  function ParseStatsKey(prefix: string, key: string): Option<(string, string)> {
    var want := prefix + ":stats:";
    if !(want <= key) then None
    else
      var tail := key[|want|..];
      if ':' !in tail then None
      else
        var kind := Before(tail, ':');
        var name := tail[|kind| + 1..];
        if kind == "" || name == "" then None else Some((kind, name))
  }

  /** Parsing inverts key building, on exactly the keys it accepts. */
  lemma StatsRoundTrip(prefix: string, key: string, kind: string, name: string)
    ensures ParseStatsKey(prefix, key) == Some((kind, name))
            <==> key == StatsRedisKey(prefix, kind, name) && kind != "" && ':' !in kind && name != ""
  {
    var want := prefix + ":stats:";
    if key == StatsRedisKey(prefix, kind, name) && ':' !in kind {
      var tail := kind + ":" + name;
      assert key == want + tail;
      assert key[|want|..] == tail;
      assert tail[|kind|] == ':';
      BeforeUnique(tail, ':', kind, name);
      assert tail[|kind| + 1..] == name;
    }
    if ParseStatsKey(prefix, key) == Some((kind, name)) {
      var tail := key[|want|..];
      assert key == want + tail;
      assert tail == kind + ":" + name;
    }
  }
}
