/** JSON pointers, section 3 to 5 of RFC 6901 (internal/blackboard/blackboard.go, internal/dag/validation.go). */
module Pointers {
  import opened Definitions
  import opened Texts

  // ---------- syntax ----------

  /** Every '~' starts an escape. */
  predicate EscapesOk(s: string) {
    if s == [] then true
    else if s[0] != '~' then EscapesOk(s[1..])
    else |s| >= 2 && (s[1] == '0' || s[1] == '1') && EscapesOk(s[2..])
  }

  predicate ValidPointer(s: string) {
    s == "" || (s[0] == '/' && EscapesOk(s))
  }

  method CheckJSONPointer(s: string) returns (ok: bool)
    ensures ok <==> ValidPointer(s)
  {
    if s == "" {
      return true;
    }
    if s[0] != '/' {
      return false;
    }
    var i := 0;
    while i < |s|
      invariant 0 <= i <= |s| && (EscapesOk(s) <==> EscapesOk(s[i..]))
    {
      if s[i] == '~' {
        if i + 1 >= |s| || (s[i + 1] != '0' && s[i + 1] != '1') {
          return false;
        }
        assert s[i..][2..] == s[i + 2..];
        i := i + 1;
      } else {
        assert s[i..][1..] == s[i + 1..];
      }
      i := i + 1;
    }
    return true;
  }

  // ---------- tokens ----------

  /** Replaces every non-overlapping '~' d by c, left to right. */
  function Replace(s: string, d: char, c: char): string {
    if s == [] then []
    else if |s| >= 2 && s[0] == '~' && s[1] == d then [c] + Replace(s[2..], d, c)
    else [s[0]] + Replace(s[1..], d, c)
  }

  /** The one-pass reading of escapes in section 4 of RFC 6901. */
  function Unescape(s: string): string {
    if s == [] then []
    else if |s| >= 2 && s[0] == '~' && s[1] == '1' then ['/'] + Unescape(s[2..])
    else if |s| >= 2 && s[0] == '~' && s[1] == '0' then ['~'] + Unescape(s[2..])
    else [s[0]] + Unescape(s[1..])
  }

  /** The first character after the first pass. */
  lemma ReplaceHead(s: string)
    ensures Replace(s, '1', '/') == [] <==> s == []
    ensures s != [] && Replace(s, '1', '/')[0] == '0' ==> s[0] == '0'
  {
  }

  /** Two whole-string replacements in the right order amount to one pass, for every string. */
  lemma {:induction false} TwoPassesAreOne(s: string)
    ensures Replace(Replace(s, '1', '/'), '0', '~') == Unescape(s)
  {
    if s == [] {
    } else if |s| >= 2 && s[0] == '~' && s[1] == '1' {
      TwoPassesAreOne(s[2..]);
      FirstPass('/', Replace(s[2..], '1', '/'));
    } else if |s| >= 2 && s[0] == '~' && s[1] == '0' {
      TwoPassesAreOne(s[2..]);
      assert s[1..][1..] == s[2..];
      var rest := Replace(s[2..], '1', '/');
      assert Replace(s, '1', '/') == ['~'] + (['0'] + rest);
      assert (['~'] + (['0'] + rest))[2..] == rest;
    } else {
      TwoPassesAreOne(s[1..]);
      ReplaceHead(s[1..]);
      FirstPass(s[0], Replace(s[1..], '1', '/'));
    }
  }

  lemma FirstPass(c: char, rest: string)
    requires c != '~' || rest == [] || rest[0] != '0'
    ensures Replace([c] + rest, '0', '~') == [c] + Replace(rest, '0', '~')
  {
    assert ([c] + rest)[1..] == rest;
  }

  function Map(f: string -> string, parts: seq<string>): seq<string> {
    seq(|parts|, i requires 0 <= i < |parts| => f(parts[i]))
  }

  lemma MapCons(f: string -> string, p: string, parts: seq<string>)
    ensures Map(f, [p] + parts) == [f(p)] + Map(f, parts) && Map(f, [p]) == [f(p)]
  {
  }

  /** Decodes a non-empty pointer: one token per segment, read as the standard reads it. */
  method ParsePointer(pointer: string) returns (tokens: Option<seq<string>>)
    requires pointer != ""
    ensures tokens.None? <==> pointer[0] != '/'
    ensures tokens.Some? ==> tokens.value == Map(Unescape, Split(pointer[1..], '/'))
  {
    if pointer[0] != '/' {
      return None;
    }
    var parts := Split(pointer[1..], '/');
    ghost var segments := parts;
    for i := 0 to |parts|
      invariant |parts| == |segments|
      invariant forall j | 0 <= j < i :: parts[j] == Unescape(segments[j])
      invariant forall j | i <= j < |parts| :: parts[j] == segments[j]
    {
      var p := parts[i];
      TwoPassesAreOne(p);
      p := Replace(p, '1', '/');
      p := Replace(p, '0', '~');
      parts := parts[i := p];
    }
    assert parts == Map(Unescape, segments);
    return Some(parts);
  }

  // ---------- writing pointers ----------

  function EscapeToken(t: string): string {
    if t == [] then []
    else (if t[0] == '~' then "~0" else if t[0] == '/' then "~1" else [t[0]]) + EscapeToken(t[1..])
  }

  function Pointer(tokens: seq<string>): string {
    if tokens == [] then "" else "/" + EscapeToken(tokens[0]) + Pointer(tokens[1..])
  }

  lemma PointerCons(t: string, tokens: seq<string>)
    ensures Pointer([t] + tokens) == "/" + EscapeToken(t) + Pointer(tokens) && Pointer([t]) == "/" + EscapeToken(t)
  {
    assert [t][1..] == [];
    assert ([t] + tokens)[1..] == tokens;
  }

  lemma {:induction false} EscapedHasNoSlash(t: string)
    ensures '/' !in EscapeToken(t)
  {
    if t != [] {
      EscapedHasNoSlash(t[1..]);
    }
  }

  lemma {:induction false} UnescapeEscape(t: string)
    ensures Unescape(EscapeToken(t)) == t
  {
    if t != [] {
      UnescapeEscape(t[1..]);
      var rest := EscapeToken(t[1..]);
      if t[0] == '~' {
        assert EscapeToken(t) == ['~', '0'] + rest;
        assert (['~', '0'] + rest)[2..] == rest;
      } else if t[0] == '/' {
        assert EscapeToken(t) == ['~', '1'] + rest;
        assert (['~', '1'] + rest)[2..] == rest;
      } else {
        assert ([t[0]] + rest)[1..] == rest;
      }
    }
  }

  /** On accepted segments, escaping puts back exactly what was read. */
  lemma {:induction false} EscapeUnescape(s: string)
    requires EscapesOk(s) && '/' !in s
    ensures EscapeToken(Unescape(s)) == s
  {
    if s == [] {
    } else if s[0] == '~' {
      EscapeUnescape(s[2..]);
      assert s == [s[0], s[1]] + s[2..];
      assert Unescape(s)[1..] == Unescape(s[2..]);
    } else {
      EscapeUnescape(s[1..]);
      assert s == [s[0]] + s[1..];
      assert Unescape(s)[1..] == Unescape(s[1..]);
    }
  }

  lemma AfterSlash(head: string, rest: string)
    requires rest != "" && rest[0] == '/'
    ensures ("/" + head + rest)[1..] == head + "/" + rest[1..]
  {
  }

  function Escaped(tokens: seq<string>): seq<string> {
    Map(EscapeToken, tokens)
  }

  /** The segments of a written pointer are the escaped tokens. */
  lemma {:induction false} SplitPointer(tokens: seq<string>)
    requires tokens != []
    ensures Pointer(tokens) != "" && Pointer(tokens)[0] == '/' && Split(Pointer(tokens)[1..], '/') == Escaped(tokens)
  {
    hide Pointer, EscapeToken, Map, Split;
    var head, rest := EscapeToken(tokens[0]), tokens[1..];
    assert tokens == [tokens[0]] + rest;
    PointerCons(tokens[0], rest);
    MapCons(EscapeToken, tokens[0], rest);
    EscapedHasNoSlash(tokens[0]);
    if rest == [] {
      assert tokens == [tokens[0]];
      assert ("/" + head)[1..] == head;
      SplitNone(head, '/');
    } else {
      SplitPointer(rest);
      AfterSlash(head, Pointer(rest));
      SplitOnce(head, Pointer(rest)[1..], '/');
    }
  }

  /** Writing a token list and parsing it back returns the list. */
  lemma ParsePointerInverts(tokens: seq<string>)
    requires tokens != []
    ensures Map(Unescape, Split(Pointer(tokens)[1..], '/')) == tokens
  {
    SplitPointer(tokens);
    forall i | 0 <= i < |tokens| ensures Unescape(EscapeToken(tokens[i])) == tokens[i] {
      UnescapeEscape(tokens[i]);
    }
  }

  lemma {:induction false} EscapesOkConcat(a: string, b: string)
    requires EscapesOk(a) && EscapesOk(b)
    ensures EscapesOk(a + b)
  {
    if a == [] {
      assert a + b == b;
    } else if a[0] != '~' {
      assert (a + b)[1..] == a[1..] + b;
      EscapesOkConcat(a[1..], b);
    } else {
      assert (a + b)[2..] == a[2..] + b;
      EscapesOkConcat(a[2..], b);
    }
  }

  lemma {:induction false} EscapedIsOk(t: string)
    ensures EscapesOk(EscapeToken(t))
  {
    if t != [] {
      EscapedIsOk(t[1..]);
      var head := if t[0] == '~' then "~0" else if t[0] == '/' then "~1" else [t[0]];
      assert EscapesOk(head) by { assert |head| == 2 ==> head[2..] == []; }
      EscapesOkConcat(head, EscapeToken(t[1..]));
    }
  }

  /** Every written pointer passes the check. */
  lemma {:induction false} PointerIsValid(tokens: seq<string>)
    ensures ValidPointer(Pointer(tokens)) && EscapesOk(Pointer(tokens))
  {
    if tokens != [] {
      PointerIsValid(tokens[1..]);
      EscapedIsOk(tokens[0]);
      EscapesOkConcat("/", EscapeToken(tokens[0]));
      EscapesOkConcat("/" + EscapeToken(tokens[0]), Pointer(tokens[1..]));
    }
  }

  lemma {:induction false} EscapesOkSplit(a: string, b: string)
    requires EscapesOk(a + "/" + b)
    ensures EscapesOk(a) && EscapesOk(b)
  {
    var s := a + "/" + b;
    if a == [] {
      assert s[1..] == b;
    } else if a[0] != '~' {
      assert s[1..] == a[1..] + "/" + b;
      EscapesOkSplit(a[1..], b);
    } else {
      assert s[1] == if |a| == 1 then '/' else a[1];
      assert s[2..] == a[2..] + "/" + b;
      EscapesOkSplit(a[2..], b);
    }
  }

  /** Accepted pointers are exactly the written ones: reading one and writing it back returns it. */
  lemma {:induction false} PointerRoundTrip(s: string)
    requires EscapesOk(s)
    ensures Pointer(Map(Unescape, Split(s, '/'))) == "/" + s
    decreases |s|
  {
    hide Unescape, EscapeToken, Map, Pointer, EscapesOk, Split;
    if '/' !in s {
      EscapeUnescape(s);
      MapCons(Unescape, s, []);
      PointerCons(Unescape(s), []);
      SplitNone(s, '/');
    } else {
      var head := Before(s, '/');
      var tail := s[|head| + 1..];
      assert s == head + "/" + tail;
      EscapesOkSplit(head, tail);
      EscapeUnescape(head);
      PointerRoundTrip(tail);
      SplitOnce(head, tail, '/');
      MapCons(Unescape, head, Split(tail, '/'));
      PointerCons(Unescape(head), Map(Unescape, Split(tail, '/')));
      assert "/" + head + ("/" + tail) == "/" + (head + "/" + tail);
    }
  }
}
