/** Redis glob matching and the escaping of literal text in patterns (internal/cache/bust.go). */
module Globs {

  /** How a bracket expression consumes one character: whether it accepts it, and the pattern left after the bracket.
      No pattern built here contains one, so every result below holds for any reading of brackets. */
  type Bracket = (string, char) -> (bool, string)

  /** The glob language of Redis KEYS and SCAN. */
  ghost predicate Matches(bracket: Bracket, p: string, s: string)
    decreases |p|, |s|
  {
    if p == [] then s == []
    else if p[0] == '*' then Matches(bracket, p[1..], s) || (s != [] && Matches(bracket, p, s[1..]))
    else if s == [] then false
    else if p[0] == '?' then Matches(bracket, p[1..], s[1..])
    else if p[0] == '[' then
      var (accepted, rest) := bracket(p[1..], s[0]);
      accepted && |rest| < |p| && Matches(bracket, rest, s[1..])
    else if p[0] == '\\' && |p| >= 2 then s[0] == p[1] && Matches(bracket, p[2..], s[1..])
    else s[0] == p[0] && Matches(bracket, p[1..], s[1..])
  }

  predicate IsMeta(c: char) {
    c == '*' || c == '?' || c == '[' || c == ']' || c == '\\'
  }

  function EscapeChar(c: char): string {
    if IsMeta(c) then ['\\', c] else [c]
  }

  function Escape(s: string): string {
    if s == [] then [] else EscapeChar(s[0]) + Escape(s[1..])
  }

  lemma {:induction false} EscapeConcat(a: string, b: string)
    ensures Escape(a + b) == Escape(a) + Escape(b)
  {
    if a == [] {
      assert a + b == b;
    } else {
      assert (a + b)[1..] == a[1..] + b;
      EscapeConcat(a[1..], b);
    }
  }

  method GlobEscape(s: string) returns (r: string)
    ensures r == Escape(s)
  {
    r := "";
    for i := 0 to |s|
      invariant r == Escape(s[..i])
    {
      if s[i] == '*' || s[i] == '?' || s[i] == '[' || s[i] == ']' || s[i] == '\\' {
        r := r + ['\\'];
      }
      r := r + [s[i]];
      assert s[..i + 1] == s[..i] + [s[i]];
      EscapeConcat(s[..i], [s[i]]);
      assert Escape([s[i]]) == EscapeChar(s[i]);
    }
    assert s[..|s|] == s;
  }

  lemma EscapedCharExact(bracket: Bracket, c: char, p: string, s: string)
    ensures Matches(bracket, EscapeChar(c) + p, s) <==> s != [] && s[0] == c && Matches(bracket, p, s[1..])
  {
    var q := EscapeChar(c) + p;
    if IsMeta(c) {
      assert q[0] == '\\' && q[1] == c && q[2..] == p;
    } else {
      assert q[0] == c && q[1..] == p;
    }
  }

  /** Escaped text matches itself and nothing else, whatever follows. */
  lemma {:induction false} EscapedExact(bracket: Bracket, lit: string, p: string, s: string)
    ensures Matches(bracket, Escape(lit) + p, s) <==> lit <= s && Matches(bracket, p, s[|lit|..])
  {
    if lit == [] {
      assert Escape(lit) + p == p && s[0..] == s;
    } else {
      assert Escape(lit) + p == EscapeChar(lit[0]) + (Escape(lit[1..]) + p);
      EscapedCharExact(bracket, lit[0], Escape(lit[1..]) + p, s);
      if s != [] && s[0] == lit[0] {
        EscapedExact(bracket, lit[1..], p, s[1..]);
        assert s == [s[0]] + s[1..] && lit == [lit[0]] + lit[1..];
        if |lit| <= |s| {
          assert s[1..][|lit[1..]|..] == s[|lit|..];
        }
      }
    }
  }

  /** A star skips any stretch of the text. */
  lemma {:induction false} StarExact(bracket: Bracket, p: string, s: string)
    ensures Matches(bracket, "*" + p, s) <==> exists k :: 0 <= k <= |s| && Matches(bracket, p, s[k..])
    decreases |s|
  {
    assert ("*" + p)[0] == '*' && ("*" + p)[1..] == p && s[0..] == s;
    if s != [] {
      StarExact(bracket, p, s[1..]);
      forall k | 0 <= k < |s| ensures s[1..][k..] == s[k + 1..] {
      }
      if Matches(bracket, "*" + p, s[1..]) {
        var k :| 0 <= k <= |s[1..]| && Matches(bracket, p, s[1..][k..]);
        assert Matches(bracket, p, s[k + 1..]);
      }
      if k :| 0 < k <= |s| && Matches(bracket, p, s[k..]) {
        assert s[1..][k - 1..] == s[k..];
      }
    }
  }

  lemma StarMatchesAll(bracket: Bracket, s: string)
    ensures Matches(bracket, "*", s)
  {
    StarExact(bracket, "", s);
    assert "*" + "" == "*" && s[|s|..] == [];
    assert Matches(bracket, "", s[|s|..]);
  }

  ghost predicate HasShape(s: string, head: string, mid: string) {
    exists x: string, y: string :: s == head + x + mid + y
  }

  /** A pattern of two literals, each followed by a star, matches exactly the texts of that shape. */
  lemma ShapeExact(bracket: Bracket, head: string, mid: string, s: string)
    ensures Matches(bracket, Escape(head) + ("*" + (Escape(mid) + "*")), s) <==> HasShape(s, head, mid)
  {
    var tail := Escape(mid) + "*";
    EscapedExact(bracket, head, "*" + tail, s);
    if head <= s {
      var rest := s[|head|..];
      StarExact(bracket, tail, rest);
      forall k | 0 <= k <= |rest| ensures Matches(bracket, tail, rest[k..]) <==> mid <= rest[k..] {
        EscapedExact(bracket, mid, "*", rest[k..]);
        if mid <= rest[k..] {
          StarMatchesAll(bracket, rest[k..][|mid|..]);
        }
      }
      ShapeSplits(s, head, mid);
    }
    ShapeStarts(s, head, mid);
  }

  lemma ShapeStarts(s: string, head: string, mid: string)
    ensures HasShape(s, head, mid) ==> head <= s
  {
    if HasShape(s, head, mid) {
      var x: string, y: string :| s == head + x + mid + y;
    }
  }

  lemma ShapeSplits(s: string, head: string, mid: string)
    requires head <= s
    ensures HasShape(s, head, mid) <==> exists k :: 0 <= k <= |s[|head|..]| && mid <= s[|head|..][k..]
  {
    var rest := s[|head|..];
    if HasShape(s, head, mid) {
      var x: string, y: string :| s == head + x + mid + y;
      assert rest == x + mid + y;
      assert rest[|x|..] == mid + y;
    }
    if k :| 0 <= k <= |rest| && mid <= rest[k..] {
      ShapeAt(s, head, mid, k);
    }
  }

  lemma ShapeAt(s: string, head: string, mid: string, k: nat)
    requires head <= s && k <= |s[|head|..]| && mid <= s[|head|..][k..]
    ensures HasShape(s, head, mid)
  {
    var rest := s[|head|..];
    var x, y := rest[..k], rest[k..][|mid|..];
    assert rest == x + rest[k..] && rest[k..] == mid + y && s == head + rest;
    assert s == head + x + mid + y;
  }
}
