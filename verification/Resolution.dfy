/** Resolving a pointer in a JSON document (internal/blackboard/blackboard.go). */
module Resolution {
  import opened Definitions
  import opened Pointers
  import opened Texts

  datatype Json = Scalar(text: string) | Object(fields: map<string, Json>) | Array(items: seq<Json>)

  // ---------- numerals ----------

  function DigitValue(c: char): nat {
    if c == '1' then 1
    else if c == '2' then 2
    else if c == '3' then 3
    else if c == '4' then 4
    else if c == '5' then 5
    else if c == '6' then 6
    else if c == '7' then 7
    else if c == '8' then 8
    else if c == '9' then 9
    else 0
  }

  function Value(digits: string): nat {
    if digits == [] then 0 else 10 * Value(digits[..|digits| - 1]) + DigitValue(digits[|digits| - 1])
  }

  predicate AllDigits(s: string) {
    s != [] && forall c | c in s :: IsDigit(c)
  }

  /** A decimal integer with an optional sign; leading zeros are accepted. */
  function Atoi(s: string): Option<int> {
    if AllDigits(s) then Some(Value(s))
    else if s != [] && s[0] == '+' && AllDigits(s[1..]) then Some(Value(s[1..]))
    else if s != [] && s[0] == '-' && AllDigits(s[1..]) then Some(0 - Value(s[1..]))
    else None
  }

  lemma {:induction false} ValueOfDecimal(n: nat)
    ensures Value(Decimal(n)) == n
  {
    if n >= 10 {
      ValueOfDecimal(n / 10);
      var d := Decimal(n);
      assert d[..|d| - 1] == Decimal(n / 10) && d[|d| - 1] == Digit(n % 10);
    } else {
      assert Value([]) == 0;
      assert [Digit(n)][..0] == [];
    }
  }

  lemma AtoiInverts(n: nat)
    ensures Atoi(Itoa(n)) == Some(n)
  {
    DecimalDigits(n);
    ValueOfDecimal(n);
  }

  function Zeros(z: nat): string {
    seq(z, _ => '0')
  }

  /** The numeral of n behind z zeros. */
  function Padded(z: nat, n: nat): string {
    Zeros(z) + Decimal(n)
  }

  lemma DigitBack(c: char)
    requires IsDigit(c)
    ensures DigitValue(c) < 10 && Digit(DigitValue(c)) == c
  {
  }

  /** Digits spell a numeral behind some zeros. */
  lemma {:induction false} DigitsSpell(s: string) returns (z: nat)
    requires AllDigits(s)
    ensures s == Padded(z, Value(s))
  {
    hide Padded, Value, DigitValue, Digit;
    var front, c := s[..|s| - 1], s[|s| - 1];
    assert c in s && s == front + [c];
    DigitBack(c);
    if front == [] {
      z := 0;
      OneDigit(c);
      assert s == [c];
    } else {
      assert forall x | x in front :: x in s;
      z := DigitsSpell(front);
      ValueGrows(front, c);
      PaddedGrows(z, Value(front), c);
      z := if Value(front) == 0 then z + 1 else z;
    }
  }

  lemma OneDigit(c: char)
    requires DigitValue(c) < 10 && Digit(DigitValue(c)) == c
    ensures [c] == Padded(0, Value([c]))
  {
    assert [c][..0] == [] && Value([]) == 0;
  }

  lemma ValueGrows(front: string, c: char)
    ensures Value(front + [c]) == 10 * Value(front) + DigitValue(c)
  {
    assert (front + [c])[..|front|] == front;
  }

  lemma ZeroDigit()
    ensures Decimal(0) == "0"
  {
  }

  lemma PaddedGrows(z: nat, v: nat, c: char)
    requires DigitValue(c) < 10 && Digit(DigitValue(c)) == c
    ensures Padded(z, v) + [c] == Padded(if v == 0 then z + 1 else z, 10 * v + DigitValue(c))
  {
    hide DigitValue, Digit;
    var d := DigitValue(c);
    if v == 0 {
      assert Zeros(z + 1) == Zeros(z) + "0";
      ZeroDigit();
    } else {
      assert (10 * v + d) / 10 == v && (10 * v + d) % 10 == d;
    }
  }

  lemma {:induction false} ZerosValue(z: nat, n: nat)
    ensures AllDigits(Padded(z, n)) && Value(Padded(z, n)) == n
    decreases z, n
  {
    hide Value, Padded;
    if n >= 10 {
      ZerosValue(z, n / 10);
      PaddedMore(z, n);
      ValueGrows(Padded(z, n / 10), Digit(n % 10));
    } else if z > 0 {
      ZerosValue(z - 1, 0);
      PaddedLess(z, n);
      ValueGrows(Padded(z - 1, 0), Digit(n));
    } else {
      PaddedLeast(n);
      ValueGrows([], Digit(n));
      assert [] + [Digit(n)] == [Digit(n)];
    }
  }

  lemma PaddedMore(z: nat, n: nat)
    requires n >= 10
    ensures Padded(z, n) == Padded(z, n / 10) + [Digit(n % 10)]
  {
  }

  lemma PaddedLess(z: nat, n: nat)
    requires z > 0 && n < 10
    ensures Padded(z, n) == Padded(z - 1, 0) + [Digit(n)]
  {
    assert Zeros(z) == Zeros(z - 1) + "0";
  }

  lemma PaddedLeast(n: nat)
    requires n < 10
    ensures Padded(0, n) == [Digit(n)] && Value([]) == 0
  {
  }

  /** An optional sign, any number of zeros, the numeral. */
  ghost predicate IsSpelling(s: string, z: nat, n: int) {
    || (n >= 0 && (s == Padded(z, n) || s == "+" + Padded(z, n)))
    || (n <= 0 && s == "-" + Padded(z, -n))
  }

  /** What is read as an integer, and as which. */
  lemma AtoiExact(s: string, n: int)
    ensures Atoi(s) == Some(n) <==> exists z: nat :: IsSpelling(s, z, n)
  {
    hide Padded, Value, AllDigits;
    if Atoi(s) == Some(n) {
      var z := DigitsSpell(if AllDigits(s) then s else s[1..]);
      assert !AllDigits(s) ==> s == [s[0]] + s[1..];
      assert IsSpelling(s, z, n);
    }
    if z: nat :| IsSpelling(s, z, n) {
      var d := Padded(z, if n < 0 then -n else n);
      ZerosValue(z, if n < 0 then -n else n);
      SignIsNoDigit(d);
      assert s == d || (s == [s[0]] + d && s[1..] == d);
    }
  }

  lemma SignIsNoDigit(d: string)
    ensures !AllDigits("+" + d) && !AllDigits("-" + d)
  {
    assert ("+" + d)[0] in "+" + d && ("-" + d)[0] in "-" + d;
  }

  // ---------- the walk ----------

  /** One hop: an object by key, an array by index. */
  function Step(cur: Json, token: string): Option<Json> {
    match cur
    case Object(fields) => if token in fields then Some(fields[token]) else None
    case Array(items) =>
      var i := Atoi(token);
      if i.Some? && 0 <= i.value < |items| then Some(items[i.value]) else None
    case Scalar(_) => None
  }

  function Walk(doc: Json, tokens: seq<string>): Option<Json> {
    if tokens == [] then Some(doc)
    else
      var next := Step(doc, tokens[0]);
      if next.None? then None else Walk(next.value, tokens[1..])
  }

  lemma {:induction false} WalkConcat(doc: Json, a: seq<string>, b: seq<string>)
    ensures Walk(doc, a + b) == if Walk(doc, a).None? then None else Walk(Walk(doc, a).value, b)
  {
    if a == [] {
      assert a + b == b;
    } else {
      assert (a + b)[1..] == a[1..] + b;
      var next := Step(doc, a[0]);
      if next.Some? {
        WalkConcat(next.value, a[1..], b);
      }
    }
  }

  method ResolvePointer(doc: Json, pointer: string) returns (r: Option<Json>)
    ensures pointer == "" ==> r == Some(doc)
    ensures pointer != "" && pointer[0] != '/' ==> r == None
    ensures pointer != "" && pointer[0] == '/' ==> r == Walk(doc, Map(Unescape, Split(pointer[1..], '/')))
  {
    if pointer == "" {
      return Some(doc);
    }
    var parsed := ParsePointer(pointer);
    if parsed.None? {
      return None;
    }
    var tokens, cur := parsed.value, doc;
    for i := 0 to |tokens|
      invariant Walk(doc, tokens[..i]) == Some(cur)
    {
      assert tokens == tokens[..i] + tokens[i..];
      WalkConcat(doc, tokens[..i], tokens[i..]);
      assert tokens[..i + 1] == tokens[..i] + [tokens[i]];
      WalkConcat(doc, tokens[..i], [tokens[i]]);
      var next := Step(cur, tokens[i]);
      if next.None? {
        return None;
      }
      cur := next.value;
    }
    assert tokens[..|tokens|] == tokens;
    return Some(cur);
  }

  // ---------- every value has a pointer ----------

  datatype Hop = Key(name: string) | Index(at: nat)

  ghost function At(doc: Json, path: seq<Hop>): Option<Json> {
    if path == [] then Some(doc)
    else if path[0].Key? && doc.Object? && path[0].name in doc.fields then At(doc.fields[path[0].name], path[1..])
    else if path[0].Index? && doc.Array? && path[0].at < |doc.items| then At(doc.items[path[0].at], path[1..])
    else None
  }

  function Token(h: Hop): string {
    match h
    case Key(name) => name
    case Index(at) => Itoa(at)
  }

  function Tokens(path: seq<Hop>): seq<string> {
    if path == [] then [] else [Token(path[0])] + Tokens(path[1..])
  }

  lemma {:induction false} PathWalks(doc: Json, path: seq<Hop>)
    requires At(doc, path).Some?
    ensures Walk(doc, Tokens(path)) == At(doc, path)
  {
    if path != [] {
      assert Tokens(path)[1..] == Tokens(path[1..]);
      if path[0].Index? {
        AtoiInverts(path[0].at);
        PathWalks(doc.items[path[0].at], path[1..]);
      } else {
        PathWalks(doc.fields[path[0].name], path[1..]);
      }
    }
  }

  /** Whatever its keys hold, every value inside a document is addressed by the pointer written for its path. */
  lemma EveryValueIsAddressed(doc: Json, path: seq<Hop>)
    requires At(doc, path).Some? && path != []
    ensures Pointer(Tokens(path)) != "" && Pointer(Tokens(path))[0] == '/' && ValidPointer(Pointer(Tokens(path)))
    ensures Walk(doc, Map(Unescape, Split(Pointer(Tokens(path))[1..], '/'))) == At(doc, path)
  {
    SplitPointer(Tokens(path));
    PointerIsValid(Tokens(path));
    ParsePointerInverts(Tokens(path));
    PathWalks(doc, path);
  }

  /** The token spells the hop: a key literally, a position as an integer. */
  ghost predicate Spells(token: string, h: Hop) {
    match h
    case Key(name) => token == name
    case Index(at) => Atoi(token) == Some(at)
  }

  ghost predicate SpellPath(tokens: seq<string>, path: seq<Hop>) {
    |tokens| == |path| && forall i | 0 <= i < |path| :: Spells(tokens[i], path[i])
  }

  /** The walk finds a value exactly when some path the tokens spell leads to it: nothing is read from a missing key, a
      position out of range or a scalar. */
  lemma WalkExact(doc: Json, tokens: seq<string>, v: Json)
    ensures Walk(doc, tokens) == Some(v) <==> exists path :: SpellPath(tokens, path) && At(doc, path) == Some(v)
  {
    if Walk(doc, tokens) == Some(v) {
      var path := WalkSpelled(doc, tokens, v);
    }
    if path :| SpellPath(tokens, path) && At(doc, path) == Some(v) {
      SpelledWalks(doc, tokens, path);
    }
  }

  lemma {:induction false} SpelledWalks(doc: Json, tokens: seq<string>, path: seq<Hop>)
    requires SpellPath(tokens, path) && At(doc, path).Some?
    ensures Walk(doc, tokens) == At(doc, path)
  {
    if path != [] {
      assert Spells(tokens[0], path[0]);
      assert SpellPath(tokens[1..], path[1..]);
      if path[0].Index? {
        SpelledWalks(doc.items[path[0].at], tokens[1..], path[1..]);
      } else {
        SpelledWalks(doc.fields[path[0].name], tokens[1..], path[1..]);
      }
    }
  }

  lemma {:induction false} WalkSpelled(doc: Json, tokens: seq<string>, v: Json) returns (path: seq<Hop>)
    requires Walk(doc, tokens) == Some(v)
    ensures SpellPath(tokens, path) && At(doc, path) == Some(v)
  {
    path := [];
    if tokens != [] {
      var rest := WalkSpelled(Step(doc, tokens[0]).value, tokens[1..], v);
      path := [if doc.Array? then Index(Atoi(tokens[0]).value) else Key(tokens[0])] + rest;
      assert path[1..] == rest;
    }
  }

  // ---------- array indices ----------

  /** The hop as section 4 of RFC 6901 has it: an array index is written without sign or leading zeros. */
  ghost function StrictStep(cur: Json, token: string): Option<Json> {
    if cur.Array? && Loose(token) then None else Step(cur, token)
  }

  ghost function StrictWalk(doc: Json, tokens: seq<string>): Option<Json> {
    if tokens == [] then Some(doc)
    else
      var next := StrictStep(doc, tokens[0]);
      if next.None? then None else StrictWalk(next.value, tokens[1..])
  }

  /** An index token the standard does not allow and the code reads all the same. */
  predicate Loose(token: string) {
    var i := Atoi(token);
    i.Some? && i.value >= 0 && token != Itoa(i.value)
  }

  /** Which tokens those are: a plus sign, a leading zero, or a negative zero. */
  lemma LooseExact(token: string)
    ensures Loose(token) <==>
            exists z: nat, n: nat :: || token == "+" + Padded(z, n) || (z > 0 && token == Padded(z, n))
                                     || token == "-" + Padded(z, 0)
  {
    hide Atoi;
    if Loose(token) {
      var n := Atoi(token).value;
      AtoiExact(token, n);
      var z: nat :| IsSpelling(token, z, n);
      assert Padded(0, n) == Itoa(n);
      assert token == "+" + Padded(z, n) || (z > 0 && token == Padded(z, n)) || token == "-" + Padded(z, 0);
    }
    if z: nat, n: nat :| || token == "+" + Padded(z, n) || (z > 0 && token == Padded(z, n))
                         || token == "-" + Padded(z, 0)
    {
      var value := if token == "-" + Padded(z, 0) then 0 else n;
      assert IsSpelling(token, z, value);
      AtoiExact(token, value);
      DecimalDigits(value);
      SignIsNoDigit(Padded(z, value));
      assert Itoa(value) == Decimal(value) && AllDigits(Itoa(value));
      assert token == Padded(z, value) ==> |token| == z + |Decimal(value)|;
    }
  }

  /** The strict reading takes exactly the canonical numerals. */
  lemma StrictIndex(items: seq<Json>, token: string)
    ensures StrictStep(Array(items), token).Some? <==> exists i: nat :: i < |items| && token == Itoa(i)
  {
    if i: nat :| i < |items| && token == Itoa(i) {
      AtoiInverts(i);
    }
  }

  /** A document whose objects follow the tokens. */
  ghost function Chain(tokens: seq<string>): Json {
    if tokens == [] then Scalar("") else Object(map[tokens[0] := Chain(tokens[1..])])
  }

  lemma {:induction false} ChainWalks(tokens: seq<string>)
    ensures Walk(Chain(tokens), tokens) == Some(Scalar(""))
  {
    if tokens != [] {
      ChainWalks(tokens[1..]);
    }
  }

  /** A document on which the two readings part at the first loose token. */
  ghost function Parting(tokens: seq<string>): Json
    requires exists t :: t in tokens && Loose(t)
  {
    if Loose(tokens[0]) then Array(seq(Atoi(tokens[0]).value + 1, _ => Chain(tokens[1..])))
    else
      assert exists t :: t in tokens[1..] && Loose(t);
      Object(map[tokens[0] := Parting(tokens[1..])])
  }

  lemma {:induction false} PartingParts(tokens: seq<string>)
    requires exists t :: t in tokens && Loose(t)
    ensures Walk(Parting(tokens), tokens).Some? && StrictWalk(Parting(tokens), tokens).None?
  {
    if Loose(tokens[0]) {
      ChainWalks(tokens[1..]);
    } else {
      PartingParts(tokens[1..]);
    }
  }

  lemma {:induction false} CanonicalAgrees(doc: Json, tokens: seq<string>)
    requires forall t | t in tokens :: !Loose(t)
    ensures Walk(doc, tokens) == StrictWalk(doc, tokens)
  {
    if tokens != [] {
      assert tokens[0] in tokens;
      var next := Step(doc, tokens[0]);
      if next.Some? {
        CanonicalAgrees(next.value, tokens[1..]);
      }
    }
  }

  /** The resolver reads a pointer as the standard does, on every document, exactly when no token is a loose index. */
  lemma StandardIff(tokens: seq<string>)
    ensures (forall doc :: Walk(doc, tokens) == StrictWalk(doc, tokens)) <==> forall t | t in tokens :: !Loose(t)
  {
    if t :| t in tokens && Loose(t) {
      PartingParts(tokens);
    } else {
      forall doc ensures Walk(doc, tokens) == StrictWalk(doc, tokens) {
        CanonicalAgrees(doc, tokens);
      }
    }
  }

  /** The pointers /1, /01 and /+1 address the same array element. */
  lemma LooseIndexWitness(a: Json, b: Json)
    ensures Loose("01") && Loose("+1")
    ensures Walk(Array([a, b]), ["1"]) == Walk(Array([a, b]), ["01"]) == Walk(Array([a, b]), ["+1"]) == Some(b)
  {
    assert Value("1") == 1 by { assert "1"[..0] == []; }
    assert Value("01") == 1 by { assert "01"[..1] == "0"; assert "0"[..0] == []; }
    assert "+1"[1..] == "1";
    assert Itoa(1) == "1";
    assert "+1"[0] in "+1" && !IsDigit("+1"[0]);
  }
}
