/** Length-prefixed framing of byte components (internal/cache/key.go). */
module Framing {
  import opened Definitions

  type byte = b: nat | b < 256

  type Bytes = seq<byte>

  /** The low k bytes of n, most significant first. */
  function BigEndian(n: nat, k: nat): Bytes
    decreases k
  {
    if k == 0 then [] else BigEndian(n / 256, k - 1) + [n % 256]
  }

  ghost function Span(k: nat): nat {
    if k == 0 then 1 else 256 * Span(k - 1)
  }

  /** Eight bytes hold every 64-bit length. */
  lemma SpanOfEight()
    ensures Span(8) == 0x1_0000_0000_0000_0000
  {
    assert Span(2) == 0x1_0000;
    assert Span(4) == 0x1_0000_0000;
    assert Span(6) == 0x1_0000_0000_0000;
  }

  lemma {:induction false} BigEndianSize(n: nat, k: nat)
    ensures |BigEndian(n, k)| == k
    decreases k
  {
    if k > 0 {
      BigEndianSize(n / 256, k - 1);
    }
  }

  lemma {:induction false} BigEndianInjective(m: nat, n: nat, k: nat)
    requires m < Span(k) && n < Span(k) && BigEndian(m, k) == BigEndian(n, k)
    ensures m == n
    decreases k
  {
    if k > 0 {
      BigEndianSize(m / 256, k - 1);
      BigEndianSize(n / 256, k - 1);
      var a, b := BigEndian(m, k), BigEndian(n, k);
      assert BigEndian(m / 256, k - 1) == a[..k - 1] && BigEndian(n / 256, k - 1) == b[..k - 1];
      assert m % 256 == a[k - 1] && n % 256 == b[k - 1];
      BigEndianInjective(m / 256, n / 256, k - 1);
    }
  }

  function Frame(c: Bytes): Bytes {
    BigEndian(|c|, 8) + c
  }

  function Framed(comps: seq<Bytes>): Bytes {
    if comps == [] then [] else Frame(comps[0]) + Framed(comps[1..])
  }

  /** Lengths as a 64-bit machine holds them. */
  ghost predicate Sized(comps: seq<Bytes>) {
    forall c | c in comps :: |c| < 0x1_0000_0000_0000_0000
  }

  /** The first component can be read back off any continuation. */
  lemma FrameUnique(a: Bytes, b: Bytes, resta: Bytes, restb: Bytes)
    requires |a| < 0x1_0000_0000_0000_0000 && |b| < 0x1_0000_0000_0000_0000
    requires Frame(a) + resta == Frame(b) + restb
    ensures a == b && resta == restb
  {
    var s, t := Frame(a) + resta, Frame(b) + restb;
    BigEndianSize(|a|, 8);
    BigEndianSize(|b|, 8);
    assert BigEndian(|a|, 8) == s[..8] && BigEndian(|b|, 8) == t[..8];
    SpanOfEight();
    BigEndianInjective(|a|, |b|, 8);
    assert a == s[8..8 + |a|] && b == t[8..8 + |b|];
    assert resta == s[8 + |a|..] && restb == t[8 + |b|..];
  }

  lemma FramedEmpty(comps: seq<Bytes>)
    ensures Framed(comps) == [] <==> comps == []
  {
    if comps != [] {
      BigEndianSize(|comps[0]|, 8);
    }
  }

  /** No two component lists feed the hash the same bytes. */
  lemma {:induction false} FramedInjective(a: seq<Bytes>, b: seq<Bytes>)
    requires Sized(a) && Sized(b) && Framed(a) == Framed(b)
    ensures a == b
  {
    hide BigEndian, Frame;
    FramedEmpty(a);
    FramedEmpty(b);
    if a != [] {
      assert a[0] in a && b[0] in b;
      FrameUnique(a[0], b[0], Framed(a[1..]), Framed(b[1..]));
      FramedInjective(a[1..], b[1..]);
      assert a == [a[0]] + a[1..] && b == [b[0]] + b[1..];
    }
  }

  lemma {:induction false} FramedConcat(a: seq<Bytes>, b: seq<Bytes>)
    ensures Framed(a + b) == Framed(a) + Framed(b)
  {
    if a == [] {
      assert a + b == b;
    } else {
      assert (a + b)[1..] == a[1..] + b;
      FramedConcat(a[1..], b);
    }
  }

  /** The bytes written into the hash, component by component. */
  method FeedComponents(comps: seq<Bytes>) returns (fed: Bytes)
    ensures fed == Framed(comps)
  {
    hide BigEndian;
    fed := [];
    for i := 0 to |comps|
      invariant fed == Framed(comps[..i])
    {
      fed := fed + BigEndian(|comps[i]|, 8);
      fed := fed + comps[i];
      assert comps[..i + 1] == comps[..i] + [comps[i]];
      FramedConcat(comps[..i], [comps[i]]);
      assert Framed([comps[i]]) == Frame(comps[i]);
    }
    assert comps[..|comps|] == comps;
  }

  // ---------- reading the frames back ----------

  /** The number the bytes spell in base 256, the first digit the most significant. */
  function Number(digits: Bytes): nat {
    if digits == [] then 0 else 256 * Number(digits[..|digits| - 1]) + digits[|digits| - 1]
  }

  lemma {:induction false} NumberInverts(n: nat, k: nat)
    requires n < Span(k)
    ensures Number(BigEndian(n, k)) == n
    decreases k
  {
    if k > 0 {
      NumberInverts(n / 256, k - 1);
      var digits := BigEndian(n, k);
      assert digits[..|digits| - 1] == BigEndian(n / 256, k - 1);
    }
  }

  /** Takes frame after frame off the bytes: an eight-byte length, then that many bytes. */
  function Unframe(s: Bytes): Option<seq<Bytes>>
    decreases |s|
  {
    if s == [] then Some([])
    else if |s| < 8 || |s| < 8 + Number(s[..8]) then None
    else
      var n := 8 + Number(s[..8]);
      var rest := Unframe(s[n..]);
      if rest.None? then None else Some([s[8..n]] + rest.value)
  }

  /** What was framed can be read back, component by component. */
  lemma {:induction false} UnframeInverts(comps: seq<Bytes>)
    requires Sized(comps)
    ensures Unframe(Framed(comps)) == Some(comps)
  {
    if comps != [] {
      var c, rest := comps[0], comps[1..];
      UnframeInverts(rest);
      BigEndianSize(|c|, 8);
      SpanOfEight();
      NumberInverts(|c|, 8);
      FrameParts(c, Framed(rest));
      assert comps == [c] + rest;
    }
  }

  lemma FrameParts(c: Bytes, rest: Bytes)
    requires |BigEndian(|c|, 8)| == 8
    ensures var s := Frame(c) + rest;
            s[..8] == BigEndian(|c|, 8) && s[8..8 + |c|] == c && s[8 + |c|..] == rest
  {
  }
}
