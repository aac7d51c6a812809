/** Binary search for the longest length that fits, over an arbitrary test of lengths
    (internal/contextmgr/compact.go, internal/contextmgr/contextmgr.go). */
module Probes {

  /** The length the search settles on: the last probe that fitted. */
  function Probe(fits: nat -> bool, lo: nat, hi: int, best: nat): nat
    decreases hi - lo + 1
  {
    if lo > hi then best
    else
      var mid := (lo + hi) / 2;
      if fits(mid) then Probe(fits, mid + 1, hi, mid) else Probe(fits, lo, mid - 1, best)
  }

  /** One probe of the loop. */
  lemma ProbeOnce(fits: nat -> bool, lo: nat, hi: nat, best: nat)
    requires lo <= hi
    ensures var mid := (lo + hi) / 2;
            && lo <= mid <= hi
            && Probe(fits, lo, hi, best)
               == if fits(mid) then Probe(fits, mid + 1, hi, mid) else Probe(fits, lo, mid - 1, best)
  {
  }

  lemma ProbesSpent(fits: nat -> bool, lo: nat, hi: int, best: nat)
    requires lo > hi
    ensures Probe(fits, lo, hi, best) == best
  {
  }

  /** Some probe on the search path does not fit although a longer length still in range does. */
  ghost predicate Misled(fits: nat -> bool, lo: nat, hi: int)
    decreases hi - lo + 1
  {
    lo <= hi
    && var mid := (lo + hi) / 2;
       if fits(mid) then Misled(fits, mid + 1, hi) else FitsWithin(fits, mid, hi) || Misled(fits, lo, mid - 1)
  }

  /** A length above lo, up to hi, fits. */
  ghost predicate FitsWithin(fits: nat -> bool, lo: int, hi: int) {
    exists j: nat :: lo < j <= hi && fits(j)
  }

  /** No length above k fits. */
  ghost predicate IsLongest(fits: nat -> bool, n: nat, k: nat) {
    !FitsWithin(fits, k, n)
  }

  lemma {:induction false} ProbeRange(fits: nat -> bool, n: nat, lo: nat, hi: int, best: nat)
    requires 0 <= hi && lo <= hi + 1 <= n + 1 && fits(0) && fits(best) && (best + 1 == lo || lo == best == 0)
    ensures var k := Probe(fits, lo, hi, best); k <= n && fits(k)
    ensures IsLongest(fits, n, Probe(fits, lo, hi, best)) <==> !FitsWithin(fits, hi, n) && !Misled(fits, lo, hi)
    decreases hi - lo + 1
  {
    hide FitsWithin, Probe;
    if lo <= hi {
      ProbeOnce(fits, lo, hi, best);
      var mid := (lo + hi) / 2;
      if fits(mid) {
        ProbeRange(fits, n, mid + 1, hi, mid);
      } else {
        ProbeRange(fits, n, lo, mid - 1, best);
        RangeSplits(fits, mid, hi, n);
      }
    } else {
      ProbesSpent(fits, lo, hi, best);
    }
  }

  lemma RangeSplits(fits: nat -> bool, mid: nat, hi: nat, n: nat)
    requires mid <= hi <= n && !fits(mid)
    ensures FitsWithin(fits, mid - 1, n) <==> FitsWithin(fits, mid, hi) || FitsWithin(fits, hi, n)
  {
    if j: nat :| mid - 1 < j <= n && fits(j) {
      assert j <= hi ==> mid < j <= hi && fits(j);
    }
    if j: nat :| mid < j <= hi && fits(j) {
      assert mid - 1 < j <= n && fits(j);
    }
    if j: nat :| hi < j <= n && fits(j) {
      assert mid - 1 < j <= n && fits(j);
    }
  }

  /** The search always ends on a length that fits; it is the longest one exactly when no probe misleads. */
  lemma ProbeExact(fits: nat -> bool, n: nat)
    requires fits(0)
    ensures var k := Probe(fits, 0, n, 0);
            k <= n && fits(k) && (IsLongest(fits, n, k) <==> !Misled(fits, 0, n))
  {
    ProbeRange(fits, n, 0, n, 0);
  }

  /** A test that only lets go as lengths grow never misleads. */
  lemma {:induction false} MonotoneNeverMisleads(fits: nat -> bool, lo: nat, hi: int)
    requires forall i: nat, j: nat | i <= j <= hi && fits(j) :: fits(i)
    ensures !Misled(fits, lo, hi)
    decreases hi - lo + 1
  {
    if lo <= hi {
      var mid := (lo + hi) / 2;
      if fits(mid) {
        MonotoneNeverMisleads(fits, mid + 1, hi);
      } else {
        MonotoneNeverMisleads(fits, lo, mid - 1);
      }
    }
  }

  /** Lengths 0 and 2 fit and 1 does not: the search settles on 0. */
  lemma GapMisleads(fits: nat -> bool)
    requires fits(0) && !fits(1) && fits(2)
    ensures Misled(fits, 0, 2) && Probe(fits, 0, 2, 0) == 0 && !IsLongest(fits, 2, 0)
  {
    assert 1 < 2 <= 2 && fits(2);
    assert FitsWithin(fits, 1, 2);
    assert Probe(fits, 0, 0, 0) == Probe(fits, 1, 0, 0) == 0;
  }

  /** A gap the probes step over does no harm: 0, 1, 3 and 4 fit, 2 does not, and so on up to 6, probed at 3 and 5. */
  lemma GapSteppedOver(fits: nat -> bool)
    requires fits(0) && fits(1) && !fits(2) && fits(3) && fits(4) && !fits(5) && !fits(6)
    ensures !Misled(fits, 0, 6) && Probe(fits, 0, 6, 0) == 4
  {
    assert !FitsWithin(fits, 5, 6);
    assert Probe(fits, 4, 6, 3) == Probe(fits, 4, 4, 3) == Probe(fits, 5, 4, 4) == 4;
    assert !Misled(fits, 5, 4) && !Misled(fits, 4, 4) && !Misled(fits, 4, 6);
  }
}
