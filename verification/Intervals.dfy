/** Sorted logs of admission times, and how many of them a half-open interval can hold. */
module Intervals {
  ghost predicate Sorted(ts: seq<real>) {
    forall i, j | 0 <= i <= j < |ts| :: ts[i] <= ts[j]
  }

  /** Any n + 1 consecutive entries span at least the width. */
  ghost predicate Spaced(ts: seq<real>, n: nat, width: real) {
    forall i, j | 0 <= i && i + n <= j < |ts| :: ts[j] - ts[i] >= width
  }

  /** Consecutive entries number at most `burst` plus `rate` times the time they span. */
  ghost predicate Metered(ts: seq<real>, burst: real, rate: real) {
    forall i, j | 0 <= i <= j < |ts| :: WithinMeter((j - i + 1) as real, burst, rate, ts[j] - ts[i])
  }

  /** How many entries lie in [lo, hi). */
  function CountIn(ts: seq<real>, lo: real, hi: real): nat {
    if ts == [] then 0
    else CountIn(ts[..|ts| - 1], lo, hi) + (if lo <= ts[|ts| - 1] < hi then 1 else 0)
  }

  lemma {:induction false} CountIsTail(ts: seq<real>, lo: real, hi: real)
    requires Sorted(ts)
    requires ts != [] ==> ts[|ts| - 1] < hi
    ensures CountIn(ts, lo, hi) <= |ts|
    ensures forall i | 0 <= i < |ts| :: ts[i] >= lo <==> i >= |ts| - CountIn(ts, lo, hi)
  {
    if ts != [] {
      var front := ts[..|ts| - 1];
      assert forall i | 0 <= i < |front| :: front[i] == ts[i];
      CountIsTail(front, lo, hi);
      assert front != [] ==> front[|front| - 1] <= ts[|ts| - 1];
    }
  }

  /** The entries of an interval are consecutive: some i and the count name them all. */
  lemma {:induction false} CountIsRun(ts: seq<real>, lo: real, hi: real) returns (i: nat)
    requires Sorted(ts)
    ensures i + CountIn(ts, lo, hi) <= |ts|
    ensures forall k | i <= k < i + CountIn(ts, lo, hi) :: lo <= ts[k] < hi
  {
    if ts == [] || ts[|ts| - 1] < hi {
      CountIsTail(ts, lo, hi);
      i := |ts| - CountIn(ts, lo, hi);
    } else {
      i := CountIsRun(ts[..|ts| - 1], lo, hi);
    }
  }

  lemma SpacedBoundsCount(ts: seq<real>, n: nat, width: real, lo: real)
    requires Sorted(ts) && Spaced(ts, n, width)
    ensures CountIn(ts, lo, lo + width) <= n
  {
    var i := CountIsRun(ts, lo, lo + width);
    if i + n < |ts| {
      assert ts[i + n] - ts[i] >= width;
    }
  }

  lemma MeteredBoundsCount(ts: seq<real>, burst: real, rate: real, lo: real, hi: real)
    requires Sorted(ts) && Metered(ts, burst, rate)
    requires burst > 0.0 && rate > 0.0 && lo <= hi
    ensures WithinMeter(CountIn(ts, lo, hi) as real, burst, rate, hi - lo)
  {
    var i := CountIsRun(ts, lo, hi);
    var c := CountIn(ts, lo, hi);
    if c > 0 {
      var j := i + c - 1;
      assert WithinMeter((j - i + 1) as real, burst, rate, ts[j] - ts[i]);
      MeterGrows(c as real, burst, rate, ts[j] - ts[i], hi - lo);
    } else {
      MeterGrows(0.0, burst, rate, 0.0, hi - lo);
    }
  }

  /** An amount that a burst plus `span` seconds at the rate can pay for. */
  predicate WithinMeter(amount: real, burst: real, rate: real, span: real) {
    amount <= burst + rate * span
  }

  lemma ProductPositive(x: real, y: real)
    requires x >= 0.0 && y >= 0.0
    ensures x * y >= 0.0
  {}

  lemma MeterGrows(amount: real, burst: real, rate: real, span: real, wider: real)
    requires rate > 0.0 && span <= wider && WithinMeter(amount, burst, rate, span)
    ensures WithinMeter(amount, burst, rate, wider)
  {
    var d := wider - span;
    ProductPositive(rate, d);
    assert rate * wider == rate * span + rate * d;
  }

  // ------------------------------------------------------------------ dropping old entries

  /** What is left after popping from the left while the head is at or before the cutoff. */
  function Recent(ts: seq<real>, cutoff: real): (r: seq<real>)
    ensures |r| <= |ts|
  {
    if ts == [] || ts[0] > cutoff then ts else Recent(ts[1..], cutoff)
  }

  lemma {:induction false} RecentIsSuffix(ts: seq<real>, cutoff: real)
    ensures Recent(ts, cutoff) == ts[|ts| - |Recent(ts, cutoff)|..]
  {
    if ts != [] && ts[0] <= cutoff {
      RecentIsSuffix(ts[1..], cutoff);
    }
  }

  /** On a sorted log that is exactly the entries after the cutoff. */
  lemma {:induction false} RecentIsAfter(ts: seq<real>, cutoff: real)
    requires Sorted(ts)
    ensures forall i | 0 <= i < |ts| :: ts[i] > cutoff <==> i >= |ts| - |Recent(ts, cutoff)|
  {
    if ts != [] && ts[0] <= cutoff {
      RecentIsAfter(ts[1..], cutoff);
      assert forall i | 1 <= i < |ts| :: ts[i] == ts[1..][i - 1];
    }
  }

  lemma {:induction false} RecentTwice(ts: seq<real>, early: real, late: real)
    requires early <= late
    ensures Recent(Recent(ts, early), late) == Recent(ts, late)
  {
    if ts != [] && ts[0] <= early {
      RecentTwice(ts[1..], early, late);
    }
  }

  /** Entries up to the cutoff in front of a log do not change its recent entries. */
  lemma {:induction false} RecentOfSuffix(before: seq<real>, ts: seq<real>, cutoff: real)
    requires forall i | 0 <= i < |before| :: before[i] <= cutoff
    ensures Recent(before + ts, cutoff) == Recent(ts, cutoff)
  {
    if before == [] {
      assert before + ts == ts;
    } else {
      assert (before + ts)[1..] == before[1..] + ts;
      RecentOfSuffix(before[1..], ts, cutoff);
    }
  }

  lemma AppendSorted(ts: seq<real>, now: real)
    requires Sorted(ts)
    requires forall i | 0 <= i < |ts| :: ts[i] <= now
    ensures Sorted(ts + [now])
  {}

  lemma AppendSpaced(ts: seq<real>, n: nat, width: real, now: real)
    requires n > 0 && Spaced(ts, n, width)
    requires forall i | 0 <= i <= |ts| - n :: ts[i] <= now - width
    ensures Spaced(ts + [now], n, width)
  {
    var all := ts + [now];
    forall i, j | 0 <= i && i + n <= j < |all| ensures all[j] - all[i] >= width {
      assert all[i] == ts[i];
      if j < |ts| {
        assert all[j] == ts[j];
      }
    }
  }

  /** Admitting while fewer than n entries are recent keeps any n + 1 of them a window apart. */
  lemma AdmitKeepsSpaced(ts: seq<real>, n: nat, width: real, now: real)
    requires Sorted(ts) && Spaced(ts, n, width)
    requires forall i | 0 <= i < |ts| :: ts[i] <= now
    requires |Recent(ts, now - width)| < n
    ensures Sorted(ts + [now]) && Spaced(ts + [now], n, width)
  {
    AppendSorted(ts, now);
    RecentIsAfter(ts, now - width);
    AppendSpaced(ts, n, width, now);
  }
}
