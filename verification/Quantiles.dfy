/** Sorting and the interpolated quantile of app/pktgen-latency.c:214-236, on values. Sorting is
    the C library's; the quantile arithmetic is exact. */
module Quantiles {

  ghost predicate Ascending(s: seq<nat>) {
    forall i, j :: 0 <= i < j < |s| ==> s[i] <= s[j]
  }

  function InsertInto(x: nat, s: seq<nat>): (r: seq<nat>)
    ensures multiset(r) == multiset{x} + multiset(s) && |r| == |s| + 1
  {
    if s == [] || x <= s[0] then [x] + s
    else
      assert s == [s[0]] + s[1..];
      [s[0]] + InsertInto(x, s[1..])
  }

  lemma {:induction false} InsertKeepsAscending(x: nat, s: seq<nat>)
    requires Ascending(s)
    ensures Ascending(InsertInto(x, s))
  {
    if s != [] && x > s[0] {
      assert forall k :: 0 <= k < |s| - 1 ==> s[1..][k] == s[k + 1];
      InsertKeepsAscending(x, s[1..]);
      var rest := InsertInto(x, s[1..]);
      forall k | 0 <= k < |rest|
        ensures s[0] <= rest[k]
      {
        assert rest[k] in multiset(rest);
      }
    }
  }

  /** What qsort leaves: the same values in ascending order. */
  function Sorted(s: seq<nat>): (r: seq<nat>)
    ensures multiset(r) == multiset(s) && |r| == |s|
  {
    if s == [] then []
    else
      assert s == [s[0]] + s[1..];
      InsertInto(s[0], Sorted(s[1..]))
  }

  lemma {:induction false} SortedAscends(s: seq<nat>)
    ensures Ascending(Sorted(s))
  {
    if s != [] {
      SortedAscends(s[1..]);
      InsertKeepsAscending(s[0], Sorted(s[1..]));
    }
  }

  lemma HeadIsLeast(s: seq<nat>, x: nat)
    requires Ascending(s) && x in multiset(s)
    ensures s != [] && s[0] <= x
  {
    var k :| 0 <= k < |s| && s[k] == x;
  }

  lemma SplitHead(s: seq<nat>)
    requires Ascending(s) && s != []
    ensures Ascending(s[1..]) && multiset(s[1..]) == multiset(s) - multiset{s[0]} && s[0] in multiset(s)
  {
    assert s == [s[0]] + s[1..];
    assert forall k :: 0 <= k < |s| - 1 ==> s[1..][k] == s[k + 1];
  }

  lemma HeadsAgree(a: seq<nat>, b: seq<nat>)
    requires Ascending(a) && Ascending(b) && multiset(a) == multiset(b) && a != []
    ensures b != [] && a[0] == b[0]
  {
    assert a[0] in multiset(a);
    HeadIsLeast(b, a[0]);
    assert b[0] in multiset(b);
    HeadIsLeast(a, b[0]);
  }

  lemma {:induction false} AscendingIsUnique(a: seq<nat>, b: seq<nat>)
    requires Ascending(a) && Ascending(b) && multiset(a) == multiset(b)
    ensures a == b
    decreases |a|
  {
    if a != [] {
      HeadsAgree(a, b);
      SplitHead(a);
      SplitHead(b);
      AscendingIsUnique(a[1..], b[1..]);
      assert a == [a[0]] + a[1..];
      assert b == [b[0]] + b[1..];
    } else if b != [] {
      HeadsAgree(b, a);
    }
  }

  /** The value between s[idx] and s[idx + 1] at the fraction past idx, for s in order. */
  function Interpolated(s: seq<nat>, pos: real): (r: nat)
    requires s != [] && Ascending(s) && 0.0 <= pos <= (|s| - 1) as real
  {
    var idx := pos.Floor;
    var frac := pos - idx as real;
    if idx + 1 < |s| then
      assert s[idx] <= s[idx + 1];
      s[idx] + Part(s[idx + 1] - s[idx], frac)
    else s[idx]
  }

  /** (uint64_t)(d * frac). */
  function Part(d: nat, frac: real): (r: nat)
    requires 0.0 <= frac < 1.0
    ensures r <= d
  {
    assert 0.0 <= d as real * frac <= d as real;
    (d as real * frac).Floor
  }

  /** Where the q-quantile of `count` samples lies. */
  function Position(q: real, count: nat): (pos: real)
    requires 0.0 <= q <= 1.0 && count > 0
    ensures 0.0 <= pos <= (count - 1) as real
  {
    q * (count - 1) as real
  }

  lemma PositionMonotone(p: real, q: real, count: nat)
    requires 0.0 <= p <= q <= 1.0 && count > 0
    ensures Position(p, count) <= Position(q, count)
  {
    Scale((count - 1) as real, p, q);
  }

  /** The q-quantile of the samples, 0 when there are none. */
  function Quantile(samples: seq<nat>, q: real): (r: nat)
    requires 0.0 <= q <= 1.0
  {
    if samples == [] then 0
    else
      SortedAscends(samples);
      Interpolated(Sorted(samples), Position(q, |samples|))
  }

  lemma SortedOfMultiset(a: seq<nat>, b: seq<nat>)
    requires multiset(a) == multiset(b)
    ensures Sorted(a) == Sorted(b) && |a| == |b|
  {
    SortedAscends(a);
    SortedAscends(b);
    AscendingIsUnique(Sorted(a), Sorted(b));
  }

  /** The quantile depends on which samples there are, not on their order. */
  lemma QuantileOfMultiset(a: seq<nat>, b: seq<nat>, q: real)
    requires 0.0 <= q <= 1.0 && multiset(a) == multiset(b)
    ensures Quantile(a, q) == Quantile(b, q)
  {
    SortedOfMultiset(a, b);
  }

  lemma Scale(d: real, f: real, g: real)
    requires d >= 0.0 && f <= g
    ensures d * f <= d * g && f * d <= g * d
  {
  }

  lemma FloorMonotone(a: real, b: real)
    requires a <= b
    ensures a.Floor <= b.Floor
  {
  }

  lemma PartMonotone(d: nat, f: real, g: real)
    requires 0.0 <= f <= g < 1.0
    ensures Part(d, f) <= Part(d, g)
  {
    Scale(d as real, f, g);
    FloorMonotone(d as real * f, d as real * g);
  }

  lemma InterpolatedBounds(s: seq<nat>, pos: real)
    requires s != [] && Ascending(s) && 0.0 <= pos <= (|s| - 1) as real
    ensures 0 <= pos.Floor < |s|
    ensures s[pos.Floor] <= Interpolated(s, pos)
    ensures Interpolated(s, pos) <= s[if pos.Floor + 1 < |s| then pos.Floor + 1 else pos.Floor]
  {
  }

  lemma InterpolatedMonotone(s: seq<nat>, p: real, q: real)
    requires s != [] && Ascending(s) && 0.0 <= p <= q <= (|s| - 1) as real
    ensures Interpolated(s, p) <= Interpolated(s, q)
  {
    InterpolatedBounds(s, p);
    InterpolatedBounds(s, q);
    if p.Floor == q.Floor {
      if p.Floor + 1 < |s| {
        PartMonotone(s[p.Floor + 1] - s[p.Floor], p - p.Floor as real, q - q.Floor as real);
      }
    } else {
      assert p.Floor + 1 <= q.Floor;
      assert s[p.Floor + 1] <= s[q.Floor];
    }
  }

  /** A higher quantile is never a smaller value, so p90 <= p95 <= p99. */
  lemma QuantileMonotone(samples: seq<nat>, p: real, q: real)
    requires 0.0 <= p <= q <= 1.0
    ensures Quantile(samples, p) <= Quantile(samples, q)
  {
    if samples != [] {
      SortedAscends(samples);
      PositionMonotone(p, q, |samples|);
      InterpolatedMonotone(Sorted(samples), Position(p, |samples|), Position(q, |samples|));
    }
  }

  lemma InterpolatedAt(s: seq<nat>, i: nat)
    requires s != [] && Ascending(s) && i < |s|
    ensures Interpolated(s, i as real) == s[i]
  {
    if i + 1 < |s| {
      PartOfNothing(s[i + 1] - s[i]);
    }
  }

  lemma PartOfNothing(d: nat)
    ensures Part(d, 0.0) == 0
  {
    assert d as real * 0.0 == 0.0;
  }

  lemma PositionEnds(count: nat)
    requires count > 0
    ensures Position(0.0, count) == 0 as real && Position(1.0, count) == (count - 1) as real
  {
  }

  /** q = 0 and q = 1 give the least and the greatest sample. */
  lemma QuantileEnds(samples: seq<nat>)
    requires samples != []
    ensures Quantile(samples, 0.0) == Sorted(samples)[0]
    ensures Quantile(samples, 1.0) == Sorted(samples)[|samples| - 1]
  {
    SortedAscends(samples);
    PositionEnds(|samples|);
    InterpolatedAt(Sorted(samples), 0);
    InterpolatedAt(Sorted(samples), |samples| - 1);
  }

  lemma Extremes(s: seq<nat>, samples: seq<nat>, x: nat)
    requires Ascending(s) && multiset(s) == multiset(samples) && |s| == |samples| && x in samples
    ensures s[0] <= x <= s[|samples| - 1]
    ensures s[0] in samples && s[|samples| - 1] in samples
  {
    assert x in multiset(s);
    var k :| 0 <= k < |s| && s[k] == x;
    assert s[0] in multiset(s) && s[|s| - 1] in multiset(s);
    assert forall y :: y in multiset(samples) ==> y in samples;
  }

  lemma SortedExtremes(samples: seq<nat>, x: nat)
    requires x in samples
    ensures Sorted(samples)[0] <= x <= Sorted(samples)[|samples| - 1]
    ensures Sorted(samples)[0] in samples && Sorted(samples)[|samples| - 1] in samples
  {
    SortedAscends(samples);
    Extremes(Sorted(samples), samples, x);
  }

  /** The quantile lies between the least and the greatest sample, which are among the samples. */
  lemma QuantileBetweenExtremes(samples: seq<nat>, q: real, x: nat)
    requires 0.0 <= q <= 1.0 && x in samples
    ensures Quantile(samples, 0.0) <= Quantile(samples, q) <= Quantile(samples, 1.0)
    ensures Quantile(samples, 0.0) <= x <= Quantile(samples, 1.0)
    ensures Quantile(samples, 0.0) in samples && Quantile(samples, 1.0) in samples
  {
    QuantileMonotone(samples, 0.0, q);
    QuantileMonotone(samples, q, 1.0);
    QuantileEnds(samples);
    SortedExtremes(samples, x);
  }

  lemma InterpolatedRank(s: seq<nat>, pos: real, i: nat)
    requires s != [] && Ascending(s) && 0.0 <= pos <= (|s| - 1) as real && i < |s|
    ensures i <= pos.Floor ==> s[i] <= Interpolated(s, pos)
    ensures i > pos.Floor ==> Interpolated(s, pos) <= s[i]
  {
    InterpolatedBounds(s, pos);
  }

  /** The quantile splits the samples at its position: in order, those up to it are no larger, and
      those beyond it no smaller. */
  lemma QuantileRank(samples: seq<nat>, q: real, i: nat)
    requires 0.0 <= q <= 1.0 && i < |samples|
    ensures i <= Position(q, |samples|).Floor ==> Sorted(samples)[i] <= Quantile(samples, q)
    ensures i > Position(q, |samples|).Floor ==> Quantile(samples, q) <= Sorted(samples)[i]
  {
    SortedAscends(samples);
    InterpolatedRank(Sorted(samples), Position(q, |samples|), i);
  }

  // --- evenly spaced samples

  function Sample(first: nat, step: nat, i: nat): nat {
    first + step * i
  }

  /** first, first + step, first + 2 * step, and so on. */
  ghost predicate Evenly(samples: seq<nat>, first: nat, step: nat) {
    forall i :: 0 <= i < |samples| ==> samples[i] == Sample(first, step, i)
  }

  /** The exact value at a position, rounded down. */
  function Along(first: nat, step: nat, pos: real): int {
    (first as real + step as real * pos).Floor
  }

  lemma SampleGrows(first: nat, step: nat, i: nat, j: nat)
    requires i <= j
    ensures Sample(first, step, i) <= Sample(first, step, j)
  {
    assert step * j == step * i + step * (j - i);
  }

  lemma SampleNext(first: nat, step: nat, i: nat)
    ensures Sample(first, step, i + 1) == Sample(first, step, i) + step
  {
  }

  lemma EvenlyAscends(samples: seq<nat>, first: nat, step: nat)
    requires Evenly(samples, first, step)
    ensures Ascending(samples)
  {
    forall i, j | 0 <= i < j < |samples| ensures samples[i] <= samples[j] {
      SampleGrows(first, step, i, j);
    }
  }

  lemma FloorShift(n: int, x: real)
    ensures (n as real + x).Floor == n + x.Floor
  {
  }

  lemma AlongFrom(first: nat, step: nat, idx: nat, frac: real)
    ensures Along(first, step, idx as real + frac) == Sample(first, step, idx) + (step as real * frac).Floor
  {
    assert (step * idx) as real == step as real * idx as real;
    assert step as real * (idx as real + frac) == step as real * idx as real + step as real * frac;
    FloorShift(first + step * idx, step as real * frac);
  }

  lemma NoFraction(step: nat, frac: real)
    requires frac == 0.0
    ensures (step as real * frac).Floor == 0
  {
    assert step as real * frac == 0.0;
  }

  lemma InterpolatedEvenly(s: seq<nat>, first: nat, step: nat, pos: real)
    requires s != [] && Ascending(s) && Evenly(s, first, step) && 0.0 <= pos <= (|s| - 1) as real
    ensures Interpolated(s, pos) == Along(first, step, pos)
  {
    var idx := pos.Floor;
    var frac := pos - idx as real;
    AlongFrom(first, step, idx, frac);
    assert idx as real + frac == pos;
    if idx + 1 < |s| {
      SampleNext(first, step, idx);
    } else {
      NoFraction(step, frac);
    }
  }

  lemma QuantileOfAscending(samples: seq<nat>, q: real)
    requires 0.0 <= q <= 1.0 && samples != [] && Ascending(samples)
    ensures Quantile(samples, q) == Interpolated(samples, Position(q, |samples|))
  {
    SortedAscends(samples);
    AscendingIsUnique(Sorted(samples), samples);
  }

  /** Of evenly spaced samples the q-quantile is the exact value at its position, rounded down. */
  lemma QuantileOfEvenly(samples: seq<nat>, first: nat, step: nat, q: real)
    requires 0.0 <= q <= 1.0 && samples != [] && Evenly(samples, first, step)
    ensures Quantile(samples, q) == Along(first, step, Position(q, |samples|))
  {
    EvenlyAscends(samples, first, step);
    QuantileOfAscending(samples, q);
    InterpolatedEvenly(samples, first, step, Position(q, |samples|));
  }

  /** The position moves from the first sample to the last in proportion to q. */
  lemma PositionIsLinear(p: real, q: real, count: nat)
    requires 0.0 <= p && 0.0 <= q && p + q <= 1.0 && count > 0
    ensures Position(0.0, count) == 0.0 && Position(1.0, count) == (count - 1) as real
    ensures Position(p + q, count) == Position(p, count) + Position(q, count)
  {
    var gaps := (count - 1) as real;
    assert (p + q) * gaps == p * gaps + q * gaps;
  }

  /** The median of 10 and 21 is 15, and their 90th percentile 19. */
  lemma BetweenTwo(samples: seq<nat>)
    requires samples == [10, 21]
    ensures Quantile(samples, 0.5) == 15 && Quantile(samples, 0.9) == 19
  {
    assert Evenly(samples, 10, 11);
    QuantileOfEvenly(samples, 10, 11, 0.5);
    QuantileOfEvenly(samples, 10, 11, 0.9);
    assert Position(0.5, 2) == 0.5 && Position(0.9, 2) == 0.9;
    assert (10.0 + 11.0 * 0.5).Floor == 15 && (10.0 + 11.0 * 0.9).Floor == 19;
  }
}
