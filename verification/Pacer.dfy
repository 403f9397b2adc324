/** The deadline loop that paces one transmit queue (pktgen_main_rxtx_loop and
    pktgen_main_tx_loop of app/pktgen.c) and the bound it puts on all queues of a port. */
module Pacer {
  import opened Arithmetic
  import opened Constants
  import opened PacketRate

  const MAX_TX_LAG := 20000
  const TWO_63 := 0x8000_0000_0000_0000

  /** One poll that found its deadline passed: the clock it read and the deadline it met. */
  datatype Burst = Burst(time: int, deadline: int)

  // --- one poll, in unbounded arithmetic

  /** The deadline that follows a burst at `curr`: lateness up to MAX_TX_LAG is caught up. */
  function NextDeadline(next: int, curr: int, cycles: nat): int
    requires next <= curr
  {
    curr + cycles - (if curr - next <= MAX_TX_LAG then curr - next else 0)
  }

  /** The bursts of a loop that starts with deadline `next` and reads `clock` poll by poll. */
  function Bursts(next: int, clock: seq<int>, cycles: nat): (bs: seq<Burst>)
    decreases |clock|
  {
    if clock == [] then []
    else if clock[0] >= next then
      [Burst(clock[0], next)] + Bursts(NextDeadline(next, clock[0], cycles), clock[1..], cycles)
    else Bursts(next, clock[1..], cycles)
  }

  function FinalDeadline(next: int, clock: seq<int>, cycles: nat): int
    decreases |clock|
  {
    if clock == [] then next
    else FinalDeadline(if clock[0] >= next then NextDeadline(next, clock[0], cycles) else next,
                       clock[1..], cycles)
  }

  // --- one poll, as the 64-bit code computes it

  function Wrap(x: int): (w: nat)
    ensures w < TWO_64
  {
    x % TWO_64
  }

  /** Conversion of an unsigned 64-bit word to int64_t. */
  function ToInt64(w: nat): int
    requires w < TWO_64
  {
    if w < TWO_63 then w else w - TWO_64
  }

  /** A transmit queue: the word tx_next_cycle that its loop keeps. */
  class TxQueue {
    var txNextCycle: nat

    constructor (start: nat)
      ensures txNextCycle == start
    {
      txNextCycle := start;
    }

    /** One turn of the loop; `fire` says whether pktgen_main_transmit is called. */
    method Poll(curr: nat, txCycles: nat) returns (fire: bool)
      requires txNextCycle < TWO_64 && curr < TWO_64
      modifies this
      ensures txNextCycle < TWO_64
      ensures fire <==> ToInt64(Wrap(curr - old(txNextCycle))) >= 0
      ensures !fire ==> txNextCycle == old(txNextCycle)
      ensures fire ==>
        var dt := ToInt64(Wrap(curr - old(txNextCycle)));
        txNextCycle == Wrap(curr + txCycles - if dt <= MAX_TX_LAG then dt else 0)
    {
      var dt := ToInt64((curr - txNextCycle) % TWO_64);
      fire := dt >= 0;
      if fire {
        txNextCycle := (curr + txCycles - (if dt <= MAX_TX_LAG then dt else 0)) % TWO_64;
      }
    }

    /** The whole loop over the clock values it reads. While the true lateness stays inside
        the signed 64-bit range, its wrapping arithmetic takes the decisions, and keeps the
        deadlines, of the unbounded loop. */
    method Loop(ghost start: int, clock: seq<int>, txCycles: nat) returns (fired: seq<int>)
      requires txNextCycle == Wrap(start)
      requires LagFits(start, clock, txCycles)
      modifies this
      ensures fired == Times(Bursts(start, clock, txCycles))
      ensures txNextCycle == Wrap(FinalDeadline(start, clock, txCycles))
    {
      fired := [];
      var i := 0;
      ghost var next := start;
      assert clock[0..] == clock;
      while i < |clock|
        invariant 0 <= i <= |clock|
        invariant txNextCycle == Wrap(next)
        invariant Remaining(start, clock, next, clock[i..], fired, txCycles)
      {
        assert clock[i..][0] == clock[i] && clock[i..][1..] == clock[i + 1..];
        RemainingStep(start, clock, next, clock[i..], fired, txCycles);
        WrappedPollAgrees(next, clock[i], txCycles);
        var now := clock[i];
        var fire := Poll(now % TWO_64, txCycles);
        if fire {
          fired := fired + [now];
          next := NextDeadline(next, now, txCycles);
        }
        i := i + 1;
      }
    }
  }

  function Times(bs: seq<Burst>): (ts: seq<int>)
    ensures |ts| == |bs|
    ensures forall k :: 0 <= k < |bs| ==> ts[k] == bs[k].time
  {
    if bs == [] then [] else [bs[0].time] + Times(bs[1..])
  }

  /** The bursts fired so far, and those of the rest of the clock, make up those of the whole. */
  ghost predicate Remaining(start: int, clock: seq<int>, next: int, rest: seq<int>, fired: seq<int>, cycles: nat) {
    && LagFits(next, rest, cycles)
    && Times(Bursts(start, clock, cycles)) == fired + Times(Bursts(next, rest, cycles))
    && FinalDeadline(start, clock, cycles) == FinalDeadline(next, rest, cycles)
  }

  lemma RemainingStep(start: int, clock: seq<int>, next: int, rest: seq<int>, fired: seq<int>, cycles: nat)
    requires rest != [] && Remaining(start, clock, next, rest, fired, cycles)
    ensures rest[0] >= next ==>
              Remaining(start, clock, NextDeadline(next, rest[0], cycles), rest[1..], fired + [rest[0]], cycles)
    ensures rest[0] < next ==> Remaining(start, clock, next, rest[1..], fired, cycles)
    ensures -TWO_63 <= rest[0] - next < TWO_63
  {
    if rest[0] >= next {
      var later := Bursts(NextDeadline(next, rest[0], cycles), rest[1..], cycles);
      assert Bursts(next, rest, cycles) == [Burst(rest[0], next)] + later;
      assert ([Burst(rest[0], next)] + later)[1..] == later;
      assert fired + ([rest[0]] + Times(later)) == (fired + [rest[0]]) + Times(later);
    }
  }

  /** Every poll's distance from the deadline fits an int64_t. */
  ghost predicate LagFits(next: int, clock: seq<int>, cycles: nat)
    decreases |clock|
  {
    clock == [] ||
    (-TWO_63 <= clock[0] - next < TWO_63 &&
     LagFits(if clock[0] >= next then NextDeadline(next, clock[0], cycles) else next, clock[1..], cycles))
  }

  lemma WrapDifference(a: int, b: int)
    ensures Wrap(Wrap(a) - Wrap(b)) == Wrap(a - b)
    ensures Wrap(Wrap(a) - b) == Wrap(a - b)
  {
    var p, q := a / TWO_64, b / TWO_64;
    assert a == p * TWO_64 + Wrap(a) && b == q * TWO_64 + Wrap(b);
    WrapShift(Wrap(a) - Wrap(b), p - q);
    WrapShift(Wrap(a) - b, p);
  }

  lemma WrapShift(a: int, k: int)
    ensures Wrap(a + k * TWO_64) == Wrap(a)
  {
  }

  /** One wrapping poll decides, and moves the deadline, as the unbounded poll does whenever
      the distance from the deadline fits an int64_t. */
  lemma WrappedPollAgrees(next: int, curr: int, cycles: nat)
    requires -TWO_63 <= curr - next < TWO_63
    ensures var dt := ToInt64(Wrap(Wrap(curr) - Wrap(next)));
      && dt == curr - next
      && (dt >= 0 ==>
            Wrap(Wrap(curr) + cycles - (if dt <= MAX_TX_LAG then dt else 0)) ==
            Wrap(NextDeadline(next, curr, cycles)))
  {
    WrapDifference(curr, next);
    assert Wrap(curr - next) == if curr >= next then curr - next else curr - next + TWO_64;
    var dt := curr - next;
    WrapDifference(curr, (if dt <= MAX_TX_LAG then dt else 0) - cycles);
  }

  /** The first burst is at the first poll that is not before the deadline. */
  lemma {:induction false} FirstBurst(next: int, clock: seq<int>, cycles: nat, i: nat)
    requires i < |clock| && clock[i] >= next && forall k :: 0 <= k < i ==> clock[k] < next
    ensures var bs := Bursts(next, clock, cycles); bs != [] && bs[0] == Burst(clock[i], next)
    decreases i
  {
    if i > 0 {
      FirstBurst(next, clock[1..], cycles, i - 1);
    }
  }

  /** Polls before the deadline do nothing. */
  lemma {:induction false} NoBurstBefore(next: int, clock: seq<int>, cycles: nat)
    requires forall k :: 0 <= k < |clock| ==> clock[k] < next
    ensures Bursts(next, clock, cycles) == [] && FinalDeadline(next, clock, cycles) == next
    decreases |clock|
  {
    if clock != [] {
      NoBurstBefore(next, clock[1..], cycles);
    }
  }

  // --- what every run keeps

  /** Deadlines: each burst is at or after its deadline, and the next deadline is at least one
      step after this one and at least one step after this burst less the lag allowance. */
  ghost predicate Chained(bs: seq<Burst>, cycles: nat)
  {
    && (forall k :: 0 <= k < |bs| ==> bs[k].deadline <= bs[k].time)
    && (forall k :: 0 <= k < |bs| - 1 ==>
          bs[k + 1].deadline == NextDeadline(bs[k].deadline, bs[k].time, cycles))
  }

  lemma {:induction false} BurstsAreChained(next: int, clock: seq<int>, cycles: nat)
    ensures var bs := Bursts(next, clock, cycles);
      Chained(bs, cycles) && (|bs| > 0 ==> bs[0].deadline == next)
    decreases |clock|
  {
    if clock != [] {
      if clock[0] >= next {
        BurstsAreChained(NextDeadline(next, clock[0], cycles), clock[1..], cycles);
        var tail := Bursts(NextDeadline(next, clock[0], cycles), clock[1..], cycles);
        var bs := Bursts(next, clock, cycles);
        assert bs == [Burst(clock[0], next)] + tail;
        forall k | 0 <= k < |bs| - 1
          ensures bs[k + 1].deadline == NextDeadline(bs[k].deadline, bs[k].time, cycles)
        {
          if k > 0 {
            assert bs[k] == tail[k - 1] && bs[k + 1] == tail[k];
            assert tail[(k - 1) + 1].deadline == NextDeadline(tail[k - 1].deadline, tail[k - 1].time, cycles);
          }
        }
      } else {
        BurstsAreChained(next, clock[1..], cycles);
      }
    }
  }

  lemma {:induction false} ChainGap(bs: seq<Burst>, cycles: nat, i: nat, j: nat)
    requires Chained(bs, cycles) && i <= j < |bs|
    ensures bs[j].deadline >= bs[i].deadline + (j - i) * cycles
    decreases j
  {
    if i < j {
      ChainGap(bs, cycles, i, j - 1);
      assert bs[(j - 1) + 1].deadline == NextDeadline(bs[j - 1].deadline, bs[j - 1].time, cycles);
      assert (j - i) * cycles == (j - 1 - i) * cycles + cycles;
    }
  }

  /** Pacer safety: any two bursts of one queue are at least their share of steps apart, less
      one lag allowance, however late and irregular the polls were. */
  lemma BurstSpacing(next: int, clock: seq<int>, cycles: nat, i: nat, j: nat)
    requires i < j < |Bursts(next, clock, cycles)|
    ensures var bs := Bursts(next, clock, cycles);
      (j - i) * cycles <= bs[j].time - bs[i].time + 20000
  {
    var bs := Bursts(next, clock, cycles);
    BurstsAreChained(next, clock, cycles);
    assert bs[i + 1].deadline == NextDeadline(bs[i].deadline, bs[i].time, cycles);
    ChainGap(bs, cycles, i + 1, j);
    assert (j - i) * cycles == (j - (i + 1)) * cycles + cycles;
  }

  /** No drift: while no burst is more than the allowance late, the k-th deadline is exactly
      the first one plus k steps. */
  lemma {:induction false} NoDrift(next: int, clock: seq<int>, cycles: nat, k: nat)
    requires k < |Bursts(next, clock, cycles)|
    requires forall m :: 0 <= m < k ==>
      var b := Bursts(next, clock, cycles)[m]; b.time - b.deadline <= 20000
    ensures Bursts(next, clock, cycles)[k].deadline == next + k * cycles
    decreases k
  {
    var bs := Bursts(next, clock, cycles);
    BurstsAreChained(next, clock, cycles);
    if k > 0 {
      NoDrift(next, clock, cycles, k - 1);
      assert bs[(k - 1) + 1].deadline == NextDeadline(bs[k - 1].deadline, bs[k - 1].time, cycles);
      assert k * cycles == (k - 1) * cycles + cycles;
    }
  }

  // --- windows

  /** Number of bursts whose time lies in [from, from + width]. */
  function InWindow(bs: seq<Burst>, from: int, width: nat): (n: nat)
  {
    if bs == [] then 0
    else InWindow(bs[..|bs| - 1], from, width)
         + if from <= bs[|bs| - 1].time <= from + width then 1 else 0
  }

  predicate NonDecreasing(clock: seq<int>) {
    forall i, j :: 0 <= i < j < |clock| ==> clock[i] <= clock[j]
  }

  ghost predicate InTimeOrder(bs: seq<Burst>) {
    forall i, j :: 0 <= i < j < |bs| ==> bs[i].time <= bs[j].time
  }

  lemma {:induction false} BurstsFollowClock(next: int, clock: seq<int>, cycles: nat)
    requires NonDecreasing(clock)
    ensures InTimeOrder(Bursts(next, clock, cycles))
    ensures forall b :: b in Bursts(next, clock, cycles) ==> b.time in clock
    decreases |clock|
  {
    if clock != [] {
      var rest := if clock[0] >= next then NextDeadline(next, clock[0], cycles) else next;
      BurstsFollowClock(rest, clock[1..], cycles);
      var tail := Bursts(rest, clock[1..], cycles);
      forall b | b in tail
        ensures b.time in clock && clock[0] <= b.time
      {
        var k :| 0 <= k < |clock[1..]| && clock[1..][k] == b.time;
        assert clock[k + 1] == b.time;
      }
    }
  }

  /** In time order the bursts of a window are consecutive: the last one sits at least
      n - 1 places after the first. */
  lemma {:induction false} WindowSpan(bs: seq<Burst>, from: int, width: nat) returns (i: nat, j: nat)
    requires InTimeOrder(bs)
    requires InWindow(bs, from, width) > 0
    ensures i <= j < |bs| && j - i >= InWindow(bs, from, width) - 1
    ensures from <= bs[i].time && bs[j].time <= from + width
  {
    var last := |bs| - 1;
    var front := bs[..last];
    if from <= bs[last].time <= from + width {
      i, j := last, last;
      if InWindow(front, from, width) > 0 {
        var k;
        i, k := WindowSpan(front, from, width);
        assert bs[i] == front[i];
      }
    } else {
      i, j := WindowSpan(front, from, width);
      assert bs[i] == front[i] && bs[j] == front[j];
    }
  }

  lemma WindowSteps(next: int, clock: seq<int>, cycles: nat, from: int, width: nat)
    requires NonDecreasing(clock)
    requires InWindow(Bursts(next, clock, cycles), from, width) > 1
    ensures (InWindow(Bursts(next, clock, cycles), from, width) - 1) * cycles <= width + MAX_TX_LAG
  {
    var bs := Bursts(next, clock, cycles);
    BurstsFollowClock(next, clock, cycles);
    var i, j := WindowSpan(bs, from, width);
    BurstSpacing(next, clock, cycles, i, j);
    ScaleNat(InWindow(bs, from, width) - 1, j - i, cycles);
  }

  /** One queue: at most 1 + (W + lag) / C bursts in any window of W cycles. */
  lemma QueueWindowBound(next: int, clock: seq<int>, cycles: nat, from: int, width: nat)
    requires cycles > 0 && NonDecreasing(clock)
    ensures InWindow(Bursts(next, clock, cycles), from, width) <= 1 + (width + MAX_TX_LAG) / cycles
  {
    var n := InWindow(Bursts(next, clock, cycles), from, width);
    if n > 1 {
      WindowSteps(next, clock, cycles, from, width);
      AtMostQuotient(n - 1, cycles, width + MAX_TX_LAG);
    } else {
      AtMostQuotient(0, cycles, width + MAX_TX_LAG);
    }
  }

  // --- a port: several queues, each with its own clock readings and its own burst sizes

  /** What one queue did: the deadline it started from, the clock it read, and the packets it
      handed to the driver at each of its bursts (0 when the mempool or the counter failed it). */
  datatype QueueRun = QueueRun(start: int, clock: seq<int>, sent: seq<nat>)

  predicate OnePerBurst(q: QueueRun, cycles: nat) {
    |q.sent| == |Bursts(q.start, q.clock, cycles)|
  }

  ghost predicate RunOf(q: QueueRun, cycles: nat, burst: nat)
  {
    && NonDecreasing(q.clock)
    && OnePerBurst(q, cycles)
    && (forall k :: 0 <= k < |q.sent| ==> q.sent[k] <= burst)
  }

  function SentInWindow(bs: seq<Burst>, sent: seq<nat>, from: int, width: nat): (n: nat)
    requires |bs| == |sent|
  {
    if bs == [] then 0
    else var k := |bs| - 1;
         SentInWindow(bs[..k], sent[..k], from, width)
         + if from <= bs[k].time <= from + width then sent[k] else 0
  }

  function QueueSent(q: QueueRun, cycles: nat, from: int, width: nat): (n: nat)
    requires OnePerBurst(q, cycles)
  {
    SentInWindow(Bursts(q.start, q.clock, cycles), q.sent, from, width)
  }

  function PortSent(qs: seq<QueueRun>, cycles: nat, from: int, width: nat): (n: nat)
    requires forall q :: q in qs ==> OnePerBurst(q, cycles)
  {
    if qs == [] then 0
    else assert OnePerBurst(qs[0], cycles);
         PortSent(qs[1..], cycles, from, width) + QueueSent(qs[0], cycles, from, width)
  }

  lemma {:induction false} SentAtMostBurst(bs: seq<Burst>, sent: seq<nat>, from: int, width: nat, burst: nat)
    requires |bs| == |sent| && forall k :: 0 <= k < |sent| ==> sent[k] <= burst
    ensures SentInWindow(bs, sent, from, width) <= InWindow(bs, from, width) * burst
  {
    if bs != [] {
      var k := |bs| - 1;
      SentAtMostBurst(bs[..k], sent[..k], from, width, burst);
      var n := InWindow(bs[..k], from, width);
      assert (n + 1) * burst == n * burst + burst;
    }
  }

  lemma QueueSentBound(q: QueueRun, cycles: nat, burst: nat, from: int, width: nat)
    requires cycles > 0 && RunOf(q, cycles, burst)
    ensures QueueSent(q, cycles, from, width) <= burst * (1 + (width + MAX_TX_LAG) / cycles)
  {
    var bs := Bursts(q.start, q.clock, cycles);
    SentAtMostBurst(bs, q.sent, from, width, burst);
    QueueWindowBound(q.start, q.clock, cycles, from, width);
    ScaleNat(InWindow(bs, from, width), 1 + (width + MAX_TX_LAG) / cycles, burst);
  }

  lemma OneMoreStep(n: nat, c: nat)
    ensures (n + 1) * c == n * c + c
  {
  }

  lemma {:induction false} PortSentAtMost(qs: seq<QueueRun>, cycles: nat, from: int, width: nat, each: nat)
    requires forall q :: q in qs ==> OnePerBurst(q, cycles) && QueueSent(q, cycles, from, width) <= each
    ensures PortSent(qs, cycles, from, width) <= |qs| * each
  {
    if qs != [] {
      PortSentAtMost(qs[1..], cycles, from, width, each);
      assert OnePerBurst(qs[0], cycles);
      OneMoreStep(|qs[1..]|, each);
    }
  }

  /** Every queue of the port ran at the step `cycles` with bursts of at most `burst`. */
  ghost predicate PortRun(qs: seq<QueueRun>, cycles: nat, burst: nat)
    ensures PortRun(qs, cycles, burst) ==> forall q :: q in qs ==> OnePerBurst(q, cycles)
  {
    forall q :: q in qs ==> RunOf(q, cycles, burst)
  }

  /** The rate limiter's bound: every run of Q queues sends at most
      Q * B * (1 + (W + 20000) / C) paced packets in any W cycles. */
  lemma PortWindowBound(qs: seq<QueueRun>, cycles: nat, burst: nat, from: int, width: nat)
    requires cycles > 0 && PortRun(qs, cycles, burst)
    ensures PortSent(qs, cycles, from, width) <= |qs| * (burst * (1 + (width + MAX_TX_LAG) / cycles))
  {
    var each := burst * (1 + (width + MAX_TX_LAG) / cycles);
    forall q | q in qs
      ensures OnePerBurst(q, cycles) && QueueSent(q, cycles, from, width) <= each
    {
      QueueSentBound(q, cycles, burst, from, width);
    }
    PortSentAtMost(qs, cycles, from, width, each);
  }

  // --- and at least so much

  /** No burst of the queue was later than the allowance. */
  ghost predicate OnTime(next: int, clock: seq<int>, cycles: nat) {
    forall b :: b in Bursts(next, clock, cycles) ==> b.time - b.deadline <= MAX_TX_LAG
  }

  /** The rest of an on-time loop after its first burst. */
  lemma OnTimeRest(next: int, clock: seq<int>, cycles: nat)
    requires clock != [] && clock[0] >= next && OnTime(next, clock, cycles)
    ensures NextDeadline(next, clock[0], cycles) == next + cycles
    ensures OnTime(next + cycles, clock[1..], cycles)
    ensures |Bursts(next, clock, cycles)| == 1 + |Bursts(next + cycles, clock[1..], cycles)|
  {
    var bs := Bursts(next, clock, cycles);
    assert bs[0] == Burst(clock[0], next) && bs[0] in bs;
    assert bs == [bs[0]] + Bursts(next + cycles, clock[1..], cycles);
  }

  lemma {:induction false} FinalOnTime(next: int, clock: seq<int>, cycles: nat)
    requires OnTime(next, clock, cycles)
    ensures FinalDeadline(next, clock, cycles) == next + |Bursts(next, clock, cycles)| * cycles
    decreases |clock|
  {
    if clock != [] {
      if clock[0] >= next {
        OnTimeRest(next, clock, cycles);
        FinalOnTime(next + cycles, clock[1..], cycles);
        OneMoreStep(|Bursts(next + cycles, clock[1..], cycles)|, cycles);
      } else {
        FinalOnTime(next, clock[1..], cycles);
      }
    }
  }

  lemma {:induction false} InWindowAtLeast(bs: seq<Burst>, from: int, width: nat, i: nat, j: nat)
    requires i <= j <= |bs|
    requires forall k :: i <= k < j ==> from <= bs[k].time <= from + width
    ensures InWindow(bs, from, width) >= j - i
  {
    if bs != [] {
      var last := |bs| - 1;
      if j == |bs| && i < j {
        InWindowAtLeast(bs[..last], from, width, i, last);
      } else if j < |bs| {
        InWindowAtLeast(bs[..last], from, width, i, j);
      }
    }
  }

  /** The burst times of a queue that is never late beyond the allowance. */
  lemma OnTimeBurst(next: int, clock: seq<int>, cycles: nat, k: nat)
    requires OnTime(next, clock, cycles) && k < |Bursts(next, clock, cycles)|
    ensures var t := Bursts(next, clock, cycles)[k].time; next + k * cycles <= t <= next + k * cycles + MAX_TX_LAG
  {
    var bs := Bursts(next, clock, cycles);
    BurstsAreChained(next, clock, cycles);
    forall m | 0 <= m <= k ensures bs[m].time - bs[m].deadline <= MAX_TX_LAG {
      assert bs[m] in bs;
    }
    NoDrift(next, clock, cycles, k);
  }

  /** The queue was running from before the window on, and polled until past its last deadline. */
  ghost predicate Spans(next: int, clock: seq<int>, cycles: nat, from: int, width: nat) {
    next <= from && from + width < FinalDeadline(next, clock, cycles) + MAX_TX_LAG
  }

  lemma FirstMultiple(a: nat, c: nat) returns (k: nat)
    requires c > 0
    ensures a <= k * c < a + c
  {
    k := (a + c - 1) / c;
    assert a + c - 1 == c * k + (a + c - 1) % c;
  }

  /** The m multiples of c from the k-th on lie in [a, a + w]. */
  lemma MultipleInside(a: nat, w: nat, c: nat, k: nat, m: nat, i: nat)
    requires a <= k * c < a + c && m * c <= w && k <= i < k + m
    ensures a <= i * c <= a + w
  {
    ScaleNat(k, i, c);
    ScaleNat(i - k + 1, m, c);
    assert (i - k + 1) * c == i * c - k * c + c;
  }

  lemma MultiplesFit(a: nat, w: nat, c: nat, k: nat, m: nat, count: nat)
    requires c > 0 && a <= k * c < a + c && m * c <= w && a + w < count * c
    ensures k + m <= count
  {
    if m > 0 {
      MultipleInside(a, w, c, k, m, k + m - 1);
      MulMonoStrict(count - 1, k + m - 1, c);
    } else {
      MulMonoStrict(count, k, c);
    }
  }

  /** One queue: at least (W - lag) / C bursts in any window of W cycles that it ran through, if it
      was never late beyond the allowance. */
  lemma QueueWindowLower(next: int, clock: seq<int>, cycles: nat, from: int, width: nat)
    requires cycles > 0 && width >= MAX_TX_LAG
    requires OnTime(next, clock, cycles) && Spans(next, clock, cycles, from, width)
    ensures InWindow(Bursts(next, clock, cycles), from, width) >= (width - MAX_TX_LAG) / cycles
  {
    var bs, w := Bursts(next, clock, cycles), width - MAX_TX_LAG;
    var m := w / cycles;
    FinalOnTime(next, clock, cycles);
    QuotientFits(w, cycles);
    var k := FirstMultiple(from - next, cycles);
    MultiplesFit(from - next, w, cycles, k, m, |bs|);
    forall i | k <= i < k + m ensures from <= bs[i].time <= from + width {
      OnTimeBurst(next, clock, cycles, i);
      MultipleInside(from - next, w, cycles, k, m, i);
    }
    InWindowAtLeast(bs, from, width, k, k + m);
  }

  /** A queue that ran through the window on time and handed over full bursts. */
  ghost predicate FullRun(q: QueueRun, cycles: nat, burst: nat, from: int, width: nat) {
    && OnePerBurst(q, cycles) && (forall k :: 0 <= k < |q.sent| ==> q.sent[k] == burst)
    && OnTime(q.start, q.clock, cycles) && Spans(q.start, q.clock, cycles, from, width)
  }

  lemma {:induction false} SentFullBursts(bs: seq<Burst>, sent: seq<nat>, from: int, width: nat, burst: nat)
    requires |bs| == |sent| && forall k :: 0 <= k < |sent| ==> sent[k] == burst
    ensures SentInWindow(bs, sent, from, width) == InWindow(bs, from, width) * burst
  {
    if bs != [] {
      var k := |bs| - 1;
      SentFullBursts(bs[..k], sent[..k], from, width, burst);
      var n := InWindow(bs[..k], from, width);
      assert (n + 1) * burst == n * burst + burst;
    }
  }

  lemma {:induction false} PortSentAtLeast(qs: seq<QueueRun>, cycles: nat, from: int, width: nat, each: nat)
    requires forall q :: q in qs ==> OnePerBurst(q, cycles) && QueueSent(q, cycles, from, width) >= each
    ensures PortSent(qs, cycles, from, width) >= |qs| * each
  {
    if qs != [] {
      PortSentAtLeast(qs[1..], cycles, from, width, each);
      assert OnePerBurst(qs[0], cycles);
      OneMoreStep(|qs[1..]|, each);
    }
  }

  /** Every queue of the port ran through the window on time, with full bursts. */
  ghost predicate FullPortRun(qs: seq<QueueRun>, cycles: nat, burst: nat, from: int, width: nat)
    ensures FullPortRun(qs, cycles, burst, from, width) ==> forall q :: q in qs ==> OnePerBurst(q, cycles)
  {
    forall q :: q in qs ==> FullRun(q, cycles, burst, from, width)
  }

  /** A port on time with full bursts sends at least Q * B * ((W - 20000) / C) packets in the window. */
  lemma PortWindowLower(qs: seq<QueueRun>, cycles: nat, burst: nat, from: int, width: nat)
    requires cycles > 0 && width >= MAX_TX_LAG && FullPortRun(qs, cycles, burst, from, width)
    ensures PortSent(qs, cycles, from, width) >= |qs| * (burst * ((width - MAX_TX_LAG) / cycles))
  {
    var k := (width - MAX_TX_LAG) / cycles;
    forall q | q in qs
      ensures OnePerBurst(q, cycles) && QueueSent(q, cycles, from, width) >= burst * k
    {
      assert FullRun(q, cycles, burst, from, width);
      SentFullBursts(Bursts(q.start, q.clock, cycles), q.sent, from, width, burst);
      QueueWindowLower(q.start, q.clock, cycles, from, width);
      ScaleNat(k, InWindow(Bursts(q.start, q.clock, cycles), from, width), burst);
    }
    PortSentAtLeast(qs, cycles, from, width, burst * k);
  }

  // --- a second of transmission

  /** End to end, from the configured rate to the wire: with the step that pktgen_packet_rate
      derives for Q queues, any second of transmission sends at most tx_pps packets plus one
      burst per queue, the lag allowance, and the rounding of the step. */
  lemma OneSecondBound(qs: seq<QueueRun>, pps: nat, burst: nat, hz: nat, from: int, c: nat)
    requires pps > 0 && c > 0 && pps / 2 + |qs| * burst * hz < TWO_64
    requires c == StepFor(pps, |qs| * burst, hz)
    requires PortRun(qs, c, burst)
    ensures 2 * (PortSent(qs, c, from, hz) * c) <=
            2 * (c * (pps + |qs| * burst)) + 2 * (MAX_TX_LAG * (|qs| * burst)) + pps
  {
    PortWindowBound(qs, c, burst, from, hz);
    MulRegroup(|qs|, burst, 1 + (hz + MAX_TX_LAG) / c);
    QuotientFits(hz + MAX_TX_LAG, c);
    RoundBudget(|qs| * burst, hz, pps, c);
    OneSecondAlgebra(PortSent(qs, c, from, hz), |qs| * burst, (hz + MAX_TX_LAG) / c, c, hz, pps);
  }

  /** `n` packets are one burst of every queue. */
  lemma RoundBudget(n: nat, hz: nat, pps: nat, c: nat)
    requires pps > 0 && pps / 2 + n * hz < TWO_64 && c == StepFor(pps, n, hz)
    ensures 2 * (n * hz) <= 2 * (c * pps) + pps && 2 * (c * pps) <= 2 * (n * hz) + pps
  {
    StepBudget(n * hz, pps, c);
  }

  /** The same allowances below: all queues together send tx_pps packets a second, not tx_pps each,
      if they are on time and hand over full bursts. */
  lemma OneSecondLower(qs: seq<QueueRun>, pps: nat, burst: nat, hz: nat, from: int, c: nat)
    requires pps > 0 && c > 0 && pps / 2 + |qs| * burst * hz < TWO_64
    requires c == StepFor(pps, |qs| * burst, hz)
    requires FullPortRun(qs, c, burst, from, hz)
    ensures 2 * (c * pps) <=
            2 * (c * (PortSent(qs, c, from, hz) + |qs| * burst)) + 2 * (MAX_TX_LAG * (|qs| * burst)) + pps
  {
    if hz >= MAX_TX_LAG {
      RoundsSent(qs, burst, hz, from, c);
    }
    LowerInRounds(PortSent(qs, c, from, hz), |qs| * burst, c, hz, pps);
  }

  lemma LowerInRounds(s: nat, n: nat, c: nat, hz: nat, pps: nat)
    requires c > 0 && pps > 0 && pps / 2 + n * hz < TWO_64 && c == StepFor(pps, n, hz)
    requires hz >= MAX_TX_LAG ==> s >= n * ((hz - MAX_TX_LAG) / c)
    ensures 2 * (c * pps) <= 2 * (c * (s + n)) + 2 * (MAX_TX_LAG * n) + pps
  {
    RoundBudget(n, hz, pps, c);
    if hz < MAX_TX_LAG {
      ShortSecond(s, n, c, hz, pps);
    } else {
      RoundsAreEnough(s, n, c, hz, pps);
    }
  }

  lemma ShortSecond(s: nat, n: nat, c: nat, hz: nat, pps: nat)
    requires hz < MAX_TX_LAG && 2 * (c * pps) <= 2 * (n * hz) + pps
    ensures 2 * (c * pps) <= 2 * (c * (s + n)) + 2 * (MAX_TX_LAG * n) + pps
  {
    ScaleNat(hz, MAX_TX_LAG, n);
  }

  lemma RoundsSent(qs: seq<QueueRun>, burst: nat, hz: nat, from: int, c: nat)
    requires c > 0 && hz >= MAX_TX_LAG && FullPortRun(qs, c, burst, from, hz)
    ensures PortSent(qs, c, from, hz) >= |qs| * burst * ((hz - MAX_TX_LAG) / c)
  {
    PortWindowLower(qs, c, burst, from, hz);
    MulRegroup(|qs|, burst, (hz - MAX_TX_LAG) / c);
  }

  lemma QuotientShort(total: nat, c: nat)
    requires c > 0
    ensures total < total / c * c + c
  {
  }

  lemma RoundsAreEnough(s: nat, n: nat, c: nat, hz: nat, pps: nat)
    requires c > 0 && hz >= MAX_TX_LAG && s >= n * ((hz - MAX_TX_LAG) / c)
    requires 2 * (c * pps) <= 2 * (n * hz) + pps
    ensures 2 * (c * pps) <= 2 * (c * (s + n)) + 2 * (MAX_TX_LAG * n) + pps
  {
    var k := (hz - MAX_TX_LAG) / c;
    QuotientShort(hz - MAX_TX_LAG, c);
    LowerAlgebra(s, n, k, c, hz, pps);
  }

  lemma LowerAlgebra(s: nat, n: nat, k: nat, c: nat, hz: nat, pps: nat)
    requires s >= n * k && hz < k * c + c + MAX_TX_LAG
    requires 2 * (c * pps) <= 2 * (n * hz) + pps
    ensures 2 * (c * pps) <= 2 * (c * (s + n)) + 2 * (MAX_TX_LAG * n) + pps
  {
    ScaleNat(n * k, s, c);
    ScaleNat(hz, k * c + c + MAX_TX_LAG, n);
    assert n * (k * c + c + MAX_TX_LAG) == n * k * c + n * c + MAX_TX_LAG * n;
    assert c * (s + n) == c * s + n * c;
  }

  /** What a second of transmission may take beyond the rate, in packet cycles, doubled. */
  function Allowance(c: nat, round: nat, pps: nat): nat {
    2 * (c * round) + 2 * (MAX_TX_LAG * round) + pps
  }

  /** `sent` packets of `bits` bits each take at most `share` bits, and the allowance; both sides are
      times 2 * c. */
  predicate WithinShare(sent: nat, c: nat, bits: nat, share: real, allowance: nat) {
    (2 * (sent * c) * bits) as real <= (2 * c) as real * share + (allowance * bits) as real
  }

  /** In bits of the link: with the rate and step that pktgen_packet_rate derived, unless the rate
      was forced up to 1, the packets of any second, a hundredfold and times Q, take at most
      the configured percentage of the link's bits, and the allowance. */
  lemma OneSecondOfLink(port: RatePort, qs: seq<QueueRun>, hz: nat, from: int)
    requires qs != [] && port.txRate >= 0.0 && port.Derived(|qs|, hz) && port.ExactPps(|qs|) >= 1.0
    requires port.txCycles > 0 && port.txPps / 2 + |qs| * port.txBurst * hz < TWO_64
    requires PortRun(qs, port.txCycles, port.txBurst)
    ensures var c, bits := port.txCycles, WireBits(port.traffic) * |qs| * 100;
      WithinShare(PortSent(qs, c, from, hz), c, bits, port.ShareBits(), Allowance(c, |qs| * port.txBurst, port.txPps))
  {
    DerivedRateIsWithinLink(port, |qs|, hz);
    OneSecondOfBits(qs, port.txPps, port.txBurst, hz, from, port.txCycles, WireBits(port.traffic),
                    port.ShareBits());
  }

  lemma OneSecondOfBits(qs: seq<QueueRun>, pps: nat, burst: nat, hz: nat, from: int, c: nat, wire: nat, share: real)
    requires pps > 0 && c > 0 && pps / 2 + |qs| * burst * hz < TWO_64
    requires c == StepFor(pps, |qs| * burst, hz)
    requires PortRun(qs, c, burst) && FitsShare(pps, wire, |qs|, share)
    ensures WithinShare(PortSent(qs, c, from, hz), c, wire * |qs| * 100, share, Allowance(c, |qs| * burst, pps))
  {
    OneSecondBound(qs, pps, burst, hz, from, c);
    OnTheLink(PortSent(qs, c, from, hz), c, wire, |qs|, pps, |qs| * burst, share);
  }

  lemma OnTheLink(s: nat, c: nat, wire: nat, q: nat, pps: nat, round: nat, share: real)
    requires 2 * (s * c) <= 2 * (c * (pps + round)) + 2 * (MAX_TX_LAG * round) + pps
    requires FitsShare(pps, wire, q, share)
    ensures WithinShare(s, c, wire * q * 100, share, Allowance(c, round, pps))
  {
    FourFactors(pps, wire, q);
    LinkAlgebra(s, c, wire * q * 100, pps, round, share);
  }

  lemma FourFactors(pps: nat, wire: nat, q: nat)
    ensures pps * wire * q * 100 == pps * (wire * q * 100)
  {
    MulRegroup(pps, wire, q);
    MulRegroup(pps, wire * q, 100);
  }

  lemma LinkAlgebra(s: nat, c: nat, bits: nat, pps: nat, round: nat, share: real)
    requires 2 * (s * c) <= 2 * (c * (pps + round)) + 2 * (MAX_TX_LAG * round) + pps
    requires (pps * bits) as real <= share
    ensures WithinShare(s, c, bits, share, Allowance(c, round, pps))
  {
    var more := Allowance(c, round, pps);
    assert c * (pps + round) == c * pps + c * round;
    ScaleNat(2 * (s * c), 2 * (c * pps) + more, bits);
    assert (2 * (c * pps) + more) * bits == 2 * c * (pps * bits) + more * bits;
    ScaleReal((pps * bits) as real, share, (2 * c) as real);
    assert (2 * c * (pps * bits)) as real == (pps * bits) as real * (2 * c) as real;
  }

  lemma QuotientFits(total: nat, c: nat)
    requires c > 0
    ensures total / c * c <= total
  {
  }

  /** The step is the exact cycle budget n of one round of bursts, up to half a packet's
      worth of rounding either way, unless the 64-bit product wrapped. */
  lemma StepBudget(n: nat, pps: nat, c: nat)
    requires pps > 0 && pps / 2 + n < TWO_64 && c == (pps / 2 + n) % TWO_64 / pps
    ensures 2 * n <= 2 * (c * pps) + pps && 2 * (c * pps) <= 2 * n + pps
  {
    DivModUnique(pps / 2 + n, TWO_64, 0, pps / 2 + n);
    RoundedDivision(n, pps);
  }

  lemma OneSecondAlgebra(s: nat, n: nat, k: nat, c: nat, hz: nat, pps: nat)
    requires s <= n * (1 + k) && k * c <= hz + MAX_TX_LAG
    requires 2 * (n * hz) <= 2 * (c * pps) + pps
    ensures 2 * (s * c) <= 2 * (c * (pps + n)) + 2 * (MAX_TX_LAG * n) + pps
  {
    ScaleNat(s, n * (1 + k), c);
    ScaleNat(k * c, hz + MAX_TX_LAG, n);
    assert n * (1 + k) * c == n * c + n * (k * c);
    assert n * (hz + MAX_TX_LAG) == n * hz + MAX_TX_LAG * n;
    assert c * (pps + n) == c * pps + n * c;
  }
}
