/** What a start of n packets comes to, from the first access of the start to the end of the run it
    begins, with workers of earlier runs still on their way; and the schedules, from a port that
    was never used, that reach each of the four ways it can go wrong (SEND_FOREVER left set is in
    TxStart, ForeverFlagCanBeLeftBehind). */
module TxOutcomes {
  import opened PortFlags
  import opened TxProtocol
  import opened TxRuns
  import opened TxStart

  /** `start` is the rest of a start, up to the access that sets SENDING_PACKETS, with any worker
      accesses in between; `run` is what the workers do after that access. */
  ghost predicate StartThenRun(s: State, start: seq<Step>, run: seq<Step>, burst: nat) {
    && StartSteps(start) && Legal(s, start, burst) && Run(s, start, burst).control.SettingSending?
    && WorkersOnly(run) && Legal(BegunBy(s, start, burst), run, burst)
  }

  /** The state in which SENDING_PACKETS has just been set. */
  ghost function BegunBy(s: State, start: seq<Step>, burst: nat): State
    requires Legal(s, start, burst) && Run(s, start, burst).control.SettingSending?
  {
    Next(Run(s, start, burst), SetSending, burst)
  }

  /** The run is counted: what the workers claimed in it and the counter add up to what it began
      with; a drained run made exactly ceil(m / burst) claims; and SENDING_PACKETS is cleared only
      at counter 0. */
  ghost predicate Counted(s: State, s': State, burst: nat)
    requires burst > 0
  {
    var m := s.count;
    && !Forever(s') && 0 <= s'.count
    && Total(s'.workers, Granted) - Total(s.workers, Granted) + s'.count == m
    && (s'.count == 0 ==> Total(s'.workers, Claims) - Total(s.workers, Claims) == (m + burst - 1) / burst)
    && (!Transmitting(s') ==> s'.count == 0)
  }

  /** However the start and the run interleave with the workers, the run is a counted one of the
      packets that late claimers left of the n it loaded: at most one burst each is missing. */
  ghost predicate AlwaysCountedRun(s: State, burst: nat)
    requires burst > 0
  {
    forall start: seq<Step>, run: seq<Step> :: StartThenRun(s, start, run, burst) ==>
      var begun := BegunBy(s, start, burst);
      && 0 < begun.count <= s.transmitCount
      && begun.count >= s.transmitCount - burst * Total(s.workers, Claimer)
      && Counted(begun, Run(begun, run, burst), burst)
  }

  // --- no worker comes to clear the new run's flag

  ghost predicate NoneClearing(s: State) {
    forall k :: 0 <= k < |s.workers| ==> !s.workers[k].pc.Clearing?
  }

  /** The claimers cannot drain the counter with one of them left to read it as 0. */
  ghost predicate NeverReadsZero(s: State, burst: nat) {
    Total(s.workers, Claimer) == 0 || (Total(s.workers, Claimer) - 1) * burst < s.count
  }

  lemma ClaimerCounts(ws: seq<Worker>, k: nat)
    requires k < |ws| && Claimer(ws[k]) == 1
    ensures Total(ws, Claimer) >= 1
  {
    TotalUpdate(ws, k, ws[k].(pc := Idle), Claimer);
    ClaimersNonNegative(ws[k := ws[k].(pc := Idle)]);
  }

  lemma OneFewer(t: int, t': int, count: int, count': int, burst: nat)
    requires burst > 0 && t >= 1 && t' == t - 1 && (t - 1) * burst < count
    requires count' == count - Share(count, burst)
    ensures t' == 0 || (t' - 1) * burst < count'
  {
    assert (t - 2) * burst == (t - 1) * burst - burst;
    if count <= burst {
      assert (t - 1) * burst < burst;
      if t >= 2 {
        ScaleUp(1, t - 1, burst);
        assert false;
      }
    }
  }

  /** A worker's access either changes neither the claimers nor the counter, or uses one claimer up
      and takes that claimer's share. */
  lemma WorkerShare(s: State, step: Step, burst: nat)
    requires burst > 0 && LedgerInv(s, burst) && !Transmitting(s) && !Forever(s)
    requires WorkerStep(step) && Enabled(s, step)
    ensures var s' := Next(s, step, burst);
      var t, t' := Total(s.workers, Claimer), Total(s'.workers, Claimer);
      || (t' == t && s'.count == s.count)
      || (t >= 1 && t' == t - 1 && s'.count == s.count - Share(s.count, burst))
  {
    var s', k := Next(s, step, burst), step.w;
    assert WorkerLedger(s.workers[k], burst);
    TotalUpdate(s.workers, k, s'.workers[k], Claimer);
    if Claimer(s.workers[k]) == 1 {
      ClaimerCounts(s.workers, k);
    }
  }

  /** A worker goes on to clear only from a counter read as 0. */
  lemma NobodyStartsClearing(s: State, step: Step, burst: nat)
    requires burst > 0 && LedgerInv(s, burst) && NoneClearing(s) && NeverReadsZero(s, burst)
    requires WorkerStep(step) && Enabled(s, step)
    ensures NoneClearing(Next(s, step, burst))
  {
    var k := step.w;
    assert WorkerLedger(s.workers[k], burst);
    if Claimer(s.workers[k]) == 1 {
      ClaimerCounts(s.workers, k);
      ScaleUp(0, Total(s.workers, Claimer) - 1, burst);
      assert s.count > 0;
    }
  }

  lemma CleanWorkerStep(s: State, step: Step, burst: nat)
    requires burst > 0 && LedgerInv(s, burst) && !Transmitting(s) && !Forever(s)
    requires NoneClearing(s) && NeverReadsZero(s, burst) && WorkerStep(step) && Enabled(s, step)
    ensures NoneClearing(Next(s, step, burst)) && NeverReadsZero(Next(s, step, burst), burst)
  {
    var s' := Next(s, step, burst);
    WorkerShare(s, step, burst);
    var t, t' := Total(s.workers, Claimer), Total(s'.workers, Claimer);
    if t' == t - 1 {
      OneFewer(t, t', s.count, s'.count, burst);
    }
    NobodyStartsClearing(s, step, burst);
  }

  lemma CleanStep(s: State, step: Step, n: int, stale: int, burst: nat)
    requires burst > 0 && stale * burst < n && StartInv(s, n, stale, burst)
    requires NoneClearing(s) && NeverReadsZero(s, burst)
    requires Enabled(s, step) && StartSteps([step])
    ensures NoneClearing(Next(s, step, burst)) && NeverReadsZero(Next(s, step, burst), burst)
  {
    assert [step][0] == step;
    if WorkerStep(step) {
      CleanWorkerStep(s, step, burst);
    } else {
      ClaimersNonNegative(s.workers);
      var t := Total(s.workers, Claimer);
      ScaleUp(t - 1, stale, burst);
    }
  }

  lemma {:induction false} CleanRun(s: State, steps: seq<Step>, n: int, stale: int, burst: nat)
    requires burst > 0 && stale * burst < n && StartInv(s, n, stale, burst)
    requires NoneClearing(s) && NeverReadsZero(s, burst)
    requires StartSteps(steps) && Legal(s, steps, burst)
    ensures NoneClearing(Run(s, steps, burst))
    decreases |steps|
  {
    if steps != [] {
      assert [steps[0]][0] == steps[0];
      StartStep(s, steps[0], n, stale, burst);
      CleanStep(s, steps[0], n, stale, burst);
      CleanRun(Next(s, steps[0], burst), steps[1..], n, stale, burst);
    }
  }

  lemma LeftBySome(n: int, stale: int, t: int, count: int, burst: nat)
    requires 0 <= t <= stale && stale * burst < n && count >= n - burst * (stale - t)
    ensures count > 0 && count >= n - burst * stale
  {
    ScaleUp(stale - t, stale, burst);
  }

  /** What is left at the access that sets SENDING_PACKETS. */
  lemma CleanStartLeaves(s: State, start: seq<Step>, n: int, stale: int, burst: nat)
    requires burst > 0 && stale * burst < n && StartInv(s, n, stale, burst)
    requires NoneClearing(s) && NeverReadsZero(s, burst)
    requires StartSteps(start) && Legal(s, start, burst) && Run(s, start, burst).control.SettingSending?
    ensures var begun := BegunBy(s, start, burst);
      && begun.count <= n && begun.count >= n - burst * stale && CountedStart(begun, begun.count, burst)
  {
    StartRun(s, start, n, stale, burst);
    CleanRun(s, start, n, stale, burst);
    var s1 := Run(s, start, burst);
    ClaimersNonNegative(s1.workers);
    LeftBySome(n, stale, Total(s1.workers, Claimer), s1.count, burst);
    LedgerStep(s1, SetSending, burst);
  }

  lemma BegunIsCounted(begun: State, run: seq<Step>, burst: nat)
    requires burst > 0 && CountedStart(begun, begun.count, burst)
    requires WorkersOnly(run) && Legal(begun, run, burst)
    ensures Counted(begun, Run(begun, run, burst), burst)
  {
    CountedRun(begun, run, begun.count, burst);
  }

  /** What is left at the access that sets SENDING_PACKETS, and what the run then claims. */
  lemma CleanStartCounts(s: State, start: seq<Step>, run: seq<Step>, burst: nat)
    requires burst > 0 && LedgerInv(s, burst) && s.control.Loading? && !Transmitting(s) && s.transmitCount > 0
    requires !Forever(s) && Total(s.workers, Claimer) * burst < s.transmitCount
    requires NoneClearing(s) && NeverReadsZero(s, burst)
    requires StartThenRun(s, start, run, burst)
    ensures var begun := BegunBy(s, start, burst);
      && 0 < begun.count <= s.transmitCount
      && begun.count >= s.transmitCount - burst * Total(s.workers, Claimer)
      && Counted(begun, Run(begun, run, burst), burst)
  {
    CleanStartLeaves(s, start, s.transmitCount, Total(s.workers, Claimer), burst);
    BegunIsCounted(BegunBy(s, start, burst), run, burst);
  }

  // --- the ways it fails

  /** Nobody but the control thread moves: the run begins with the workers where they are. */
  lemma StartUndisturbed(s: State, burst: nat) returns (start: seq<Step>)
    requires s.control.Loading? && s.transmitCount > 0
    ensures StartSteps(start) && Legal(s, start, burst) && Run(s, start, burst).control.SettingSending?
    ensures Run(s, start, burst).workers == s.workers && Run(s, start, burst).count == s.transmitCount
  {
    OneStep(s, LoadCount, burst);
    var finish := FinishStart(Next(s, LoadCount, burst), burst);
    Then(s, [LoadCount], finish, burst);
    start := [LoadCount] + finish;
  }

  /** A claimer that finds the counter at 0 goes on to clear SENDING_PACKETS. */
  lemma ReachesClearing(s: State, burst: nat, k: nat) returns (steps: seq<Step>)
    requires LedgerInv(s, burst) && !Forever(s) && s.count == 0
    requires k < |s.workers| && Claimer(s.workers[k]) == 1
    ensures StartSteps(steps) && Legal(s, steps, burst)
    ensures Run(s, steps, burst) == s.(workers := Run(s, steps, burst).workers)
    ensures Run(s, steps, burst).workers[k].pc.Clearing?
  {
    assert WorkerLedger(s.workers[k], burst);
    steps := [];
    if s.workers[k].pc.SawSending? {
      Append(s, steps, TestForever(k), burst);
      steps := steps + [TestForever(k)];
    } else if s.workers[k].pc.HasCount? {
      Append(s, steps, CasCount(k), burst);
      steps := steps + [CasCount(k)];
    }
    Append(s, steps, ReadCount(k), burst);
    steps := steps + [ReadCount(k)];
  }

  /** Before the counter is loaded, some schedule leaves a worker about to clear the flag. */
  lemma SomeoneClears(s: State, burst: nat) returns (steps: seq<Step>, k: nat)
    requires burst > 0 && LedgerInv(s, burst) && !Forever(s)
    requires !NoneClearing(s) || !NeverReadsZero(s, burst)
    ensures StartSteps(steps) && Legal(s, steps, burst)
    ensures var s' := Run(s, steps, burst);
      && s' == s.(count := s'.count, workers := s'.workers)
      && k < |s'.workers| && s'.workers[k].pc.Clearing?
  {
    if !NoneClearing(s) {
      k :| 0 <= k < |s.workers| && s.workers[k].pc.Clearing?;
      steps := [];
    } else {
      ClaimersNonNegative(s.workers);
      var drain := Drain(s, burst, 1);
      var s1 := Run(s, drain, burst);
      ClaimersNonNegative(s1.workers);
      k :| 0 <= k < |s1.workers| && Claimer(s1.workers[k]) == 1;
      var rest := ReachesClearing(s1, burst, k);
      Then(s, drain, rest, burst);
      steps := drain + rest;
    }
  }

  lemma NotCountedWhenCleared(s: State, burst: nat) returns (start: seq<Step>, run: seq<Step>)
    requires burst > 0 && LedgerInv(s, burst) && s.control.Loading? && !Transmitting(s) && s.transmitCount > 0
    requires !Forever(s) && (!NoneClearing(s) || !NeverReadsZero(s, burst))
    ensures StartThenRun(s, start, run, burst)
    ensures !Counted(BegunBy(s, start, burst), Run(BegunBy(s, start, burst), run, burst), burst)
  {
    var first, k := SomeoneClears(s, burst);
    var s1 := Run(s, first, burst);
    var rest := StartUndisturbed(s1, burst);
    Then(s, first, rest, burst);
    start := first + rest;
    var begun := BegunBy(s, start, burst);
    assert begun.workers[k].pc.Clearing? && begun.count == s.transmitCount;
    OneStep(begun, ClearSending(k), burst);
    run := [ClearSending(k)];
  }

  /** A start of n > 0 packets begins a counted run in every interleaving, missing at most one
      burst for each worker of an earlier run that was still claiming, if and only if: SEND_FOREVER
      was clear; those claimers cannot take all n packets; no worker was about to clear
      SENDING_PACKETS; and the claimers cannot drain what the earlier run left in the counter with
      one of them left to read it as 0. */
  lemma StartedRunIsCountedIff(s: State, burst: nat)
    requires burst > 0 && LedgerInv(s, burst) && s.control.Loading? && !Transmitting(s) && s.transmitCount > 0
    ensures AlwaysCountedRun(s, burst) <==>
      && !Forever(s) && Total(s.workers, Claimer) * burst < s.transmitCount
      && NoneClearing(s) && NeverReadsZero(s, burst)
  {
    if Forever(s) || Total(s.workers, Claimer) * burst >= s.transmitCount {
      var start := NotAlwaysCounted(s, burst);
      assert Legal(BegunBy(s, start, burst), [], burst);
      assert StartThenRun(s, start, [], burst);
    } else if !NoneClearing(s) || !NeverReadsZero(s, burst) {
      var start, run := NotCountedWhenCleared(s, burst);
      assert !AlwaysCountedRun(s, burst);
    } else {
      forall start: seq<Step>, run: seq<Step> | StartThenRun(s, start, run, burst)
        ensures var begun := BegunBy(s, start, burst);
          && 0 < begun.count <= s.transmitCount
          && begun.count >= s.transmitCount - burst * Total(s.workers, Claimer)
          && Counted(begun, Run(begun, run, burst), burst)
      {
        CleanStartCounts(s, start, run, burst);
      }
    }
  }

  // --- reaching them from a port that was never used

  /** The state after `steps` from an unused port. */
  ghost predicate Reached(s0: State, steps: seq<Step>, s: State, burst: nat) {
    Init(s0) && Legal(s0, steps, burst) && s == Run(s0, steps, burst)
  }

  /** A run of n packets that ends with all n of them still in the counter: worker 0's clear for
      the run before it comes after the start. */
  lemma EndsEarlyFromInit(s0: State, n: nat, burst: nat) returns (steps: seq<Step>, s: State)
    requires Init(s0) && |s0.workers| > 0 && s0.transmitCount == 0 && n > 0 && burst > 0
    ensures Reached(s0, steps, s, burst)
    ensures !Transmitting(s) && !Forever(s) && s.count == s.load == n
  {
    assert Fresh(s0.workers[0]);
    steps := LeavesAWorkerClearing(s0, burst);
    Append(s0, steps, SetTxCount(n), burst);
    steps := steps + [SetTxCount(n)];
    var begin := WholeStart(Run(s0, steps, burst), burst);
    Then(s0, steps, begin, burst);
    steps := steps + begin;
    Append(s0, steps, ClearSending(0), burst);
    steps := steps + [ClearSending(0)];
    s := Run(s0, steps, burst);
  }

  /** A start of n packets, n no more than one burst, that some schedule makes a forever run:
      worker 0 is still claiming for the run before it. */
  lemma LateClaimerFromInit(s0: State, n: nat, burst: nat) returns (steps: seq<Step>, s: State)
    requires Init(s0) && |s0.workers| > 0 && s0.transmitCount == 0 && 0 < n <= burst
    ensures Reached(s0, steps, s, burst)
    ensures LedgerInv(s, burst) && s.control.Loading? && !Transmitting(s) && !Forever(s) && s.transmitCount == n
    ensures Total(s.workers, Claimer) * burst >= n && !AlwaysCounts(s, burst)
  {
    assert Fresh(s0.workers[0]);
    steps := [SetTxCount(n)];
    OneStep(s0, SetTxCount(n), burst);
    var begin := WholeStart(Run(s0, steps, burst), burst);
    Then(s0, steps, begin, burst);
    steps := steps + begin;
    Append(s0, steps, TestSending(0), burst);
    steps := steps + [TestSending(0)];
    Append(s0, steps, Stop, burst);
    steps := steps + [Stop];
    Append(s0, steps, ClearFlags, burst);
    steps := steps + [ClearFlags];
    Append(s0, steps, Start, burst);
    steps := steps + [Start];
    s := Run(s0, steps, burst);
    InitIsOrdered(s0, burst);
    LedgerRun(s0, steps, burst);
    ClaimerCounts(s.workers, 0);
    ScaleUp(1, Total(s.workers, Claimer), burst);
    StartCountsIff(s, burst);
  }

  /** A forever run is stopped while worker 0 is past the SENDING_PACKETS test, and a start of n
      packets begins. */
  lemma RestartPastAWorker(s0: State, n: nat, burst: nat) returns (steps: seq<Step>)
    requires Init(s0) && |s0.workers| > 0 && s0.transmitCount == 0
    ensures Legal(s0, steps, burst)
    ensures var s := Run(s0, steps, burst);
      && s.control.Loading? && !Transmitting(s) && !Forever(s) && s.transmitCount == n && s.count == 0
      && s.workers == s0.workers[0 := s0.workers[0].(pc := SawSending)]
  {
    assert Fresh(s0.workers[0]);
    steps := WholeStart(s0, burst);
    Append(s0, steps, TestSending(0), burst);
    steps := steps + [TestSending(0)];
    Append(s0, steps, Stop, burst);
    steps := steps + [Stop];
    Append(s0, steps, ClearFlags, burst);
    steps := steps + [ClearFlags];
    Append(s0, steps, SetTxCount(n), burst);
    steps := steps + [SetTxCount(n)];
    Append(s0, steps, Start, burst);
    steps := steps + [Start];
  }

  /** A start of n packets, more than one burst, that fails in the fourth way: worker 0 is still
      claiming for a forever run before it, alone, and the counter of that run is 0. */
  lemma ZeroReaderFromInit(s0: State, n: nat, burst: nat) returns (steps: seq<Step>, s: State)
    requires Init(s0) && |s0.workers| > 0 && s0.transmitCount == 0 && n > burst > 0
    ensures Reached(s0, steps, s, burst)
    ensures LedgerInv(s, burst) && s.control.Loading? && !Transmitting(s) && !Forever(s) && s.transmitCount == n
    ensures Total(s.workers, Claimer) * burst < n && NoneClearing(s) && !NeverReadsZero(s, burst)
    ensures AlwaysCounts(s, burst) && !AlwaysCountedRun(s, burst)
  {
    steps := RestartPastAWorker(s0, n, burst);
    s := Run(s0, steps, burst);
    InitIsOrdered(s0, burst);
    LedgerRun(s0, steps, burst);
    OneClaimer(s0.workers, s.workers);
    assert NoneClearing(s) by {
      assert forall k :: 0 <= k < |s0.workers| ==> Fresh(s0.workers[k]);
    }
    StartCountsIff(s, burst);
    StartedRunIsCountedIff(s, burst);
  }

  lemma OneClaimer(ws: seq<Worker>, ws': seq<Worker>)
    requires |ws| > 0 && (forall k :: 0 <= k < |ws| ==> Fresh(ws[k]))
    requires ws' == ws[0 := ws[0].(pc := SawSending)]
    ensures Total(ws', Claimer) == 1
  {
    TotalZero(ws, Claimer);
    TotalUpdate(ws, 0, ws'[0], Claimer);
  }

  /** A forever run, stopped, with a worker that still claims and sends: SEND_FOREVER was left set
      and the run's counter is not empty. */
  lemma StoppedForeverRunStillClaims(s0: State, n: nat, burst: nat) returns (steps: seq<Step>, s: State)
    requires Init(s0) && |s0.workers| > 0 && s0.transmitCount == 0 && n > 0 && burst > 0
    ensures Reached(s0, steps, s, burst)
    ensures LedgerInv(s, burst) && !Transmitting(s) && !Forever(s) && s.count == n
    ensures |s.workers| > 0 && s.workers[0].pc.SawSending? && !StopsAtOnce(s, burst, 0)
  {
    steps := ForeverFlagCanBeLeftBehind(s0, n, burst);
    Append(s0, steps, TestSending(0), burst);
    steps := steps + [TestSending(0)];
    Append(s0, steps, Stop, burst);
    steps := steps + [Stop];
    Append(s0, steps, ClearFlags, burst);
    steps := steps + [ClearFlags];
    s := Run(s0, steps, burst);
    InitIsOrdered(s0, burst);
    LedgerRun(s0, steps, burst);
    ForeverStopsAtOnceIff(s, burst, 0);
  }
}
