/** When a start that asks for a number of packets really begins a counted run, although workers
    of an earlier run may still be claiming (pktgen_start_transmitting of app/pktgen-cmds.c). */
module TxStart {
  import opened PortFlags
  import opened TxProtocol

  /** Past the SENDING_PACKETS test and still able to claim from the counter. */
  function Claimer(w: Worker): int {
    if w.pc.SawSending? || w.pc.Claiming? || w.pc.HasCount? then 1 else 0
  }

  lemma {:induction false} ClaimersNonNegative(ws: seq<Worker>)
    ensures Total(ws, Claimer) >= 0
    ensures Total(ws, Claimer) > 0 ==> exists k :: 0 <= k < |ws| && Claimer(ws[k]) == 1
  {
    if ws != [] {
      ClaimersNonNegative(ws[..|ws| - 1]);
    }
  }

  /** The steps of one start up to, not including, the one that sets SENDING_PACKETS. */
  ghost predicate StartSteps(steps: seq<Step>) {
    forall k :: 0 <= k < |steps| ==>
      WorkerStep(steps[k]) || steps[k].LoadCount? || steps[k].CheckCount? || steps[k].SetForever? ||
      steps[k].SetSetup? || steps[k].BuildPackets?
  }

  /** Every interleaving of this start with the workers ends, just before SENDING_PACKETS is
      set, with SEND_FOREVER clear. */
  ghost predicate AlwaysCounts(s: State, burst: nat) {
    forall steps: seq<Step> ::
      StartSteps(steps) && Legal(s, steps, burst) && Run(s, steps, burst).control.SettingSending?
      ==> !Forever(Run(s, steps, burst))
  }

  // --- enough packets: the stale claimers cannot empty the counter before it is read back

  /** Of `stale` claimers at the start, those that are gone took at most one burst each from the
      counter once it was loaded. */
  ghost predicate StartInv(s: State, n: int, stale: int, burst: nat) {
    && LedgerInv(s, burst) && !Transmitting(s) && !Forever(s) && s.transmitCount == n
    && Total(s.workers, Claimer) <= stale
    && (!s.control.Loading? ==> s.load == n && s.count >= n - burst * (stale - Total(s.workers, Claimer)))
    && (s.control.Loading? || s.control.Checking? || s.control.SettingUp? || s.control.Building?
        || s.control.SettingSending?)
  }

  /** A worker's access takes from the counter at most one burst per claimer it uses up. */
  lemma WorkerTakes(s: State, step: Step, burst: nat)
    requires burst > 0 && LedgerInv(s, burst) && !Transmitting(s) && !Forever(s)
    requires WorkerStep(step) && Enabled(s, step)
    ensures var s' := Next(s, step, burst);
      var used := Total(s.workers, Claimer) - Total(s'.workers, Claimer);
      && ((used == 0 && s'.count == s.count) || (used == 1 && s'.count >= s.count - burst))
      && !Transmitting(s') && !Forever(s') && s'.transmitCount == s.transmitCount
  {
    var s' := Next(s, step, burst);
    assert WorkerLedger(s.workers[step.w], burst);
    TotalUpdate(s.workers, step.w, s'.workers[step.w], Claimer);
  }

  lemma StartStep(s: State, step: Step, n: int, stale: int, burst: nat)
    requires burst > 0 && stale * burst < n && StartInv(s, n, stale, burst)
    requires Enabled(s, step) && StartSteps([step])
    ensures StartInv(Next(s, step, burst), n, stale, burst)
  {
    assert [step][0] == step;
    LedgerStep(s, step, burst);
    var t := Total(s.workers, Claimer);
    ClaimersNonNegative(s.workers);
    if WorkerStep(step) {
      WorkerTakes(s, step, burst);
      assert burst * (stale - (t - 1)) == burst * (stale - t) + burst;
    } else {
      ScaleUp(stale - t, stale, burst);
      ScaleUp(0, stale - t, burst);
    }
  }

  lemma ScaleUp(a: int, b: int, burst: nat)
    requires a <= b
    ensures burst * a <= burst * b && burst * b == b * burst && burst * a == a * burst
  {
  }

  lemma {:induction false} StartRun(s: State, steps: seq<Step>, n: int, stale: int, burst: nat)
    requires burst > 0 && stale * burst < n && StartInv(s, n, stale, burst)
    requires StartSteps(steps) && Legal(s, steps, burst)
    ensures StartInv(Run(s, steps, burst), n, stale, burst)
    decreases |steps|
  {
    if steps != [] {
      assert [steps[0]][0] == steps[0];
      StartStep(s, steps[0], n, stale, burst);
      StartRun(Next(s, steps[0], burst), steps[1..], n, stale, burst);
    }
  }

  // --- too few packets: a schedule that empties the counter in time

  /** How many more accesses worker k needs before its claim goes through undisturbed. */
  function StepsToClaim(s: State, pc: WorkerPc): nat {
    if pc.SawSending? then 3
    else if pc.Claiming? then 2
    else if pc.HasCount? then (if pc.c == s.count then 1 else 4)
    else 0
  }

  /** One access of a claimer: the claim itself, or one access nearer to it. */
  lemma ClaimerMoves(s: State, k: nat, burst: nat) returns (step: Step)
    requires burst > 0 && LedgerInv(s, burst) && !Forever(s) && s.count > 0
    requires k < |s.workers| && Claimer(s.workers[k]) == 1
    ensures WorkerStep(step) && Enabled(s, step)
    ensures var s1 := Next(s, step, burst);
      var t, t1 := Total(s.workers, Claimer), Total(s1.workers, Claimer);
      && LedgerInv(s1, burst) && s1 == s.(count := s1.count, workers := s1.workers)
      && if s1.count == s.count then
           t1 == t && Claimer(s1.workers[k]) == 1
           && StepsToClaim(s1, s1.workers[k].pc) < StepsToClaim(s, s.workers[k].pc)
         else t1 == t - 1 && s1.count == s.count - Share(s.count, burst)
  {
    var pc := s.workers[k].pc;
    step := if pc.SawSending? then TestForever(k) else if pc.Claiming? then ReadCount(k) else CasCount(k);
    assert WorkerLedger(s.workers[k], burst);
    LedgerStep(s, step, burst);
    TotalUpdate(s.workers, k, Next(s, step, burst).workers[k], Claimer);
  }

  /** A claimer left to itself takes one burst, or what is left. */
  lemma {:induction false} ClaimAlone(s: State, k: nat, burst: nat) returns (steps: seq<Step>)
    requires burst > 0 && LedgerInv(s, burst) && !Forever(s) && s.count > 0
    requires k < |s.workers| && Claimer(s.workers[k]) == 1
    ensures StartSteps(steps) && Legal(s, steps, burst)
    ensures var s' := Run(s, steps, burst);
      && s' == s.(count := s.count - Share(s.count, burst), workers := s'.workers)
      && LedgerInv(s', burst)
      && Total(s'.workers, Claimer) == Total(s.workers, Claimer) - 1
    decreases StepsToClaim(s, s.workers[k].pc)
  {
    var step := ClaimerMoves(s, k, burst);
    OneStep(s, step, burst);
    var s1 := Next(s, step, burst);
    steps := [step];
    if s1.count == s.count {
      var rest := ClaimAlone(s1, k, burst);
      Then(s, [step], rest, burst);
      steps := [step] + rest;
    }
  }

  lemma OneClaimLess(t: int, count: int, burst: nat)
    requires burst > 0 && t >= 0 && 0 < count <= t * burst
    ensures t > 0 && count - Share(count, burst) <= (t - 1) * burst
  {
    assert t == 0 ==> t * burst == 0;
    ScaleUp(0, t - 1, burst);
    assert (t - 1) * burst == t * burst - burst;
  }

  /** The claimers can empty the counter, and leave `spare` of them unused, when the others
      together can take all of it. */
  lemma {:induction false} Drain(s: State, burst: nat, spare: nat) returns (steps: seq<Step>)
    requires burst > 0 && LedgerInv(s, burst) && !Forever(s)
    requires Total(s.workers, Claimer) >= spare
    requires s.count <= (Total(s.workers, Claimer) - spare) * burst
    ensures StartSteps(steps) && Legal(s, steps, burst)
    ensures Run(s, steps, burst) == s.(count := 0, workers := Run(s, steps, burst).workers)
    ensures LedgerInv(Run(s, steps, burst), burst) && Total(Run(s, steps, burst).workers, Claimer) >= spare
    decreases s.count
  {
    if s.count == 0 {
      steps := [];
    } else {
      ClaimersNonNegative(s.workers);
      var t := Total(s.workers, Claimer);
      OneClaimLess(t - spare, s.count, burst);
      var k :| 0 <= k < |s.workers| && Claimer(s.workers[k]) == 1;
      var first := ClaimAlone(s, k, burst);
      var s1 := Run(s, first, burst);
      var rest := Drain(s1, burst, spare);
      Then(s, first, rest, burst);
      steps := first + rest;
    }
  }

  /** The control thread's own steps from `Checking` to `SettingSending`. */
  lemma FinishStart(s: State, burst: nat) returns (steps: seq<Step>)
    requires s.control.Checking?
    ensures StartSteps(steps) && Legal(s, steps, burst)
    ensures Run(s, steps, burst).control.SettingSending?
    ensures Forever(Run(s, steps, burst)) <==> Forever(s) || s.count == 0
    ensures Run(s, steps, burst) == s.(control := SettingSending, flags := Run(s, steps, burst).flags)
    ensures Run(s, steps, burst).flags - {SendForever, SetupTransmitPkts} == s.flags - {SendForever, SetupTransmitPkts}
  {
    OneStep(s, CheckCount, burst);
    var s1 := Next(s, CheckCount, burst);
    steps := [CheckCount];
    if s.count == 0 {
      OneStep(s1, SetForever, burst);
      Then(s, steps, [SetForever], burst);
      steps := steps + [SetForever];
      s1 := Next(s1, SetForever, burst);
    }
    OneStep(s1, SetSetup, burst);
    Then(s, steps, [SetSetup], burst);
    var s2 := Next(s1, SetSetup, burst);
    OneStep(s2, BuildPackets, burst);
    Then(s, steps + [SetSetup], [BuildPackets], burst);
    steps := steps + [SetSetup] + [BuildPackets];
  }

  lemma NotAlwaysCounted(s: State, burst: nat) returns (steps: seq<Step>)
    requires burst > 0 && LedgerInv(s, burst) && s.control.Loading? && !Transmitting(s) && s.transmitCount > 0
    requires Forever(s) || Total(s.workers, Claimer) * burst >= s.transmitCount
    ensures StartSteps(steps) && Legal(s, steps, burst)
    ensures Run(s, steps, burst).control.SettingSending? && Forever(Run(s, steps, burst))
  {
    OneStep(s, LoadCount, burst);
    LedgerStep(s, LoadCount, burst);
    var s1 := Next(s, LoadCount, burst);
    var drain := [];
    if !Forever(s) {
      drain := Drain(s1, burst, 0);
    }
    var s2 := Run(s1, drain, burst);
    var finish := FinishStart(s2, burst);
    Then(s1, drain, finish, burst);
    Then(s, [LoadCount], drain + finish, burst);
    steps := [LoadCount] + (drain + finish);
  }

  /** A start of n > 0 packets sets SENDING_PACKETS with SEND_FOREVER clear in every interleaving
      if and only if SEND_FOREVER was clear and the workers still past an earlier SENDING_PACKETS
      test cannot take all n packets, one burst each, before the counter is read back. */
  lemma StartCountsIff(s: State, burst: nat)
    requires burst > 0 && LedgerInv(s, burst) && s.control.Loading? && !Transmitting(s) && s.transmitCount > 0
    ensures AlwaysCounts(s, burst) <==> !Forever(s) && Total(s.workers, Claimer) * burst < s.transmitCount
  {
    if !Forever(s) && Total(s.workers, Claimer) * burst < s.transmitCount {
      forall steps: seq<Step> |
        StartSteps(steps) && Legal(s, steps, burst) && Run(s, steps, burst).control.SettingSending?
        ensures !Forever(Run(s, steps, burst))
      {
        StartRun(s, steps, s.transmitCount, Total(s.workers, Claimer), burst);
      }
    } else {
      var steps := NotAlwaysCounted(s, burst);
      assert !AlwaysCounts(s, burst);
    }
  }

  // --- a flag left behind

  /** A whole start from `Ready`, undisturbed. */
  lemma WholeStart(s: State, burst: nat) returns (steps: seq<Step>)
    requires s.control.Ready? && !Transmitting(s)
    ensures Legal(s, steps, burst)
    ensures var s' := Run(s, steps, burst);
      && s'.control.Ready? && Transmitting(s')
      && (Forever(s') <==> Forever(s) || s.transmitCount == 0)
      && s'.workers == s.workers && s'.count == s'.load == s.transmitCount == s'.transmitCount
  {
    OneStep(s, Start, burst);
    var s1 := Next(s, Start, burst);
    OneStep(s1, LoadCount, burst);
    Then(s, [Start], [LoadCount], burst);
    var s2 := Next(s1, LoadCount, burst);
    var finish := FinishStart(s2, burst);
    Then(s, [Start] + [LoadCount], finish, burst);
    var s3 := Run(s2, finish, burst);
    OneStep(s3, SetSending, burst);
    Then(s, [Start] + [LoadCount] + finish, [SetSending], burst);
    steps := [Start] + [LoadCount] + finish + [SetSending];
  }

  /** A forever run is stopped while worker 0 is between its tests of SENDING_PACKETS and
      SEND_FOREVER: the worker finds the counter at 0 and is about to clear SENDING_PACKETS. */
  lemma LeavesAWorkerClearing(s0: State, burst: nat) returns (steps: seq<Step>)
    requires Init(s0) && |s0.workers| > 0 && s0.transmitCount == 0 && burst > 0
    requires Fresh(s0.workers[0])
    ensures Legal(s0, steps, burst)
    ensures var s1 := Run(s0, steps, burst);
      && |s1.workers| == |s0.workers| && s1.workers[0].pc.Clearing? && s1.control.Ready?
      && !Transmitting(s1) && !Forever(s1) && s1.transmitCount == 0
  {
    steps := WholeStart(s0, burst);
    Append(s0, steps, TestSending(0), burst);
    steps := steps + [TestSending(0)];
    Append(s0, steps, Stop, burst);
    steps := steps + [Stop];
    Append(s0, steps, ClearFlags, burst);
    steps := steps + [ClearFlags];
    Append(s0, steps, TestForever(0), burst);
    steps := steps + [TestForever(0)];
    Append(s0, steps, ReadCount(0), burst);
    steps := steps + [ReadCount(0)];
  }

  /** The condition on SEND_FOREVER is not idle: from the initial port, one worker whose clear of
      SENDING_PACKETS lands after the next start leaves SEND_FOREVER set on an idle port, where a
      stop no longer clears it; the next start of n packets is then a forever run. */
  lemma ForeverFlagCanBeLeftBehind(s0: State, n: nat, burst: nat) returns (steps: seq<Step>)
    requires Init(s0) && |s0.workers| > 0 && s0.transmitCount == 0 && n > 0 && burst > 0
    ensures Legal(s0, steps, burst)
    ensures var s' := Run(s0, steps, burst);
      && Transmitting(s') && Forever(s') && s'.control.Ready? && s'.load == s'.count == n
      && s'.workers[0].pc.Idle?
  {
    assert Fresh(s0.workers[0]);
    steps := LeavesAWorkerClearing(s0, burst);
    var s1 := Run(s0, steps, burst);
    var again := WholeStart(s1, burst);
    Then(s0, steps, again, burst);
    steps := steps + again;
    Append(s0, steps, ClearSending(0), burst);
    steps := steps + [ClearSending(0)];
    Append(s0, steps, Stop, burst);
    steps := steps + [Stop];
    Append(s0, steps, SetTxCount(n), burst);
    steps := steps + [SetTxCount(n)];
    var s2 := Run(s0, steps, burst);
    assert Forever(s2) && !Transmitting(s2) && s2.transmitCount == n && s2.control.Ready?;
    var last := WholeStart(s2, burst);
    Then(s0, steps, last, burst);
    steps := steps + last;
  }
}
