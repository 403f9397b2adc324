/** What every run of the transmit protocol keeps: the burst count of a finite run, the order of
    a start, what may still be sent after a stop, and exactly when a start is honoured. */
module TxRuns {
  import opened Arithmetic
  import opened PortFlags
  import opened TxProtocol

  ghost predicate WorkersOnly(steps: seq<Step>) {
    forall k :: 0 <= k < |steps| ==> WorkerStep(steps[k])
  }

  // --- a counted run, from the moment SENDING_PACKETS is set with n packets in the counter

  /** A run of n packets on a port with any history: the workers may be anywhere in the protocol,
      except about to clear SENDING_PACKETS on account of an earlier run. */
  ghost predicate CountedStart(s: State, n: int, burst: nat) {
    && LedgerInv(s, burst) && Transmitting(s) && !Forever(s) && s.count == n && n > 0
    && forall k :: 0 <= k < |s.workers| ==> !s.workers[k].pc.Clearing?
  }

  /** k claims of at most `burst` have taken n - count packets from a counter that held n. */
  ghost predicate Taken(n: int, count: int, k: int, burst: nat) {
    if count > 0 then count == n - k * burst else (k - 1) * burst < n <= k * burst
  }

  ghost predicate CountedWorker(s: State, w: Worker, burst: nat) {
    WorkerLedger(w, burst) && (w.pc.Clearing? ==> s.count == 0)
  }

  /** The run began when the workers had made `claims0` claims of `granted0` packets in all. */
  ghost predicate CountedInv(s: State, n: int, burst: nat, granted0: int, claims0: int) {
    && !Forever(s) && 0 <= s.count && n > 0
    && Total(s.workers, Granted) - granted0 == n - s.count
    && Taken(n, s.count, Total(s.workers, Claims) - claims0, burst)
    && (!Transmitting(s) ==> s.count == 0)
    && forall k :: 0 <= k < |s.workers| ==> CountedWorker(s, s.workers[k], burst)
  }

  lemma TakeOne(n: int, count: int, k: int, burst: nat)
    requires burst > 0 && count > 0 && Taken(n, count, k, burst)
    ensures Taken(n, count - Share(count, burst), k + 1, burst)
  {
    assert (k + 1) * burst == k * burst + burst;
    assert (k + 1 - 1) * burst == k * burst;
  }

  lemma CountedWorkerStep(s: State, step: Step, burst: nat, j: nat)
    requires burst > 0 && WorkerStep(step) && Enabled(s, step) && j < |s.workers|
    requires !Forever(s) && 0 <= s.count
    requires CountedWorker(s, s.workers[j], burst) && CountedWorker(s, s.workers[step.w], burst)
    ensures CountedWorker(Next(s, step, burst), Next(s, step, burst).workers[j], burst)
  {
  }

  lemma CountedTotals(s: State, step: Step, n: int, burst: nat, granted0: int, claims0: int)
    requires burst > 0 && CountedInv(s, n, burst, granted0, claims0) && WorkerStep(step) && Enabled(s, step)
    ensures var s' := Next(s, step, burst);
      && !Forever(s') && 0 <= s'.count
      && Total(s'.workers, Granted) - granted0 == n - s'.count
      && Taken(n, s'.count, Total(s'.workers, Claims) - claims0, burst)
      && (!Transmitting(s') ==> s'.count == 0)
  {
    var s' := Next(s, step, burst);
    var k := step.w;
    assert CountedWorker(s, s.workers[k], burst);
    TotalUpdate(s.workers, k, s'.workers[k], Granted);
    TotalUpdate(s.workers, k, s'.workers[k], Claims);
    if step.CasCount? && s.count == s.workers[k].pc.c {
      TakeOne(n, s.count, Total(s.workers, Claims) - claims0, burst);
    }
  }

  lemma CountedStep(s: State, step: Step, n: int, burst: nat, granted0: int, claims0: int)
    requires burst > 0 && CountedInv(s, n, burst, granted0, claims0) && WorkerStep(step) && Enabled(s, step)
    ensures CountedInv(Next(s, step, burst), n, burst, granted0, claims0)
  {
    CountedTotals(s, step, n, burst, granted0, claims0);
    forall j: nat | j < |s.workers|
      ensures CountedWorker(Next(s, step, burst), Next(s, step, burst).workers[j], burst)
    {
      CountedWorkerStep(s, step, burst, j);
    }
  }

  lemma {:induction false} CountedRunInv(s: State, steps: seq<Step>, n: int, burst: nat, granted0: int, claims0: int)
    requires burst > 0 && CountedInv(s, n, burst, granted0, claims0)
    requires WorkersOnly(steps) && Legal(s, steps, burst)
    ensures CountedInv(Run(s, steps, burst), n, burst, granted0, claims0)
    decreases |steps|
  {
    if steps != [] {
      assert WorkerStep(steps[0]);
      CountedStep(s, steps[0], n, burst, granted0, claims0);
      CountedRunInv(Next(s, steps[0], burst), steps[1..], n, burst, granted0, claims0);
    }
  }

  lemma CancelBurst(a: int, b: int, burst: nat)
    requires a * burst < b * burst
    ensures a < b
  {
  }

  lemma CeilingCount(n: int, k: int, burst: nat)
    requires n > 0 && burst > 0 && (k - 1) * burst < n <= k * burst
    ensures k == (n + burst - 1) / burst
  {
    var q := (n + burst - 1) / burst;
    assert q * burst + (n + burst - 1) % burst == n + burst - 1;
    assert (q - 1) * burst == q * burst - burst;
    CancelBurst(k - 1, q, burst);
    CancelBurst(q - 1, k, burst);
  }

  /** Every interleaving of any number of workers, with any history, in a run of n > 0 packets:
      what the run claimed and the counter add up to n; when the counter is drained the run made
      exactly ceil(n / burst) claims; all that was ever claimed is sent, lost to the mempool or in
      a worker's hands; and SENDING_PACKETS is cleared, or about to be, only once the counter is
      0. */
  lemma CountedRun(s: State, steps: seq<Step>, n: int, burst: nat)
    requires burst > 0 && CountedStart(s, n, burst) && WorkersOnly(steps) && Legal(s, steps, burst)
    ensures var s' := Run(s, steps, burst);
      && !Forever(s') && 0 <= s'.count
      && Total(s'.workers, Granted) - Total(s.workers, Granted) + s'.count == n
      && (s'.count == 0 ==> Total(s'.workers, Claims) - Total(s.workers, Claims) == (n + burst - 1) / burst)
      && (!Transmitting(s') ==> s'.count == 0)
      && forall k :: 0 <= k < |s'.workers| ==>
           var w := s'.workers[k];
           && w.granted + w.free == w.sent + w.lost + InFlight(w.pc)
           && (w.pc.Clearing? ==> s'.count == 0)
  {
    var granted0, claims0 := Total(s.workers, Granted), Total(s.workers, Claims);
    CountedRunInv(s, steps, n, burst, granted0, claims0);
    var s' := Run(s, steps, burst);
    if s'.count == 0 {
      CeilingCount(n, Total(s'.workers, Claims) - claims0, burst);
    }
    forall k | 0 <= k < |s'.workers|
      ensures var w := s'.workers[k];
        w.granted + w.free == w.sent + w.lost + InFlight(w.pc) && (w.pc.Clearing? ==> s'.count == 0)
    {
      assert CountedWorker(s', s'.workers[k], burst);
    }
  }

  /** The first run of a port: every packet ever claimed belongs to it. */
  lemma CountedFirstRun(s: State, steps: seq<Step>, n: int, burst: nat)
    requires burst > 0 && CountedStart(s, n, burst) && WorkersOnly(steps) && Legal(s, steps, burst)
    requires forall k :: 0 <= k < |s.workers| ==> Fresh(s.workers[k])
    ensures var s' := Run(s, steps, burst);
      && Total(s'.workers, Granted) + s'.count == n
      && (s'.count == 0 ==> Total(s'.workers, Claims) == (n + burst - 1) / burst)
  {
    TotalZero(s.workers, Granted);
    TotalZero(s.workers, Claims);
    CountedRun(s, steps, n, burst);
  }

  // --- a worker left over from an earlier run

  ghost predicate ClearsLate(s: State) {
    && (!Transmitting(s) ==> s.count == 0)
    && forall k :: 0 <= k < |s.workers| ==> s.workers[k].pc.Clearing? ==> s.count == 0
  }

  lemma {:induction false} ClearsLateRun(s: State, steps: seq<Step>, burst: nat)
    requires burst > 0 && LedgerInv(s, burst) && ClearsLate(s) && WorkersOnly(steps) && Legal(s, steps, burst)
    ensures ClearsLate(Run(s, steps, burst))
    decreases |steps|
  {
    if steps != [] {
      assert WorkerStep(steps[0]);
      LedgerStep(s, steps[0], burst);
      assert WorkerLedger(s.workers[steps[0].w], burst);
      ClearsLateRun(Next(s, steps[0], burst), steps[1..], burst);
    }
  }

  /** Some schedule of the workers alone ends the transmission with packets still to send. */
  ghost predicate CanEndEarly(s: State, burst: nat) {
    exists steps: seq<Step> :: WorkersOnly(steps) && Legal(s, steps, burst)
      && !Transmitting(Run(s, steps, burst)) && Run(s, steps, burst).count > 0
  }

  /** A run can lose its SENDING_PACKETS flag before its counter is drained exactly when, at the
      moment it starts, some worker has already been told by an earlier run to clear the flag. */
  lemma EndsEarlyIffStaleClear(s: State, burst: nat)
    requires burst > 0 && LedgerInv(s, burst) && Transmitting(s) && s.count > 0
    ensures CanEndEarly(s, burst) <==> exists k :: 0 <= k < |s.workers| && s.workers[k].pc.Clearing?
  {
    if k :| 0 <= k < |s.workers| && s.workers[k].pc.Clearing? {
      var steps := [ClearSending(k)];
      var s' := Next(s, steps[0], burst);
      assert steps[1..] == [];
      assert Legal(s', steps[1..], burst) && Run(s, steps, burst) == s';
    } else {
      forall steps: seq<Step> | WorkersOnly(steps) && Legal(s, steps, burst)
        ensures ClearsLate(Run(s, steps, burst))
      {
        ClearsLateRun(s, steps, burst);
      }
    }
  }

  // --- the order of a start

  ghost predicate InStart(c: ControlPc) {
    c.Loading? || c.Checking? || c.SettingForever? || c.SettingUp? || c.Building? || c.SettingSending?
  }

  ghost predicate OrderInv(s: State, burst: nat) {
    && LedgerInv(s, burst)
    && (InStart(s.control) ==> !Transmitting(s))
    && (Transmitting(s) || s.control.SettingUp? || s.control.Building? || s.control.SettingSending? ==>
          Forever(s) || s.load > 0)
    && (s.control.Priming? ==> s.load > 0)
  }

  /** Over every run and interleaving: from its first access to its last, a start runs with
      SENDING_PACKETS clear, so a worker that sees the flag sees a port whose counter has been
      loaded with packets or whose SEND_FOREVER is set. */
  lemma {:induction false} StartIsOrdered(s: State, steps: seq<Step>, burst: nat)
    requires burst > 0 && OrderInv(s, burst) && Legal(s, steps, burst)
    ensures OrderInv(Run(s, steps, burst), burst)
    decreases |steps|
  {
    if steps != [] {
      LedgerStep(s, steps[0], burst);
      StartIsOrdered(Next(s, steps[0], burst), steps[1..], burst);
    }
  }

  lemma InitIsOrdered(s: State, burst: nat)
    requires Init(s)
    ensures OrderInv(s, burst)
  {
    TotalZero(s.workers, Granted);
  }

  // --- after a stop

  ghost predicate NoSending(steps: seq<Step>) {
    forall k :: 0 <= k < |steps| ==> !steps[k].SetSending? && !steps[k].PrimeSending?
  }

  /** Past the SENDING_PACKETS test, and not yet at the driver. */
  function Committed(pc: WorkerPc): nat {
    if pc.SawSending? || pc.Claiming? || pc.HasCount? || pc.Getting? then 1 else 0
  }

  /** Once SENDING_PACKETS is clear, and until the next start or prime sets it, each worker hands
      at most one more burst to the driver, and none unless it had already passed the test. */
  lemma {:induction false} AtMostOneMoreBurst(s: State, steps: seq<Step>, burst: nat, k: nat)
    requires !Transmitting(s) && NoSending(steps) && Legal(s, steps, burst) && k < |s.workers|
    ensures !Transmitting(Run(s, steps, burst))
    ensures Run(s, steps, burst).workers[k].bursts <= s.workers[k].bursts + Committed(s.workers[k].pc)
    decreases |steps|
  {
    if steps != [] {
      assert !steps[0].SetSending? && !steps[0].PrimeSending?;
      var s' := Next(s, steps[0], burst);
      assert s'.workers[k].bursts + Committed(s'.workers[k].pc) <= s.workers[k].bursts + Committed(s.workers[k].pc);
      AtMostOneMoreBurst(s', steps[1..], burst, k);
    }
  }

  ghost predicate NoRestart(steps: seq<Step>) {
    forall k :: 0 <= k < |steps| ==>
      && !steps[k].SetSending? && !steps[k].PrimeSending? && !steps[k].LoadCount?
      && !steps[k].Prime? && !steps[k].SetForever?
  }

  /** Not yet holding a counter value or packets. */
  ghost predicate NotYetClaiming(pc: WorkerPc) {
    pc.Idle? || pc.SawSending? || pc.Claiming? || pc.Clearing?
  }

  /** Whatever happens before the next start, worker k claims and sends nothing more. */
  ghost predicate StopsAtOnce(s: State, burst: nat, k: nat)
    requires k < |s.workers|
  {
    forall steps: seq<Step> :: NoRestart(steps) && Legal(s, steps, burst) ==>
      var w, w' := s.workers[k], Run(s, steps, burst).workers[k];
      w' == w.(pc := w'.pc) && NotYetClaiming(w'.pc)
  }

  lemma {:induction false} StoppedWorkerStays(s: State, steps: seq<Step>, burst: nat, k: nat)
    requires burst > 0 && LedgerInv(s, burst) && !Transmitting(s) && !Forever(s)
    requires NoRestart(steps) && Legal(s, steps, burst)
    requires k < |s.workers| && NotYetClaiming(s.workers[k].pc)
    requires s.count == 0 || s.workers[k].pc.Idle? || s.workers[k].pc.Clearing?
    ensures var w, w' := s.workers[k], Run(s, steps, burst).workers[k];
      w' == w.(pc := w'.pc) && NotYetClaiming(w'.pc)
    decreases |steps|
  {
    if steps != [] {
      assert !steps[0].SetSending? && !steps[0].LoadCount? && !steps[0].Prime? && !steps[0].SetForever?;
      LedgerStep(s, steps[0], burst);
      if WorkerStep(steps[0]) {
        assert WorkerLedger(s.workers[steps[0].w], burst);
      }
      StoppedWorkerStays(Next(s, steps[0], burst), steps[1..], burst, k);
    }
  }

  /** With packets in the counter a worker past the SENDING_PACKETS test still claims. */
  lemma StoppedWorkerClaims(s: State, burst: nat, k: nat) returns (steps: seq<Step>)
    requires burst > 0 && !Forever(s) && s.count > 0
    requires k < |s.workers| && (s.workers[k].pc.SawSending? || s.workers[k].pc.Claiming?)
    ensures NoRestart(steps) && Legal(s, steps, burst)
    ensures Run(s, steps, burst).workers[k].granted == s.workers[k].granted + Share(s.count, burst)
    ensures Run(s, steps, burst).workers[k].pc.Getting?
  {
    steps := [];
    if s.workers[k].pc.SawSending? {
      Append(s, steps, TestForever(k), burst);
      steps := steps + [TestForever(k)];
    }
    Append(s, steps, ReadCount(k), burst);
    steps := steps + [ReadCount(k)];
    Append(s, steps, CasCount(k), burst);
    steps := steps + [CasCount(k)];
  }

  /** Once the flags are clear, a worker that has not begun to claim sends nothing until the next
      start if and only if the counter is 0 or the worker is not past the SENDING_PACKETS test. A
      forever run whose counter was loaded with 0 stops at once; one that began with
      SEND_FOREVER left set and packets in the counter does not. */
  lemma ForeverStopsAtOnceIff(s: State, burst: nat, k: nat)
    requires burst > 0 && LedgerInv(s, burst) && !Transmitting(s) && !Forever(s)
    requires k < |s.workers| && NotYetClaiming(s.workers[k].pc)
    ensures StopsAtOnce(s, burst, k) <==> s.count == 0 || s.workers[k].pc.Idle? || s.workers[k].pc.Clearing?
  {
    if s.count == 0 || s.workers[k].pc.Idle? || s.workers[k].pc.Clearing? {
      forall steps: seq<Step> | NoRestart(steps) && Legal(s, steps, burst)
        ensures var w, w' := s.workers[k], Run(s, steps, burst).workers[k];
          w' == w.(pc := w'.pc) && NotYetClaiming(w'.pc)
      {
        StoppedWorkerStays(s, steps, burst, k);
      }
    } else {
      var steps := StoppedWorkerClaims(s, burst, k);
      assert !NotYetClaiming(Run(s, steps, burst).workers[k].pc);
    }
  }

  // --- how much a worker takes under SEND_FOREVER

  /** Bursts taken from the mempool or about to be. */
  function Takes(w: Worker): nat {
    w.bursts + if w.pc.Getting? then 1 else 0
  }

  /** What is taken under SEND_FOREVER is whole bursts; a worker that never claimed from the counter
      and never found the mempool empty took exactly one a turn. */
  ghost predicate WholeBursts(w: Worker, burst: nat)
    requires burst > 0
  {
    && w.granted >= 0 && w.lost >= 0 && w.free >= 0
    && w.free % burst == 0
    && (w.granted == 0 && w.lost == 0 ==> w.free == burst * Takes(w))
  }

  lemma WholeBurstsStep(s: State, step: Step, burst: nat, k: nat)
    requires burst > 0 && LedgerInv(s, burst) && Enabled(s, step)
    requires k < |s.workers| && WholeBursts(s.workers[k], burst)
    ensures WholeBursts(Next(s, step, burst).workers[k], burst)
  {
    if WorkerStep(step) && step.w == k {
      var w := s.workers[k];
      assert WorkerLedger(w, burst);
      if step.TestForever? && Forever(s) {
        OneMoreBurst(w.free, Takes(w), burst);
      }
    }
  }

  lemma OneMoreBurst(free: nat, takes: nat, burst: nat)
    requires burst > 0 && free % burst == 0
    ensures (free + burst) % burst == 0
    ensures free == burst * takes ==> free + burst == burst * (takes + 1)
  {
    var q := free / burst;
    assert free + burst == burst * (q + 1);
    DivModUnique(free + burst, burst, q + 1, 0);
  }

  lemma {:induction false} WholeBurstsRun(s: State, steps: seq<Step>, burst: nat, k: nat)
    requires burst > 0 && LedgerInv(s, burst) && Legal(s, steps, burst)
    requires k < |s.workers| && WholeBursts(s.workers[k], burst)
    ensures WholeBursts(Run(s, steps, burst).workers[k], burst)
    decreases |steps|
  {
    if steps != [] {
      LedgerStep(s, steps[0], burst);
      WholeBurstsStep(s, steps[0], burst, k);
      WholeBurstsRun(Next(s, steps[0], burst), steps[1..], burst, k);
    }
  }

  /** Over every run from the initial port: what a worker takes under SEND_FOREVER is a multiple of
      tx_burst; a worker that never claimed from the counter and never found the mempool empty took
      tx_burst packets in each of its turns, and has sent all of them once none is in its hands. */
  lemma ForeverTakesWholeBursts(s: State, steps: seq<Step>, burst: nat, k: nat)
    requires burst > 0 && Init(s) && Legal(s, steps, burst) && k < |s.workers|
    ensures var w := Run(s, steps, burst).workers[k];
      && w.free % burst == 0
      && (w.granted == 0 && w.lost == 0 ==> w.free == burst * (w.bursts + if w.pc.Getting? then 1 else 0))
      && (w.granted == 0 && w.lost == 0 && !w.pc.Getting? && !w.pc.Sending? ==> w.sent == burst * w.bursts)
  {
    TotalZero(s.workers, Granted);
    assert Fresh(s.workers[k]);
    assert WholeBursts(s.workers[k], burst);
    WholeBurstsRun(s, steps, burst, k);
    CountIsConserved(s, steps, burst);
  }

  /** A run of one turn after another under SEND_FOREVER: a burst of tx_burst packets each. */
  lemma OneForeverTurn(s: State, burst: nat, k: nat)
    requires burst > 0 && Transmitting(s) && Forever(s) && k < |s.workers| && s.workers[k].pc.Idle?
    ensures var turn := [TestSending(k), TestForever(k), GetBulk(k, true), TxBurst(k, burst)];
      && Legal(s, turn, burst)
      && var w, w' := s.workers[k], Run(s, turn, burst).workers[k];
         w' == w.(free := w.free + burst, sent := w.sent + burst, bursts := w.bursts + 1)
  {
    var done: seq<Step> := [];
    Append(s, done, TestSending(k), burst);
    done := done + [TestSending(k)];
    Append(s, done, TestForever(k), burst);
    done := done + [TestForever(k)];
    Append(s, done, GetBulk(k, true), burst);
    done := done + [GetBulk(k, true)];
    Append(s, done, TxBurst(k, burst), burst);
    assert done + [TxBurst(k, burst)] == [TestSending(k), TestForever(k), GetBulk(k, true), TxBurst(k, burst)];
  }

  // --- prime, and what a reset leaves to the next start

  /** Priming n packets leaves a port that transmits, with exactly n in the counter. */
  lemma PrimeLoads(s: State, n: nat, burst: nat)
    requires s.control.Ready? && n > 0
    ensures var steps := [Prime(n), PrimeSending];
      && Legal(s, steps, burst)
      && var s' := Run(s, steps, burst);
         Transmitting(s') && s'.count == s'.load == n && s'.control.Ready? && s'.workers == s.workers
         && (Forever(s') <==> Forever(s))
  {
    Append(s, [], Prime(n), burst);
    Append(s, [] + [Prime(n)], PrimeSending, burst);
    assert [] + [Prime(n)] + [PrimeSending] == [Prime(n), PrimeSending];
  }

  /** After pktgen_reset has put the port's defaults back, the next start is a forever start, with
      nothing of any earlier count left. */
  lemma DefaultsStartForever(s: State, burst: nat)
    requires s.control.Ready? && !Transmitting(s)
    ensures var steps := [PortDefaults, Start, LoadCount, CheckCount, SetForever];
      && Legal(s, steps, burst)
      && var s' := Run(s, steps, burst);
         Forever(s') && s'.count == s'.load == s'.transmitCount == 0 && s'.workers == s.workers
  {
    var done: seq<Step> := [];
    Append(s, done, PortDefaults, burst);
    done := done + [PortDefaults];
    Append(s, done, Start, burst);
    done := done + [Start];
    Append(s, done, LoadCount, burst);
    done := done + [LoadCount];
    Append(s, done, CheckCount, burst);
    done := done + [CheckCount];
    Append(s, done, SetForever, burst);
    assert done + [SetForever] == [PortDefaults, Start, LoadCount, CheckCount, SetForever];
  }
}
