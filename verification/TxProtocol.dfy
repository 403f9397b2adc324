/** The transmit protocol of one port: worker lcores claim bursts from a shared counter while one
    control thread starts, stops and reconfigures the port (pktgen_main_transmit and
    pktgen_send_pkts of app/pktgen.c, pkt_atomic64_tx_count of app/pktgen-port-cfg.h, the start,
    stop, prime and count commands of app/pktgen-cmds.c). A step is one atomic access. */
module TxProtocol {
  import opened PortFlags

  /** The next access of a worker. */
  datatype WorkerPc =
    | Idle               // test SENDING_PACKETS
    | SawSending         // test SEND_FOREVER
    | Claiming           // read the counter
    | HasCount(c: int)   // compare-and-set the counter, last read as c
    | Clearing           // clear SENDING_PACKETS
    | Getting(n: int)    // take n mbufs from the mempool, all or none
    | Sending(left: int) // hand `left` packets to the driver

  /** A worker and its history: successful claims, packets claimed from the counter, packets
      taken under SEND_FOREVER, packets the driver accepted, packets whose mempool get failed,
      and bursts that reached the driver. */
  datatype Worker = Worker(pc: WorkerPc, claims: nat, granted: int, free: int, sent: int, lost: int, bursts: nat)

  /** The next access of the control thread. */
  datatype ControlPc =
    | Ready
    | Loading            // start: copy transmit_count into the counter
    | Checking           // start: read the counter back
    | SettingForever     // start: the counter read 0
    | SettingUp | Building
    | SettingSending     // start: set SENDING_PACKETS
    | Stopping           // stop: clear SENDING_PACKETS and SEND_FOREVER
    | Priming            // prime: set SENDING_PACKETS

  /** `load` is the value the counter was last set to by a start or prime command; `loaded` and
      `discarded` total the values ever set and the remainders those sets overwrote. */
  datatype State = State(
    flags: FlagWord, count: int, transmitCount: int, control: ControlPc, workers: seq<Worker>,
    load: int, loaded: int, discarded: int)

  datatype Step =
    | TestSending(w: nat) | TestForever(w: nat) | ReadCount(w: nat) | CasCount(w: nat)
    | ClearSending(w: nat) | GetBulk(w: nat, ok: bool) | TxBurst(w: nat, accepted: nat)
    | Start | LoadCount | CheckCount | SetForever | SetSetup | BuildPackets | SetSending
    | Stop | ClearFlags | SetTxCount(n: nat) | Prime(n: nat) | PrimeSending | PortDefaults

  predicate WorkerStep(step: Step) {
    step.TestSending? || step.TestForever? || step.ReadCount? || step.CasCount? ||
    step.ClearSending? || step.GetBulk? || step.TxBurst?
  }

  predicate Transmitting(s: State) { SendingPackets in s.flags }

  predicate Forever(s: State) { SendForever in s.flags }

  predicate WorkerEnabled(pc: WorkerPc, step: Step)
    requires WorkerStep(step)
  {
    match step
    case TestSending(_) => pc.Idle?
    case TestForever(_) => pc.SawSending?
    case ReadCount(_) => pc.Claiming?
    case CasCount(_) => pc.HasCount?
    case ClearSending(_) => pc.Clearing?
    case GetBulk(_, _) => pc.Getting?
    case TxBurst(_, k) => pc.Sending? && k <= pc.left
  }

  predicate Enabled(s: State, step: Step) {
    if WorkerStep(step) then step.w < |s.workers| && WorkerEnabled(s.workers[step.w].pc, step)
    else match step
      case LoadCount => s.control.Loading?
      case CheckCount => s.control.Checking?
      case SetForever => s.control.SettingForever?
      case SetSetup => s.control.SettingUp?
      case BuildPackets => s.control.Building?
      case SetSending => s.control.SettingSending?
      case ClearFlags => s.control.Stopping?
      case PrimeSending => s.control.Priming?
      case Prime(n) => s.control.Ready? && 0 < n
      case _ => s.control.Ready?
  }

  /** What one claim takes from a counter read as c: the whole of it, or one burst. */
  function Share(c: int, burst: nat): int {
    if c > burst then burst else c
  }

  /** The burst size after the claim: never above tx_burst. */
  function Capped(n: int, burst: nat): int {
    if n > burst then burst else n
  }

  function WorkerNext(s: State, step: Step, burst: nat): (s': State)
    requires WorkerStep(step) && Enabled(s, step)
    ensures |s'.workers| == |s.workers| && s'.control == s.control
    ensures s'.load == s.load && s'.loaded == s.loaded && s'.discarded == s.discarded
  {
    var k, me := step.w, s.workers[step.w];
    match step
    case TestSending(_) => s.(workers := s.workers[k := me.(pc := if Transmitting(s) then SawSending else Idle)])
    case TestForever(_) =>
      s.(workers := s.workers[k := if Forever(s) then me.(pc := Getting(burst), free := me.free + burst)
                                   else me.(pc := Claiming)])
    case ReadCount(_) =>
      s.(workers := s.workers[k := me.(pc := if s.count == 0 then Clearing else HasCount(s.count))])
    case CasCount(_) =>
      var take := Share(me.pc.c, burst);
      if s.count == me.pc.c then
        s.(count := me.pc.c - take,
           workers := s.workers[k := me.(pc := if take == 0 then Clearing else Getting(Capped(take, burst)),
                                         claims := me.claims + 1, granted := me.granted + take)])
      else s.(workers := s.workers[k := me.(pc := Claiming)])
    case ClearSending(_) =>
      s.(flags := ClrBits({SendingPackets}).Effect(s.flags), workers := s.workers[k := me.(pc := Idle)])
    case GetBulk(_, ok) =>
      s.(workers := s.workers[k := if ok then me.(pc := Sending(me.pc.n), bursts := me.bursts + 1)
                                   else me.(pc := Idle, lost := me.lost + me.pc.n)])
    case TxBurst(_, n) =>
      var left := me.pc.left - n;
      s.(workers := s.workers[k := me.(pc := if left == 0 then Idle else Sending(left), sent := me.sent + n)])
  }

  function ControlNext(s: State, step: Step): (s': State)
    requires !WorkerStep(step) && Enabled(s, step)
    ensures s'.workers == s.workers
  {
    match step
    case Start => if Transmitting(s) then s else s.(control := Loading)
    case LoadCount =>
      s.(count := s.transmitCount, load := s.transmitCount, loaded := s.loaded + s.transmitCount,
         discarded := s.discarded + s.count, control := Checking)
    case CheckCount => s.(control := if s.count == 0 then SettingForever else SettingUp)
    case SetForever => s.(flags := SetBits({SendForever}).Effect(s.flags), control := SettingUp)
    case SetSetup => s.(flags := SetBits({SetupTransmitPkts}).Effect(s.flags), control := Building)
    case BuildPackets => s.(flags := ClrBits({SetupTransmitPkts}).Effect(s.flags), control := SettingSending)
    case SetSending => s.(flags := SetBits({SendingPackets}).Effect(s.flags), control := Ready)
    case Stop => if Transmitting(s) then s.(control := Stopping) else s
    case ClearFlags => s.(flags := ClrBits({SendingPackets, SendForever}).Effect(s.flags), control := Ready)
    case SetTxCount(n) => s.(transmitCount := n)
    case Prime(n) =>
      s.(count := n, load := n, loaded := s.loaded + n, discarded := s.discarded + s.count, control := Priming)
    case PrimeSending => s.(flags := SetBits({SendingPackets}).Effect(s.flags), control := Ready)
    case PortDefaults => s.(transmitCount := 0, count := 0, discarded := s.discarded + s.count)
  }

  function Next(s: State, step: Step, burst: nat): (s': State)
    requires Enabled(s, step)
    ensures |s'.workers| == |s.workers|
  {
    if WorkerStep(step) then WorkerNext(s, step, burst) else ControlNext(s, step)
  }

  ghost predicate Legal(s: State, steps: seq<Step>, burst: nat)
    decreases |steps|
  {
    steps == [] || (Enabled(s, steps[0]) && Legal(Next(s, steps[0], burst), steps[1..], burst))
  }

  ghost function Run(s: State, steps: seq<Step>, burst: nat): (s': State)
    requires Legal(s, steps, burst)
    ensures |s'.workers| == |s.workers|
    decreases |steps|
  {
    if steps == [] then s else Run(Next(s, steps[0], burst), steps[1..], burst)
  }

  /** Running one schedule after another. */
  lemma {:induction false} Then(s: State, first: seq<Step>, second: seq<Step>, burst: nat)
    requires Legal(s, first, burst) && Legal(Run(s, first, burst), second, burst)
    ensures Legal(s, first + second, burst)
    ensures Run(s, first + second, burst) == Run(Run(s, first, burst), second, burst)
    decreases |first|
  {
    if first == [] {
      assert first + second == second;
    } else {
      assert (first + second)[0] == first[0] && (first + second)[1..] == first[1..] + second;
      Then(Next(s, first[0], burst), first[1..], second, burst);
    }
  }

  lemma OneStep(s: State, step: Step, burst: nat)
    requires Enabled(s, step)
    ensures Legal(s, [step], burst) && Run(s, [step], burst) == Next(s, step, burst)
  {
    assert [step][1..] == [];
    assert Legal(Next(s, step, burst), [step][1..], burst);
  }

  lemma Append(s0: State, done: seq<Step>, step: Step, burst: nat)
    requires Legal(s0, done, burst) && Enabled(Run(s0, done, burst), step)
    ensures Legal(s0, done + [step], burst)
    ensures Run(s0, done + [step], burst) == Next(Run(s0, done, burst), step, burst)
  {
    OneStep(Run(s0, done, burst), step, burst);
    Then(s0, done, [step], burst);
  }

  /** The port before its first command: nothing counted, no worker inside a transmission. */
  ghost predicate Init(s: State) {
    && !Transmitting(s) && !Forever(s) && s.count == 0 && s.transmitCount >= 0 && s.control == Ready
    && s.load == s.loaded == s.discarded == 0
    && forall k :: 0 <= k < |s.workers| ==> Fresh(s.workers[k])
  }

  predicate Fresh(w: Worker) { w == Worker(Idle, 0, 0, 0, 0, 0, 0) }

  // --- totals over the workers

  function Total(ws: seq<Worker>, f: Worker -> int): int {
    if ws == [] then 0 else Total(ws[..|ws| - 1], f) + f(ws[|ws| - 1])
  }

  lemma {:induction false} TotalUpdate(ws: seq<Worker>, k: nat, w: Worker, f: Worker -> int)
    requires k < |ws|
    ensures Total(ws[k := w], f) == Total(ws, f) - f(ws[k]) + f(w)
  {
    var last := |ws| - 1;
    if k == last {
      assert ws[k := w][..last] == ws[..last];
    } else {
      assert ws[k := w][..last] == ws[..last][k := w];
      TotalUpdate(ws[..last], k, w, f);
    }
  }

  lemma {:induction false} TotalZero(ws: seq<Worker>, f: Worker -> int)
    requires forall k :: 0 <= k < |ws| ==> f(ws[k]) == 0
    ensures Total(ws, f) == 0
  {
    if ws != [] {
      TotalZero(ws[..|ws| - 1], f);
    }
  }

  function Granted(w: Worker): int { w.granted }
  function Claims(w: Worker): int { w.claims }

  function InFlight(pc: WorkerPc): int {
    match pc
    case Getting(n) => n
    case Sending(n) => n
    case _ => 0
  }

  // --- conservation, whatever the control thread does

  ghost predicate WorkerLedger(w: Worker, burst: nat) {
    && w.granted + w.free == w.sent + w.lost + InFlight(w.pc)
    && 0 <= InFlight(w.pc) <= burst
    && (w.pc.HasCount? ==> w.pc.c > 0)
    && (w.pc.Getting? || w.pc.Sending? ==> InFlight(w.pc) > 0)
  }

  ghost predicate LedgerInv(s: State, burst: nat) {
    && s.loaded == Total(s.workers, Granted) + s.count + s.discarded
    && 0 <= s.count <= s.load
    && s.transmitCount >= 0
    && forall k :: 0 <= k < |s.workers| ==> WorkerLedger(s.workers[k], burst)
  }

  lemma LedgerStep(s: State, step: Step, burst: nat)
    requires burst > 0 && LedgerInv(s, burst) && Enabled(s, step)
    ensures LedgerInv(Next(s, step, burst), burst)
  {
    if WorkerStep(step) {
      var s' := Next(s, step, burst);
      assert WorkerLedger(s.workers[step.w], burst);
      TotalUpdate(s.workers, step.w, s'.workers[step.w], Granted);
      assert WorkerLedger(s'.workers[step.w], burst);
      assert s'.workers == s.workers[step.w := s'.workers[step.w]];
    }
  }

  lemma {:induction false} LedgerRun(s: State, steps: seq<Step>, burst: nat)
    requires burst > 0 && LedgerInv(s, burst) && Legal(s, steps, burst)
    ensures LedgerInv(Run(s, steps, burst), burst)
    decreases |steps|
  {
    if steps != [] {
      LedgerStep(s, steps[0], burst);
      LedgerRun(Next(s, steps[0], burst), steps[1..], burst);
    }
  }

  /** Conservation over every run, with any number of workers and any interleaving with any
      commands: what starts and primes loaded into the counter is what claims took from it, what
      is left in it, and what later commands overwrote; and each worker's packets are accounted
      for as sent, lost to a failed mempool get, or still in its hands. */
  lemma CountIsConserved(s: State, steps: seq<Step>, burst: nat)
    requires burst > 0 && Init(s) && Legal(s, steps, burst)
    ensures var s' := Run(s, steps, burst);
      && s'.loaded == Total(s'.workers, Granted) + s'.count + s'.discarded
      && 0 <= s'.count <= s'.load
      && forall k :: 0 <= k < |s'.workers| ==>
           var w := s'.workers[k]; w.granted + w.free == w.sent + w.lost + InFlight(w.pc)
  {
    TotalZero(s.workers, Granted);
    LedgerRun(s, steps, burst);
    var s' := Run(s, steps, burst);
    forall k | 0 <= k < |s'.workers|
      ensures var w := s'.workers[k]; w.granted + w.free == w.sent + w.lost + InFlight(w.pc)
    {
      assert WorkerLedger(s'.workers[k], burst);
    }
  }
}
