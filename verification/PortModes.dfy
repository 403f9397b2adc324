/** The mode bits of a port: control commands as programs of single atomic accesses
    (app/pktgen-cmds.c), run by one control thread while workers clear bits of the same word. */
module PortModes {
  import opened Constants
  import opened PortFlags

  const TUNNELS: FlagWord :=
    {SendVlanId, SendMplsLabel, SendQInQIds, SendGreIpv4Header, SendGreEtherHeader, SendVxlanPackets}
  const STREAMS: FlagWord := {SendPcapPkts, SendRangePkts, SendSeqPkts}
  const MODES: FlagWord := EXCLUSIVE_MODES + EXCLUSIVE_PKT_MODES

  /** One atomic access of the control thread. */
  datatype Action =
    | Bits(op: FlagOp)                 // a set or clear of port_flags
    | SetCount(cnt: nat)               // a store to seqCnt
    | QuitIfSending                    // a test of SENDING_PACKETS that ends the command
    | SkipUnlessSending                // a test of SENDING_PACKETS that guards the next access

  datatype Command =
    | EnableRandom(on: bool) | EnablePcap(on: bool, loaded: bool) | EnableVxlan(on: bool)
    | EnableVlan(on: bool) | EnableMpls(on: bool) | EnableQinq(on: bool) | EnableGre(on: bool)
    | EnableGreEth(on: bool) | SetSeqCnt(cnt: nat) | EnableRange(on: bool) | EnableLatency(on: bool)
    | Start(forever: bool) | Stop | Prime | Reset
    | SetOther(flag: Flag, on: bool)   // a command for one bit that is no mode

  function Switch(on: bool, clears: FlagWord, sets: FlagWord, off: FlagWord): seq<Action> {
    if on then [Bits(ClrBits(clears)), Bits(SetBits(sets))] else [Bits(ClrBits(off))]
  }

  function SeqCntProgram(cnt: nat): seq<Action> {
    var c := if cnt > NUM_SEQ_PKTS then NUM_SEQ_PKTS else cnt;
    [SetCount(c), Bits(ClrBits(EXCLUSIVE_MODES)), Bits(SetBits(if c != 0 then {SendSeqPkts} else {SendSinglePkts}))]
  }

  function RangeProgram(on: bool): seq<Action> {
    (if on then [QuitIfSending] else [])
    + [Bits(ClrBits(EXCLUSIVE_MODES)), Bits(SetBits(if on then {SendRangePkts} else {SendSinglePkts}))]
  }

  function StopProgram(): seq<Action> {
    [SkipUnlessSending, Bits(ClrBits({SendingPackets, SendForever}))]
  }

  function LatencyProgram(on: bool): seq<Action> {
    [Bits(if on then SetBits({SendLatencyPkts}) else ClrBits({SendLatencyPkts}))]
  }

  function ResetProgram(): seq<Action> {
    StopProgram() + ([SetCount(0)] + (RangeProgram(false) + (LatencyProgram(false) + SeqCntProgram(0))))
  }

  function QinqProgram(on: bool): seq<Action> {
    if on then
      [Bits(ClrBits(EXCLUSIVE_MODES)), Bits(ClrBits(EXCLUSIVE_PKT_MODES)), Bits(SetBits({SendQInQIds, SendSinglePkts}))]
    else [Bits(ClrBits({SendQInQIds}))]
  }

  function PcapProgram(on: bool, loaded: bool): seq<Action> {
    if !loaded then []
    else [Bits(ClrBits(EXCLUSIVE_MODES)), Bits(SetBits(if on then {SendPcapPkts} else {SendSinglePkts}))]
  }

  function StartProgram(forever: bool): seq<Action> {
    [QuitIfSending] + (if forever then [Bits(SetBits({SendForever}))] else [])
    + [Bits(SetBits({SetupTransmitPkts})), Bits(ClrBits({SetupTransmitPkts})), Bits(SetBits({SendingPackets}))]
  }

  /** What the control thread does to flags and seqCnt, access by access. */
  function Program(cmd: Command): seq<Action> {
    match cmd
    case EnableRandom(on) => Switch(on, EXCLUSIVE_MODES, {SendRandomPkts, SendSinglePkts}, {SendRandomPkts})
    case EnablePcap(on, loaded) => PcapProgram(on, loaded)
    case EnableVxlan(on) => Switch(on, EXCLUSIVE_PKT_MODES, {SendVxlanPackets}, {SendVxlanPackets})
    case EnableVlan(on) => Switch(on, EXCLUSIVE_PKT_MODES, {SendVlanId, SendSinglePkts}, {SendVlanId})
    case EnableMpls(on) => Switch(on, EXCLUSIVE_PKT_MODES, {SendMplsLabel, SendSinglePkts}, {SendMplsLabel})
    case EnableQinq(on) => QinqProgram(on)
    case EnableGre(on) => Switch(on, EXCLUSIVE_PKT_MODES, {SendGreIpv4Header, SendSinglePkts}, {SendGreIpv4Header})
    case EnableGreEth(on) => Switch(on, EXCLUSIVE_PKT_MODES, {SendGreEtherHeader, SendSinglePkts}, {SendGreEtherHeader})
    case SetSeqCnt(cnt) => SeqCntProgram(cnt)
    case EnableRange(on) => RangeProgram(on)
    case EnableLatency(on) => LatencyProgram(on)
    case Start(forever) => StartProgram(forever)
    case Stop => StopProgram()
    case Prime => [Bits(SetBits({SendingPackets}))]
    case Reset => ResetProgram()
    case SetOther(flag, on) =>
      if flag in MODES then [] else [Bits(if on then SetBits({flag}) else ClrBits({flag}))]
  }

  /** The shared word, seqCnt, and what is left of the running command. */
  datatype PortState = PortState(word: FlagWord, seqCnt: nat, todo: seq<Action>)

  const INITIAL := PortState({SendSinglePkts}, 0, [])

  datatype Step = Begin(cmd: Command) | Act | WorkerClears(mask: FlagWord)

  /** Workers clear SENDING_PACKETS when the count is used up, and the ARP and ping requests once
      these are sent. A command begins only when the one before is over. */
  ghost predicate Enabled(s: PortState, step: Step) {
    match step
    case Begin(_) => s.todo == []
    case Act => s.todo != []
    case WorkerClears(mask) => mask == {SendingPackets} || mask == SEND_ARP_PING_REQUESTS
  }

  function Acted(word: FlagWord, seqCnt: nat, action: Action, rest: seq<Action>): PortState {
    match action
    case Bits(op) => PortState(op.Effect(word), seqCnt, rest)
    case SetCount(cnt) => PortState(word, cnt, rest)
    case QuitIfSending => PortState(word, seqCnt, if SendingPackets in word then [] else rest)
    case SkipUnlessSending =>
      PortState(word, seqCnt, if SendingPackets in word || rest == [] then rest else rest[1..])
  }

  ghost function Next(s: PortState, step: Step): PortState
    requires Enabled(s, step)
  {
    match step
    case Begin(cmd) => s.(todo := Program(cmd))
    case Act => Acted(s.word, s.seqCnt, s.todo[0], s.todo[1..])
    case WorkerClears(mask) => s.(word := s.word - mask)
  }

  ghost predicate Legal(s: PortState, steps: seq<Step>)
    decreases |steps|
  {
    steps == [] || (Enabled(s, steps[0]) && Legal(Next(s, steps[0]), steps[1..]))
  }

  ghost function Run(s: PortState, steps: seq<Step>): PortState
    requires Legal(s, steps)
    decreases |steps|
  {
    if steps == [] then s else Run(Next(s, steps[0]), steps[1..])
  }

  // --- what holds

  ghost predicate AtMostOne(word: FlagWord, group: FlagWord) {
    forall a, b :: a in word && b in word && a in group && b in group ==> a == b
  }

  /** In every state. */
  ghost predicate Exclusive(word: FlagWord) {
    AtMostOne(word, TUNNELS) && AtMostOne(word, STREAMS)
  }

  /** Between commands. */
  ghost predicate AtRest(word: FlagWord, seqCnt: nat) {
    && Exclusive(word)
    && Tst(word, EXCLUSIVE_MODES)
    && seqCnt <= NUM_SEQ_PKTS
    && (SendSeqPkts in word ==> 1 <= seqCnt)
  }

  /** Every way of finishing `todo` passes only exclusive states and ends at rest. */
  ghost predicate Sound(word: FlagWord, seqCnt: nat, todo: seq<Action>)
    decreases |todo|
  {
    if todo == [] then AtRest(word, seqCnt)
    else
      && Exclusive(word)
      && match todo[0]
         case Bits(op) => Sound(op.Effect(word), seqCnt, todo[1..])
         case SetCount(cnt) => Sound(word, cnt, todo[1..])
         case QuitIfSending => AtRest(word, seqCnt) && Sound(word, seqCnt, todo[1..])
         case SkipUnlessSending =>
           Sound(word, seqCnt, todo[1..]) && (|todo| == 1 || Sound(word, seqCnt, todo[2..]))
  }

  /** Soundness looks at the mode bits only. */
  lemma {:induction false} SoundForModes(v: FlagWord, w: FlagWord, seqCnt: nat, todo: seq<Action>)
    requires Sound(v, seqCnt, todo) && v * MODES == w * MODES
    ensures Sound(w, seqCnt, todo)
    decreases |todo|
  {
    SameModes(v, w);
    if todo != [] {
      match todo[0]
      case Bits(op) =>
        assert op.Effect(v) * MODES == op.Effect(w) * MODES by {
          EffectOnModes(v, w, op);
        }
        SoundForModes(op.Effect(v), op.Effect(w), seqCnt, todo[1..]);
      case SetCount(cnt) => SoundForModes(v, w, cnt, todo[1..]);
      case QuitIfSending => SoundForModes(v, w, seqCnt, todo[1..]);
      case SkipUnlessSending =>
        SoundForModes(v, w, seqCnt, todo[1..]);
        if |todo| > 1 {
          SoundForModes(v, w, seqCnt, todo[2..]);
        }
    }
  }

  lemma EffectOnModes(v: FlagWord, w: FlagWord, op: FlagOp)
    requires v * MODES == w * MODES
    ensures op.Effect(v) * MODES == op.Effect(w) * MODES
  {
    assert forall f :: f in MODES ==> (f in v * MODES <==> f in v) && (f in w * MODES <==> f in w);
  }

  lemma SameModes(v: FlagWord, w: FlagWord)
    requires v * MODES == w * MODES
    ensures forall f :: f in MODES ==> (f in v <==> f in w)
    ensures Tst(v, EXCLUSIVE_MODES) <==> Tst(w, EXCLUSIVE_MODES)
    ensures Exclusive(v) <==> Exclusive(w)
  {
    assert forall f :: f in MODES ==> (f in v * MODES <==> f in v) && (f in w * MODES <==> f in w);
    assert v * EXCLUSIVE_MODES == w * EXCLUSIVE_MODES;
    assert TUNNELS <= MODES && STREAMS <= MODES;
  }

  lemma ClearsOutside(word: FlagWord, mask: FlagWord, group: FlagWord)
    requires mask !! group
    ensures (word - mask) * group == word * group
  {
  }

  lemma SetsOutside(word: FlagWord, mask: FlagWord, group: FlagWord)
    requires mask !! group
    ensures (word + mask) * group == word * group
  {
  }

  lemma WorkerMasks()
    ensures {SendingPackets} !! MODES && SEND_ARP_PING_REQUESTS !! MODES
  {
  }

  lemma GroupsApart()
    ensures EXCLUSIVE_PKT_MODES !! EXCLUSIVE_MODES && TUNNELS <= EXCLUSIVE_PKT_MODES
    ensures STREAMS <= EXCLUSIVE_MODES && SendLatencyPkts !in EXCLUSIVE_MODES
  {
  }

  // --- every command is sound

  lemma SoundBits(word: FlagWord, seqCnt: nat, op: FlagOp, rest: seq<Action>)
    requires Exclusive(word) && Sound(op.Effect(word), seqCnt, rest)
    ensures Sound(word, seqCnt, [Bits(op)] + rest)
  {
    assert ([Bits(op)] + rest)[1..] == rest;
  }

  lemma SoundCount(word: FlagWord, seqCnt: nat, cnt: nat, rest: seq<Action>)
    requires Exclusive(word) && Sound(word, cnt, rest)
    ensures Sound(word, seqCnt, [SetCount(cnt)] + rest)
  {
    assert ([SetCount(cnt)] + rest)[1..] == rest;
  }

  lemma SoundQuit(word: FlagWord, seqCnt: nat, rest: seq<Action>)
    requires AtRest(word, seqCnt) && Sound(word, seqCnt, rest)
    ensures Sound(word, seqCnt, [QuitIfSending] + rest)
  {
    assert ([QuitIfSending] + rest)[1..] == rest;
  }

  /** Clearing the four send modes and setting one of them, with nothing more to do or with a
      program that is sound from there. */
  lemma SoundSwap(word: FlagWord, seqCnt: nat, mode: Flag, rest: seq<Action>)
    requires Exclusive(word) && mode in EXCLUSIVE_MODES
    requires Sound(word - EXCLUSIVE_MODES + {mode}, seqCnt, rest)
    ensures Sound(word, seqCnt, [Bits(ClrBits(EXCLUSIVE_MODES)), Bits(SetBits({mode}))] + rest)
  {
    SoundBits(word - EXCLUSIVE_MODES, seqCnt, SetBits({mode}), rest);
    SoundBits(word, seqCnt, ClrBits(EXCLUSIVE_MODES), [Bits(SetBits({mode}))] + rest);
    assert [Bits(ClrBits(EXCLUSIVE_MODES)), Bits(SetBits({mode}))] + rest
        == [Bits(ClrBits(EXCLUSIVE_MODES))] + ([Bits(SetBits({mode}))] + rest);
  }

  lemma SoundSwitch(word: FlagWord, seqCnt: nat, on: bool, clears: FlagWord, sets: FlagWord, off: FlagWord)
    requires AtRest(word, seqCnt)
    requires AtRest(word - clears + sets, seqCnt) && AtRest(word - off, seqCnt)
    ensures Sound(word, seqCnt, Switch(on, clears, sets, off))
  {
    if on {
      SoundBits(word - clears, seqCnt, SetBits(sets), []);
      SoundBits(word, seqCnt, ClrBits(clears), [Bits(SetBits(sets))]);
      assert Switch(on, clears, sets, off) == [Bits(ClrBits(clears))] + ([Bits(SetBits(sets))] + []);
    } else {
      SoundBits(word, seqCnt, ClrBits(off), []);
    }
  }

  lemma TunnelOnAtRest(word: FlagWord, seqCnt: nat, tunnel: Flag, with: FlagWord)
    requires AtRest(word, seqCnt) && tunnel in TUNNELS && with <= {SendSinglePkts}
    ensures AtRest(word - EXCLUSIVE_PKT_MODES + ({tunnel} + with), seqCnt)
  {
    GroupsApart();
    ClearsOutside(word, EXCLUSIVE_PKT_MODES, EXCLUSIVE_MODES);
    var w := word - EXCLUSIVE_PKT_MODES + ({tunnel} + with);
    assert word * EXCLUSIVE_MODES <= w * EXCLUSIVE_MODES;
    assert forall f :: f in w && f in TUNNELS ==> f == tunnel;
    assert forall f :: f in w && f in STREAMS ==> f in word;
  }

  lemma TunnelOffAtRest(word: FlagWord, seqCnt: nat, tunnel: Flag)
    requires AtRest(word, seqCnt) && tunnel in TUNNELS
    ensures AtRest(word - {tunnel}, seqCnt)
  {
    GroupsApart();
    ClearsOutside(word, {tunnel}, EXCLUSIVE_MODES);
  }

  lemma TunnelSwitch(word: FlagWord, seqCnt: nat, on: bool, tunnel: Flag, with: FlagWord)
    requires AtRest(word, seqCnt) && tunnel in TUNNELS && with <= {SendSinglePkts}
    ensures Sound(word, seqCnt, Switch(on, EXCLUSIVE_PKT_MODES, {tunnel} + with, {tunnel}))
  {
    TunnelOnAtRest(word, seqCnt, tunnel, with);
    TunnelOffAtRest(word, seqCnt, tunnel);
    SoundSwitch(word, seqCnt, on, EXCLUSIVE_PKT_MODES, {tunnel} + with, {tunnel});
  }

  lemma SwapAtRest(word: FlagWord, seqCnt: nat, mode: Flag)
    requires Exclusive(word) && mode in EXCLUSIVE_MODES && seqCnt <= NUM_SEQ_PKTS
    requires mode == SendSeqPkts ==> seqCnt >= 1
    ensures AtRest(word - EXCLUSIVE_MODES + {mode}, seqCnt)
  {
    var w := word - EXCLUSIVE_MODES + {mode};
    assert mode in w * EXCLUSIVE_MODES;
  }

  lemma SeqCntIsSound(word: FlagWord, seqCnt: nat, cnt: nat)
    requires Exclusive(word)
    ensures Sound(word, seqCnt, SeqCntProgram(cnt))
  {
    var c := if cnt > NUM_SEQ_PKTS then NUM_SEQ_PKTS else cnt;
    var mode := if c != 0 then SendSeqPkts else SendSinglePkts;
    SwapAtRest(word, c, mode);
    SoundSwap(word, c, mode, []);
    SoundCount(word, seqCnt, c, [Bits(ClrBits(EXCLUSIVE_MODES)), Bits(SetBits({mode}))] + []);
    assert SeqCntProgram(cnt)
        == [SetCount(c)] + ([Bits(ClrBits(EXCLUSIVE_MODES)), Bits(SetBits({mode}))] + []);
  }

  lemma RangeIsSound(word: FlagWord, seqCnt: nat, on: bool)
    requires AtRest(word, seqCnt)
    ensures Sound(word, seqCnt, RangeProgram(on))
  {
    var mode := if on then SendRangePkts else SendSinglePkts;
    SwapAtRest(word, seqCnt, mode);
    SoundSwap(word, seqCnt, mode, []);
    var swap := [Bits(ClrBits(EXCLUSIVE_MODES)), Bits(SetBits({mode}))];
    assert swap + [] == swap;
    if on {
      SoundQuit(word, seqCnt, swap);
    } else {
      assert RangeProgram(on) == swap;
    }
  }

  /** The same bits with some that are no modes changed. */
  lemma OtherBits(word: FlagWord, seqCnt: nat, op: FlagOp, rest: seq<Action>)
    requires op.mask !! MODES && Exclusive(word) && Sound(word, seqCnt, rest)
    ensures Sound(word, seqCnt, [Bits(op)] + rest)
  {
    assert op.Effect(word) * MODES == word * MODES;
    SoundForModes(word, op.Effect(word), seqCnt, rest);
    SoundBits(word, seqCnt, op, rest);
  }

  lemma StopIsSound(word: FlagWord, seqCnt: nat, rest: seq<Action>)
    requires Exclusive(word) && Sound(word, seqCnt, rest)
    ensures Sound(word, seqCnt, StopProgram() + rest)
  {
    var clear := Bits(ClrBits({SendingPackets, SendForever}));
    OtherBits(word, seqCnt, clear.op, rest);
    var todo := StopProgram() + rest;
    assert todo[1..] == [clear] + rest && todo[2..] == rest;
  }

  lemma {:induction false} OtherBitsOnly(word: FlagWord, seqCnt: nat, todo: seq<Action>)
    requires AtRest(word, seqCnt)
    requires forall a :: a in todo ==> a.Bits? && a.op.mask !! MODES
    ensures Sound(word, seqCnt, todo)
    decreases |todo|
  {
    if todo != [] {
      OtherBitsOnly(word, seqCnt, todo[1..]);
      OtherBits(word, seqCnt, todo[0].op, todo[1..]);
      assert todo == [todo[0]] + todo[1..];
    }
  }

  lemma StartIsSound(word: FlagWord, seqCnt: nat, forever: bool)
    requires AtRest(word, seqCnt)
    ensures Sound(word, seqCnt, StartProgram(forever))
  {
    var p := StartProgram(forever);
    OtherBitsOnly(word, seqCnt, p[1..]);
    SoundQuit(word, seqCnt, p[1..]);
    assert p == [QuitIfSending] + p[1..];
  }

  lemma ResetTail(word: FlagWord, seqCnt: nat)
    requires Exclusive(word) && SendSinglePkts in word
    ensures Sound(word, seqCnt, LatencyProgram(false) + SeqCntProgram(0))
  {
    SeqCntIsSound(word - {SendLatencyPkts}, seqCnt, 0);
    SoundBits(word, seqCnt, ClrBits({SendLatencyPkts}), SeqCntProgram(0));
  }

  lemma RangeOffThen(word: FlagWord, seqCnt: nat, rest: seq<Action>)
    requires Exclusive(word) && Sound(word - EXCLUSIVE_MODES + {SendSinglePkts}, seqCnt, rest)
    ensures Sound(word, seqCnt, RangeProgram(false) + rest)
  {
    SoundSwap(word, seqCnt, SendSinglePkts, rest);
    assert RangeProgram(false) == [Bits(ClrBits(EXCLUSIVE_MODES)), Bits(SetBits({SendSinglePkts}))];
  }

  lemma StopThenCount(word: FlagWord, seqCnt: nat, rest: seq<Action>)
    requires Exclusive(word) && Sound(word, 0, rest)
    ensures Sound(word, seqCnt, StopProgram() + ([SetCount(0)] + rest))
  {
    SoundCount(word, seqCnt, 0, rest);
    StopIsSound(word, seqCnt, [SetCount(0)] + rest);
  }

  lemma LatencyThenCount(word: FlagWord, tail: seq<Action>)
    requires Exclusive(word) && tail == LatencyProgram(false) + SeqCntProgram(0)
    ensures Sound(word - EXCLUSIVE_MODES + {SendSinglePkts}, 0, tail)
  {
    ResetTail(word - EXCLUSIVE_MODES + {SendSinglePkts}, 0);
  }

  lemma ResetIsSound(word: FlagWord, seqCnt: nat, tail: seq<Action>)
    requires Exclusive(word) && tail == LatencyProgram(false) + SeqCntProgram(0)
    ensures Sound(word, seqCnt, StopProgram() + ([SetCount(0)] + (RangeProgram(false) + tail)))
  {
    LatencyThenCount(word, tail);
    RangeOffThen(word, 0, tail);
    StopThenCount(word, seqCnt, RangeProgram(false) + tail);
  }

  lemma QinqOnAtRest(word: FlagWord, seqCnt: nat)
    requires AtRest(word, seqCnt)
    ensures AtRest(word - EXCLUSIVE_MODES - EXCLUSIVE_PKT_MODES + {SendQInQIds, SendSinglePkts}, seqCnt)
  {
    var w := word - EXCLUSIVE_MODES - EXCLUSIVE_PKT_MODES + {SendQInQIds, SendSinglePkts};
    GroupsApart();
    assert SendSinglePkts in w * EXCLUSIVE_MODES;
    assert forall f :: f in w && f in TUNNELS ==> f == SendQInQIds;
    assert forall f :: f in w ==> f !in STREAMS;
  }

  lemma QinqOffIsSound(word: FlagWord, seqCnt: nat)
    requires AtRest(word, seqCnt)
    ensures Sound(word, seqCnt, [Bits(ClrBits({SendQInQIds}))])
  {
    TunnelOffAtRest(word, seqCnt, SendQInQIds);
    SoundBits(word, seqCnt, ClrBits({SendQInQIds}), []);
    assert [Bits(ClrBits({SendQInQIds}))] + [] == [Bits(ClrBits({SendQInQIds}))];
  }

  lemma QinqIsSound(word: FlagWord, seqCnt: nat, on: bool)
    requires AtRest(word, seqCnt)
    ensures Sound(word, seqCnt, QinqProgram(on))
  {
    if on {
      QinqOnAtRest(word, seqCnt);
      ThreeSound(word, seqCnt, ClrBits(EXCLUSIVE_MODES), ClrBits(EXCLUSIVE_PKT_MODES),
                 SetBits({SendQInQIds, SendSinglePkts}));
    } else {
      QinqOffIsSound(word, seqCnt);
    }
  }

  /** Two clears and a set whose outcome is at rest. */
  lemma ThreeSound(word: FlagWord, seqCnt: nat, a: FlagOp, b: FlagOp, c: FlagOp)
    requires a.ClrBits? && b.ClrBits? && AtRest(word, seqCnt)
    requires AtRest(c.Effect(b.Effect(a.Effect(word))), seqCnt)
    ensures Sound(word, seqCnt, [Bits(a), Bits(b), Bits(c)])
  {
    SoundBits(b.Effect(a.Effect(word)), seqCnt, c, []);
    SoundBits(a.Effect(word), seqCnt, b, [Bits(c)]);
    SoundBits(word, seqCnt, a, [Bits(b), Bits(c)]);
    assert [Bits(c)] + [] == [Bits(c)];
    assert [Bits(b)] + [Bits(c)] == [Bits(b), Bits(c)];
    assert [Bits(a)] + [Bits(b), Bits(c)] == [Bits(a), Bits(b), Bits(c)];
  }

  lemma RandomIsSound(word: FlagWord, seqCnt: nat, on: bool)
    requires AtRest(word, seqCnt)
    ensures Sound(word, seqCnt, Program(EnableRandom(on)))
  {
    var sets := {SendRandomPkts, SendSinglePkts};
    assert SendSinglePkts in (word - EXCLUSIVE_MODES + sets) * EXCLUSIVE_MODES;
    assert word * EXCLUSIVE_MODES == (word - {SendRandomPkts}) * EXCLUSIVE_MODES;
    SoundSwitch(word, seqCnt, on, EXCLUSIVE_MODES, sets, {SendRandomPkts});
  }

  lemma OneBitAtRest(word: FlagWord, seqCnt: nat, op: FlagOp)
    requires AtRest(word, seqCnt) && (op.mask !! MODES || op.mask == {SendLatencyPkts})
    ensures AtRest(op.Effect(word), seqCnt)
  {
    GroupsApart();
    ClearsOutside(word, op.mask, EXCLUSIVE_MODES);
    SetsOutside(word, op.mask, EXCLUSIVE_MODES);
    assert op.mask !! TUNNELS && op.mask !! STREAMS;
  }

  lemma OneBitIsSound(word: FlagWord, seqCnt: nat, op: FlagOp)
    requires AtRest(word, seqCnt) && (op.mask !! MODES || op.mask == {SendLatencyPkts})
    ensures Sound(word, seqCnt, [Bits(op)])
  {
    OneBitAtRest(word, seqCnt, op);
    SoundBits(word, seqCnt, op, []);
    assert [Bits(op)] + [] == [Bits(op)];
  }

  lemma PcapIsSound(word: FlagWord, seqCnt: nat, on: bool, loaded: bool)
    requires AtRest(word, seqCnt)
    ensures Sound(word, seqCnt, PcapProgram(on, loaded))
  {
    if loaded {
      var mode := if on then SendPcapPkts else SendSinglePkts;
      SwapAtRest(word, seqCnt, mode);
      SoundSwap(word, seqCnt, mode, []);
      assert PcapProgram(on, loaded) == [Bits(ClrBits(EXCLUSIVE_MODES)), Bits(SetBits({mode}))] + [];
    }
  }

  /** The commands whose program is a tunnel switch. */
  lemma TunnelIsSound(word: FlagWord, seqCnt: nat, cmd: Command)
    requires AtRest(word, seqCnt)
    requires cmd.EnableVxlan? || cmd.EnableVlan? || cmd.EnableMpls? || cmd.EnableGre? || cmd.EnableGreEth?
    ensures Sound(word, seqCnt, Program(cmd))
  {
    match cmd
    case EnableVxlan(on) => TunnelSwitch(word, seqCnt, on, SendVxlanPackets, {});
      assert {SendVxlanPackets} + {} == {SendVxlanPackets};
    case EnableVlan(on) => TunnelSwitch(word, seqCnt, on, SendVlanId, {SendSinglePkts});
      assert {SendVlanId} + {SendSinglePkts} == {SendVlanId, SendSinglePkts};
    case EnableMpls(on) => TunnelSwitch(word, seqCnt, on, SendMplsLabel, {SendSinglePkts});
      assert {SendMplsLabel} + {SendSinglePkts} == {SendMplsLabel, SendSinglePkts};
    case EnableGre(on) => TunnelSwitch(word, seqCnt, on, SendGreIpv4Header, {SendSinglePkts});
      assert {SendGreIpv4Header} + {SendSinglePkts} == {SendGreIpv4Header, SendSinglePkts};
    case EnableGreEth(on) => TunnelSwitch(word, seqCnt, on, SendGreEtherHeader, {SendSinglePkts});
      assert {SendGreEtherHeader} + {SendSinglePkts} == {SendGreEtherHeader, SendSinglePkts};
  }

  lemma CommandIsSound(word: FlagWord, seqCnt: nat, cmd: Command)
    requires AtRest(word, seqCnt)
    ensures Sound(word, seqCnt, Program(cmd))
  {
    match cmd
    case EnableRandom(on) => RandomIsSound(word, seqCnt, on);
    case EnablePcap(on, loaded) => PcapIsSound(word, seqCnt, on, loaded);
    case EnableQinq(on) => QinqIsSound(word, seqCnt, on);
    case SetSeqCnt(cnt) => SeqCntIsSound(word, seqCnt, cnt);
    case EnableRange(on) => RangeIsSound(word, seqCnt, on);
    case EnableLatency(on) =>
      OneBitIsSound(word, seqCnt, if on then SetBits({SendLatencyPkts}) else ClrBits({SendLatencyPkts}));
    case Start(forever) => StartIsSound(word, seqCnt, forever);
    case Stop =>
      StopIsSound(word, seqCnt, []);
      assert Program(cmd) == StopProgram() + [];
    case Prime => OneBitIsSound(word, seqCnt, SetBits({SendingPackets}));
    case Reset => ResetIsSound(word, seqCnt, LatencyProgram(false) + SeqCntProgram(0));
    case SetOther(flag, on) =>
      if flag !in MODES {
        OneBitIsSound(word, seqCnt, if on then SetBits({flag}) else ClrBits({flag}));
      }
    case _ => TunnelIsSound(word, seqCnt, cmd);
  }

  // --- over every run

  lemma StepKeepsSound(s: PortState, step: Step)
    requires Enabled(s, step) && Sound(s.word, s.seqCnt, s.todo)
    ensures Sound(Next(s, step).word, Next(s, step).seqCnt, Next(s, step).todo)
  {
    match step
    case Begin(cmd) => CommandIsSound(s.word, s.seqCnt, cmd);
    case Act =>
      if |s.todo| > 1 {
        assert s.todo[1..][1..] == s.todo[2..];
      }
    case WorkerClears(mask) =>
      WorkerMasks();
      ClearsOutside(s.word, mask, MODES);
      SoundForModes(s.word, s.word - mask, s.seqCnt, s.todo);
  }

  lemma {:induction false} RunKeepsSound(s: PortState, steps: seq<Step>)
    requires Legal(s, steps) && Sound(s.word, s.seqCnt, s.todo)
    ensures var e := Run(s, steps); Sound(e.word, e.seqCnt, e.todo)
    decreases |steps|
  {
    if steps != [] {
      StepKeepsSound(s, steps[0]);
      RunKeepsSound(Next(s, steps[0]), steps[1..]);
    }
  }

  /** However commands and worker clears interleave, at most one tunnel and at most one of PCAP,
      RANGE and SEQ are ever on; between commands a send mode is on and SEQ has 1..16 packets. */
  lemma ModesStayConsistent(steps: seq<Step>)
    requires Legal(INITIAL, steps)
    ensures var e := Run(INITIAL, steps);
            Exclusive(e.word) && (e.todo == [] ==> AtRest(e.word, e.seqCnt))
  {
    assert SendSinglePkts in INITIAL.word * EXCLUSIVE_MODES;
    assert Sound(INITIAL.word, INITIAL.seqCnt, INITIAL.todo);
    RunKeepsSound(INITIAL, steps);
  }

  /** The same, bit by bit. */
  lemma ModesBitByBit(steps: seq<Step>, a: Flag, b: Flag)
    requires Legal(INITIAL, steps) && a != b
    ensures var e := Run(INITIAL, steps);
      && (a in {SendVlanId, SendMplsLabel, SendQInQIds, SendGreIpv4Header, SendGreEtherHeader, SendVxlanPackets} &&
          b in {SendVlanId, SendMplsLabel, SendQInQIds, SendGreIpv4Header, SendGreEtherHeader, SendVxlanPackets}
          ==> !(a in e.word && b in e.word))
      && (a in {SendPcapPkts, SendRangePkts, SendSeqPkts} && b in {SendPcapPkts, SendRangePkts, SendSeqPkts}
          ==> !(a in e.word && b in e.word))
      && (e.todo == [] ==> exists m :: m in e.word && m in {SendSinglePkts, SendPcapPkts, SendRangePkts, SendSeqPkts})
      && (e.todo == [] ==> e.seqCnt <= 16 && (SendSeqPkts in e.word ==> 1 <= e.seqCnt))
  {
    ModesStayConsistent(steps);
    var e := Run(INITIAL, steps);
    if e.todo == [] {
      var m :| m in e.word * EXCLUSIVE_MODES;
      assert m in e.word && m in {SendSinglePkts, SendPcapPkts, SendRangePkts, SendSeqPkts};
    }
  }

  /** In the middle of a command no send mode need be on. */
  lemma NoModeInsideACommand()
    ensures var steps := [Begin(SetSeqCnt(3)), Act, Act];
            Legal(INITIAL, steps) && !Tst(Run(INITIAL, steps).word, EXCLUSIVE_MODES)
  {
    var steps := [Begin(SetSeqCnt(3)), Act, Act];
    var s1 := Next(INITIAL, steps[0]);
    var s2 := Next(s1, Act);
    var s3 := Next(s2, Act);
    assert steps[1..] == [Act, Act] && steps[1..][1..] == [Act] && steps[1..][1..][1..] == [];
    assert s3.word * EXCLUSIVE_MODES == {};
  }
}
