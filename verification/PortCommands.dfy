/** The mode commands as they are written: methods that update a port's flag word and seqCnt
    (app/pktgen-cmds.c). Run with no worker in between, each does what its program does, and
    leaves a port at rest. */
module PortCommands {
  import opened Constants
  import opened PortFlags
  import opened PortModes

  /** A program run to its end by the control thread alone. */
  ghost function Alone(word: FlagWord, seqCnt: nat, todo: seq<Action>): (FlagWord, nat)
    decreases |todo|
  {
    if todo == [] then (word, seqCnt)
    else
      var s := Acted(word, seqCnt, todo[0], todo[1..]);
      Alone(s.word, s.seqCnt, s.todo)
  }

  lemma AloneNext(word: FlagWord, seqCnt: nat, todo: seq<Action>)
    requires todo != []
    ensures var s := Acted(word, seqCnt, todo[0], todo[1..]);
            Alone(word, seqCnt, todo) == Alone(s.word, s.seqCnt, s.todo)
  {
  }

  /** Set, clear and store are all there is in `todo`. */
  ghost predicate Straight(todo: seq<Action>) {
    forall a :: a in todo ==> a.Bits? || a.SetCount?
  }

  lemma {:induction false} AloneInTurn(word: FlagWord, seqCnt: nat, p: seq<Action>, q: seq<Action>)
    requires Straight(p)
    ensures Alone(word, seqCnt, p + q) ==
            (var mid := Alone(word, seqCnt, p); Alone(mid.0, mid.1, q))
    decreases |p|
  {
    if p == [] {
      assert p + q == q;
    } else {
      assert (p + q)[1..] == p[1..] + q;
      var s := Acted(word, seqCnt, p[0], p[1..]);
      AloneInTurn(s.word, s.seqCnt, p[1..], q);
    }
  }

  lemma AloneTwo(word: FlagWord, seqCnt: nat, a: FlagOp, b: FlagOp)
    ensures Alone(word, seqCnt, [Bits(a), Bits(b)]) == (b.Effect(a.Effect(word)), seqCnt)
  {
    assert [Bits(a), Bits(b)][1..] == [Bits(b)] && [Bits(b)][1..] == [];
    AloneNext(word, seqCnt, [Bits(a), Bits(b)]);
    AloneNext(a.Effect(word), seqCnt, [Bits(b)]);
  }

  lemma {:induction false} SoundEndsAtRest(word: FlagWord, seqCnt: nat, todo: seq<Action>)
    requires Sound(word, seqCnt, todo)
    ensures var end := Alone(word, seqCnt, todo); AtRest(end.0, end.1)
    decreases |todo|
  {
    if todo != [] {
      var s := Acted(word, seqCnt, todo[0], todo[1..]);
      if |todo| > 1 {
        assert todo[1..][1..] == todo[2..];
      }
      SoundEndsAtRest(s.word, s.seqCnt, s.todo);
    }
  }

  lemma SeqCntAlone(word: FlagWord, seqCnt: nat, count: nat)
    ensures var cnt := if count <= NUM_SEQ_PKTS then count else NUM_SEQ_PKTS;
            var mode := if count == 0 then SendSinglePkts else SendSeqPkts;
            Alone(word, seqCnt, SeqCntProgram(count)) == (word - EXCLUSIVE_MODES + {mode}, cnt)
  {
    var p := SeqCntProgram(count);
    AloneNext(word, seqCnt, p);
    assert p[1..] == [p[1], p[2]];
    AloneTwo(word, p[0].cnt, p[1].op, p[2].op);
  }

  lemma RangeAlone(word: FlagWord, seqCnt: nat, on: bool)
    ensures Alone(word, seqCnt, RangeProgram(on)) ==
            if on && SendingPackets in word then (word, seqCnt)
            else (word - EXCLUSIVE_MODES + (if on then {SendRangePkts} else {SendSinglePkts}), seqCnt)
  {
    var swap := [Bits(ClrBits(EXCLUSIVE_MODES)), Bits(SetBits(if on then {SendRangePkts} else {SendSinglePkts}))];
    AloneTwo(word, seqCnt, swap[0].op, swap[1].op);
    AloneNext(word, seqCnt, RangeProgram(on));
    assert on ==> RangeProgram(on)[1..] == swap;
    assert !on ==> RangeProgram(on) == swap;
  }

  /** A start, alone: nothing on a port that is sending, else SENDING_PACKETS, and SEND_FOREVER on
      top if asked for; the set-up request is gone. */
  lemma StartAlone(word: FlagWord, seqCnt: nat, forever: bool)
    ensures Alone(word, seqCnt, Program(Start(forever))) ==
            if SendingPackets in word then (word, seqCnt)
            else (word - {SetupTransmitPkts} + {SendingPackets} + (if forever then {SendForever} else {}), seqCnt)
  {
    var p := StartProgram(forever);
    AloneNext(word, seqCnt, p);
    if SendingPackets !in word {
      if forever {
        assert p[1..] == [Bits(SetBits({SendForever}))] + Sending();
        assert p[1..][1..] == Sending();
        AloneNext(word, seqCnt, p[1..]);
        SendingAlone(word + {SendForever}, seqCnt);
        assert word + {SendForever} + {SetupTransmitPkts} - {SetupTransmitPkts} + {SendingPackets}
            == word - {SetupTransmitPkts} + {SendingPackets} + {SendForever};
      } else {
        assert p[1..] == Sending();
        SendingAlone(word, seqCnt);
        assert word + {SetupTransmitPkts} - {SetupTransmitPkts} + {SendingPackets}
            == word - {SetupTransmitPkts} + {SendingPackets} + {};
      }
    }
  }

  function Sending(): seq<Action> {
    [Bits(SetBits({SetupTransmitPkts})), Bits(ClrBits({SetupTransmitPkts})), Bits(SetBits({SendingPackets}))]
  }

  lemma SendingAlone(word: FlagWord, seqCnt: nat)
    ensures Alone(word, seqCnt, Sending())
            == (word + {SetupTransmitPkts} - {SetupTransmitPkts} + {SendingPackets}, seqCnt)
  {
    var p := Sending();
    AloneNext(word, seqCnt, p);
    AloneTwo(word + {SetupTransmitPkts}, seqCnt, p[1].op, p[2].op);
    assert p[1..] == [p[1], p[2]];
  }

  /** A stop, alone, of a port that is sending, and one of a port that is not. */
  lemma StopAlone(word: FlagWord, seqCnt: nat)
    ensures Alone(word, seqCnt, Program(Stop)) ==
            (if SendingPackets in word then word - {SendingPackets, SendForever} else word, seqCnt)
  {
    var p := StopProgram();
    AloneNext(word, seqCnt, p);
    if SendingPackets in word {
      AloneNext(word, seqCnt, p[1..]);
    } else {
      assert p[1..][1..] == [];
    }
  }

  /** A command run alone leaves a port at rest that was at rest. */
  lemma CommandKeepsAtRest(word: FlagWord, seqCnt: nat, cmd: Command)
    requires AtRest(word, seqCnt)
    ensures var end := Alone(word, seqCnt, Program(cmd)); AtRest(end.0, end.1)
  {
    CommandIsSound(word, seqCnt, cmd);
    SoundEndsAtRest(word, seqCnt, Program(cmd));
  }

  lemma StillAtRest(cmd: Command, word: FlagWord, seqCnt: nat, word': FlagWord, seqCnt': nat)
    requires (word', seqCnt') == Alone(word, seqCnt, Program(cmd))
    ensures AtRest(word, seqCnt) ==> AtRest(word', seqCnt')
  {
    if AtRest(word, seqCnt) {
      CommandKeepsAtRest(word, seqCnt, cmd);
    }
  }

  /** The tunnel is the one packet mode left; the PCAP, RANGE and SEQ bits and the bits that are
      no modes are as they were. */
  ghost predicate OnlyTunnel(was: FlagWord, now: FlagWord, tunnel: Flag) {
    && now * EXCLUSIVE_PKT_MODES == {tunnel}
    && now * STREAMS == was * STREAMS
    && now - MODES == was - MODES
  }

  /** The mode is the one send mode left; every other bit is as it was. */
  ghost predicate OnlySendMode(was: FlagWord, now: FlagWord, mode: Flag) {
    && now * EXCLUSIVE_MODES == {mode}
    && now - EXCLUSIVE_MODES == was - EXCLUSIVE_MODES
  }

  /** Flag by flag: every other packet mode is off, and what is no packet mode and not the single
      send mode is untouched. */
  lemma OnlyTunnelFlag(was: FlagWord, now: FlagWord, tunnel: Flag, f: Flag)
    requires OnlyTunnel(was, now, tunnel)
    ensures tunnel in now
    ensures f == SendRandomPkts || f == SendVlanId || f == SendMplsLabel || f == SendQInQIds ==>
      (f in now <==> f == tunnel)
    ensures f == SendGreIpv4Header || f == SendGreEtherHeader || f == SendVxlanPackets || f == SendLatencyPkts ==>
      (f in now <==> f == tunnel)
    ensures f == SendPcapPkts || f == SendRangePkts || f == SendSeqPkts ==> (f in now <==> f in was)
    ensures f == SendingPackets || f == SendForever || f == SetupTransmitPkts ==> (f in now <==> f in was)
  {
    assert tunnel in now * EXCLUSIVE_PKT_MODES;
    assert f in EXCLUSIVE_PKT_MODES ==> (f in now * EXCLUSIVE_PKT_MODES <==> f in now);
    assert f in STREAMS ==> (f in now * STREAMS <==> f in now) && (f in was * STREAMS <==> f in was);
    assert f !in MODES ==> (f in now - MODES <==> f in now) && (f in was - MODES <==> f in was);
  }

  /** Every other send mode is off, and nothing else is touched. */
  lemma OnlySendModeFlag(was: FlagWord, now: FlagWord, mode: Flag, f: Flag)
    requires OnlySendMode(was, now, mode)
    ensures mode in now
    ensures if f == SendSinglePkts || f == SendPcapPkts || f == SendRangePkts || f == SendSeqPkts
            then f in now <==> f == mode else f in now <==> f in was
  {
    assert mode in now * EXCLUSIVE_MODES;
    assert f in EXCLUSIVE_MODES ==> (f in now * EXCLUSIVE_MODES <==> f in now);
    assert f !in EXCLUSIVE_MODES ==> (f in now - EXCLUSIVE_MODES <==> f in now)
                                     && (f in was - EXCLUSIVE_MODES <==> f in was);
  }

  lemma TunnelEffect(word: FlagWord, tunnel: Flag, sets: FlagWord)
    requires tunnel in TUNNELS && {tunnel} <= sets <= {tunnel, SendSinglePkts}
    ensures var now := word - EXCLUSIVE_PKT_MODES + sets;
            OnlyTunnel(word, now, tunnel)
            && now * EXCLUSIVE_MODES == word * EXCLUSIVE_MODES + (sets - {tunnel})
  {
    GroupsApart();
  }

  lemma SendModeEffect(word: FlagWord, mode: Flag)
    requires mode in EXCLUSIVE_MODES
    ensures OnlySendMode(word, word - EXCLUSIVE_MODES + {mode}, mode)
  {
  }

  /** What the four parts of a reset do to the word, in turn. */
  lemma ResetEffect(w0: FlagWord, w1: FlagWord, w2: FlagWord, w3: FlagWord, w4: FlagWord)
    requires SendingPackets !in w1 && w1 - {SendingPackets, SendForever} == w0 - {SendingPackets, SendForever}
    requires OnlySendMode(w1, w2, SendSinglePkts)
    requires SendLatencyPkts !in w3 && w3 - {SendLatencyPkts} == w2 - {SendLatencyPkts}
    requires OnlySendMode(w3, w4, SendSinglePkts)
    ensures w4 * EXCLUSIVE_MODES == {SendSinglePkts}
    ensures SendingPackets !in w4 && SendLatencyPkts !in w4
    ensures w4 * TUNNELS == w0 * TUNNELS
  {
    SameOutside(w0, w1, {SendingPackets, SendForever});
    SameOutside(w1, w2, EXCLUSIVE_MODES);
    SameOutside(w2, w3, {SendLatencyPkts});
    SameOutside(w3, w4, EXCLUSIVE_MODES);
  }

  lemma SameOutside(v: FlagWord, w: FlagWord, mask: FlagWord)
    requires v - mask == w - mask
    ensures forall f :: f !in mask ==> (f in v <==> f in w)
  {
    assert forall f :: f !in mask ==> (f in v - mask <==> f in v) && (f in w - mask <==> f in w);
  }

  class PortInfo {
    var portFlags: FlagWord
    var seqCnt: nat

    ghost predicate Did(cmd: Command, word: FlagWord, cnt: nat)
      reads this
    {
      (portFlags, seqCnt) == Alone(word, cnt, Program(cmd))
    }

    /** The two accesses that take one send mode for another. */
    method SwapMode(mode: Flag)
      requires mode in EXCLUSIVE_MODES
      modifies this`portFlags
      ensures portFlags == old(portFlags) - EXCLUSIVE_MODES + {mode}
      ensures OnlySendMode(old(portFlags), portFlags, mode)
    {
      SendModeEffect(portFlags, mode);
      portFlags := portFlags - EXCLUSIVE_MODES;
      portFlags := portFlags + {mode};
    }

    method EnableRandom(on: bool)
      modifies this
      ensures on ==> SendRandomPkts in portFlags
      ensures on ==> OnlySendMode(old(portFlags) + {SendRandomPkts}, portFlags, SendSinglePkts)
      ensures !on ==> portFlags == old(portFlags) - {SendRandomPkts}
      ensures seqCnt == old(seqCnt)
      ensures Did(Command.EnableRandom(on), old(portFlags), old(seqCnt))
      ensures old(AtRest(portFlags, seqCnt)) ==> AtRest(portFlags, seqCnt)
    {
      ghost var w, c := portFlags, seqCnt;
      AloneTwo(portFlags, seqCnt, ClrBits(EXCLUSIVE_MODES), SetBits({SendRandomPkts, SendSinglePkts}));
      if on {
        portFlags := portFlags - EXCLUSIVE_MODES;
        portFlags := portFlags + {SendRandomPkts, SendSinglePkts};
      } else {
        portFlags := portFlags - {SendRandomPkts};
      }
      StillAtRest(Command.EnableRandom(on), w, c, portFlags, seqCnt);
    }

    /** `loaded`: the port has a PCAP file with packets in it. */
    method EnablePcap(on: bool, loaded: bool)
      modifies this
      ensures loaded ==> OnlySendMode(old(portFlags), portFlags, if on then SendPcapPkts else SendSinglePkts)
      ensures !loaded ==> portFlags == old(portFlags)
      ensures seqCnt == old(seqCnt)
      ensures Did(Command.EnablePcap(on, loaded), old(portFlags), old(seqCnt))
      ensures old(AtRest(portFlags, seqCnt)) ==> AtRest(portFlags, seqCnt)
    {
      ghost var w, c := portFlags, seqCnt;
      if loaded {
        AloneTwo(portFlags, seqCnt, ClrBits(EXCLUSIVE_MODES),
                 SetBits(if on then {SendPcapPkts} else {SendSinglePkts}));
        if on {
          SwapMode(SendPcapPkts);
        } else {
          SwapMode(SendSinglePkts);
        }
      }
      StillAtRest(Command.EnablePcap(on, loaded), w, c, portFlags, seqCnt);
    }

    method EnableVxlan(on: bool)
      modifies this
      ensures on ==> OnlyTunnel(old(portFlags), portFlags, SendVxlanPackets)
      ensures portFlags * EXCLUSIVE_MODES == old(portFlags) * EXCLUSIVE_MODES
      ensures !on ==> portFlags == old(portFlags) - {SendVxlanPackets}
      ensures seqCnt == old(seqCnt)
      ensures Did(Command.EnableVxlan(on), old(portFlags), old(seqCnt))
      ensures old(AtRest(portFlags, seqCnt)) ==> AtRest(portFlags, seqCnt)
    {
      ghost var w, c := portFlags, seqCnt;
      TunnelEffect(portFlags, SendVxlanPackets, {SendVxlanPackets});
      AloneTwo(portFlags, seqCnt, ClrBits(EXCLUSIVE_PKT_MODES), SetBits({SendVxlanPackets}));
      if on {
        portFlags := portFlags - EXCLUSIVE_PKT_MODES;
        portFlags := portFlags + {SendVxlanPackets};
      } else {
        portFlags := portFlags - {SendVxlanPackets};
      }
      StillAtRest(Command.EnableVxlan(on), w, c, portFlags, seqCnt);
    }

    method EnableVlan(on: bool)
      modifies this
      ensures on ==> OnlyTunnel(old(portFlags), portFlags, SendVlanId) && SendSinglePkts in portFlags
      ensures !on ==> portFlags == old(portFlags) - {SendVlanId}
      ensures seqCnt == old(seqCnt)
      ensures Did(Command.EnableVlan(on), old(portFlags), old(seqCnt))
      ensures old(AtRest(portFlags, seqCnt)) ==> AtRest(portFlags, seqCnt)
    {
      ghost var w, c := portFlags, seqCnt;
      TunnelEffect(portFlags, SendVlanId, {SendVlanId, SendSinglePkts});
      AloneTwo(portFlags, seqCnt, ClrBits(EXCLUSIVE_PKT_MODES), SetBits({SendVlanId, SendSinglePkts}));
      if on {
        portFlags := portFlags - EXCLUSIVE_PKT_MODES;
        portFlags := portFlags + {SendVlanId, SendSinglePkts};
      } else {
        portFlags := portFlags - {SendVlanId};
      }
      StillAtRest(Command.EnableVlan(on), w, c, portFlags, seqCnt);
    }

    method EnableMpls(on: bool)
      modifies this
      ensures on ==> OnlyTunnel(old(portFlags), portFlags, SendMplsLabel) && SendSinglePkts in portFlags
      ensures !on ==> portFlags == old(portFlags) - {SendMplsLabel}
      ensures seqCnt == old(seqCnt)
      ensures Did(Command.EnableMpls(on), old(portFlags), old(seqCnt))
      ensures old(AtRest(portFlags, seqCnt)) ==> AtRest(portFlags, seqCnt)
    {
      ghost var w, c := portFlags, seqCnt;
      TunnelEffect(portFlags, SendMplsLabel, {SendMplsLabel, SendSinglePkts});
      AloneTwo(portFlags, seqCnt, ClrBits(EXCLUSIVE_PKT_MODES), SetBits({SendMplsLabel, SendSinglePkts}));
      if on {
        portFlags := portFlags - EXCLUSIVE_PKT_MODES;
        portFlags := portFlags + {SendMplsLabel, SendSinglePkts};
      } else {
        portFlags := portFlags - {SendMplsLabel};
      }
      StillAtRest(Command.EnableMpls(on), w, c, portFlags, seqCnt);
    }

    method EnableQinq(on: bool)
      modifies this
      ensures on ==> portFlags * MODES == {SendQInQIds, SendSinglePkts} && portFlags - MODES == old(portFlags) - MODES
      ensures !on ==> portFlags == old(portFlags) - {SendQInQIds}
      ensures seqCnt == old(seqCnt)
      ensures Did(Command.EnableQinq(on), old(portFlags), old(seqCnt))
      ensures old(AtRest(portFlags, seqCnt)) ==> AtRest(portFlags, seqCnt)
    {
      ghost var w, c := portFlags, seqCnt;
      if on {
        ghost var p := Program(Command.EnableQinq(on));
        AloneNext(portFlags, seqCnt, p);
        assert p[1..] == [Bits(ClrBits(EXCLUSIVE_PKT_MODES)), Bits(SetBits({SendQInQIds, SendSinglePkts}))];
        AloneTwo(portFlags - EXCLUSIVE_MODES, seqCnt, ClrBits(EXCLUSIVE_PKT_MODES),
                 SetBits({SendQInQIds, SendSinglePkts}));
        portFlags := portFlags - EXCLUSIVE_MODES;
        portFlags := portFlags - EXCLUSIVE_PKT_MODES;
        portFlags := portFlags + {SendQInQIds, SendSinglePkts};
      } else {
        portFlags := portFlags - {SendQInQIds};
      }
      StillAtRest(Command.EnableQinq(on), w, c, portFlags, seqCnt);
    }

    method EnableGre(on: bool)
      modifies this
      ensures on ==> OnlyTunnel(old(portFlags), portFlags, SendGreIpv4Header) && SendSinglePkts in portFlags
      ensures !on ==> portFlags == old(portFlags) - {SendGreIpv4Header}
      ensures seqCnt == old(seqCnt)
      ensures Did(Command.EnableGre(on), old(portFlags), old(seqCnt))
      ensures old(AtRest(portFlags, seqCnt)) ==> AtRest(portFlags, seqCnt)
    {
      ghost var w, c := portFlags, seqCnt;
      TunnelEffect(portFlags, SendGreIpv4Header, {SendGreIpv4Header, SendSinglePkts});
      AloneTwo(portFlags, seqCnt, ClrBits(EXCLUSIVE_PKT_MODES), SetBits({SendGreIpv4Header, SendSinglePkts}));
      if on {
        portFlags := portFlags - EXCLUSIVE_PKT_MODES;
        portFlags := portFlags + {SendGreIpv4Header, SendSinglePkts};
      } else {
        portFlags := portFlags - {SendGreIpv4Header};
      }
      StillAtRest(Command.EnableGre(on), w, c, portFlags, seqCnt);
    }

    method EnableGreEth(on: bool)
      modifies this
      ensures on ==> OnlyTunnel(old(portFlags), portFlags, SendGreEtherHeader) && SendSinglePkts in portFlags
      ensures !on ==> portFlags == old(portFlags) - {SendGreEtherHeader}
      ensures seqCnt == old(seqCnt)
      ensures Did(Command.EnableGreEth(on), old(portFlags), old(seqCnt))
      ensures old(AtRest(portFlags, seqCnt)) ==> AtRest(portFlags, seqCnt)
    {
      ghost var w, c := portFlags, seqCnt;
      TunnelEffect(portFlags, SendGreEtherHeader, {SendGreEtherHeader, SendSinglePkts});
      AloneTwo(portFlags, seqCnt, ClrBits(EXCLUSIVE_PKT_MODES), SetBits({SendGreEtherHeader, SendSinglePkts}));
      if on {
        portFlags := portFlags - EXCLUSIVE_PKT_MODES;
        portFlags := portFlags + {SendGreEtherHeader, SendSinglePkts};
      } else {
        portFlags := portFlags - {SendGreEtherHeader};
      }
      StillAtRest(Command.EnableGreEth(on), w, c, portFlags, seqCnt);
    }

    method SetPortSeqCnt(count: nat)
      modifies this
      ensures OnlySendMode(old(portFlags), portFlags, if count == 0 then SendSinglePkts else SendSeqPkts)
      ensures seqCnt == if count <= NUM_SEQ_PKTS then count else NUM_SEQ_PKTS
      ensures Did(Command.SetSeqCnt(count), old(portFlags), old(seqCnt))
      ensures old(AtRest(portFlags, seqCnt)) ==> AtRest(portFlags, seqCnt)
    {
      ghost var w, c := portFlags, seqCnt;
      SeqCntAlone(portFlags, seqCnt, count);
      var cnt := count;
      if cnt > NUM_SEQ_PKTS {
        cnt := NUM_SEQ_PKTS;
      }
      seqCnt := cnt;
      if cnt != 0 {
        SwapMode(SendSeqPkts);
      } else {
        SwapMode(SendSinglePkts);
      }
      StillAtRest(Command.SetSeqCnt(count), w, c, portFlags, seqCnt);
    }

    method EnableRange(on: bool)
      modifies this
      ensures if on && SendingPackets in old(portFlags) then portFlags == old(portFlags)
              else OnlySendMode(old(portFlags), portFlags, if on then SendRangePkts else SendSinglePkts)
      ensures seqCnt == old(seqCnt)
      ensures Did(Command.EnableRange(on), old(portFlags), old(seqCnt))
      ensures old(AtRest(portFlags, seqCnt)) ==> AtRest(portFlags, seqCnt)
    {
      ghost var w, c := portFlags, seqCnt;
      RangeAlone(portFlags, seqCnt, on);
      if on {
        if SendingPackets in portFlags {
          return;
        }
        SwapMode(SendRangePkts);
      } else {
        SwapMode(SendSinglePkts);
      }
      StillAtRest(Command.EnableRange(on), w, c, portFlags, seqCnt);
    }

    method EnableLatency(on: bool)
      modifies this
      ensures SendLatencyPkts in portFlags <==> on
      ensures portFlags - {SendLatencyPkts} == old(portFlags) - {SendLatencyPkts} && seqCnt == old(seqCnt)
      ensures Did(Command.EnableLatency(on), old(portFlags), old(seqCnt))
      ensures old(AtRest(portFlags, seqCnt)) ==> AtRest(portFlags, seqCnt)
    {
      ghost var w, c := portFlags, seqCnt;
      if on {
        portFlags := portFlags + {SendLatencyPkts};
      } else {
        portFlags := portFlags - {SendLatencyPkts};
      }
      StillAtRest(Command.EnableLatency(on), w, c, portFlags, seqCnt);
    }

    method StopTransmitting()
      modifies this
      ensures SendingPackets !in portFlags
      ensures SendingPackets in old(portFlags) ==> SendForever !in portFlags
      ensures SendingPackets !in old(portFlags) ==> portFlags == old(portFlags)
      ensures portFlags - {SendingPackets, SendForever} == old(portFlags) - {SendingPackets, SendForever}
      ensures seqCnt == old(seqCnt)
      ensures Did(Command.Stop, old(portFlags), old(seqCnt))
      ensures old(AtRest(portFlags, seqCnt)) ==> AtRest(portFlags, seqCnt)
    {
      ghost var w, c := portFlags, seqCnt;
      AloneNext(portFlags, seqCnt, StopProgram());
      assert StopProgram()[1..] == [StopProgram()[1]];
      if SendingPackets in portFlags {
        portFlags := portFlags - {SendingPackets, SendForever};
      }
      StillAtRest(Command.Stop, w, c, portFlags, seqCnt);
    }

    /** pktgen_reset's stores to the flag word and seqCnt. */
    method ResetPort()
      modifies this
      ensures portFlags * EXCLUSIVE_MODES == {SendSinglePkts} && seqCnt == 0
      ensures SendingPackets !in portFlags && SendLatencyPkts !in portFlags
      ensures portFlags * TUNNELS == old(portFlags) * TUNNELS
      ensures Did(Command.Reset, old(portFlags), old(seqCnt))
      ensures old(AtRest(portFlags, seqCnt)) ==> AtRest(portFlags, seqCnt)
    {
      ghost var w0, c0 := portFlags, seqCnt;
      StopTransmitting();
      ghost var w1, c1 := portFlags, seqCnt;
      seqCnt := 0;                     // pktgen_port_defaults
      EnableRange(false);
      ghost var w2, c2 := portFlags, seqCnt;
      EnableLatency(false);
      ghost var w3, c3 := portFlags, seqCnt;
      SetPortSeqCnt(0);
      ResetEffect(w0, w1, w2, w3, portFlags);
      ResetDid(w0, c0, w1, c1, w2, c2, w3, c3);
      StillAtRest(Command.Reset, w0, c0, portFlags, seqCnt);
    }
  }

  lemma ResetDid(w0: FlagWord, c0: nat, w1: FlagWord, c1: nat, w2: FlagWord, c2: nat, w3: FlagWord, c3: nat)
    requires (w1, c1) == Alone(w0, c0, Program(Stop))
    requires (w2, c2) == Alone(w1, 0, Program(Command.EnableRange(false)))
    requires (w3, c3) == Alone(w2, c2, Program(Command.EnableLatency(false)))
    ensures Alone(w0, c0, Program(Reset)) == Alone(w3, c3, Program(SetSeqCnt(0)))
  {
    assert Program(Reset) == ResetProgram() && Program(SetSeqCnt(0)) == SeqCntProgram(0);
    ResetInTurn(w0, c0, w1, c1, w2, c2, w3, c3);
  }

  lemma ResetInTurn(w0: FlagWord, c0: nat, w1: FlagWord, c1: nat, w2: FlagWord, c2: nat, w3: FlagWord, c3: nat)
    requires (w1, c1) == Alone(w0, c0, StopProgram())
    requires (w2, c2) == Alone(w1, 0, RangeProgram(false))
    requires (w3, c3) == Alone(w2, c2, LatencyProgram(false))
    ensures Alone(w0, c0, ResetProgram()) == Alone(w3, c3, SeqCntProgram(0))
  {
    var p, q, last := RangeProgram(false), LatencyProgram(false), SeqCntProgram(0);
    StopInTurn(w0, c0, w1, c1, [SetCount(0)] + (p + (q + last)));
    CountThenTwo(w1, c1, p, q, last, w2, c2, w3, c3);
  }

  lemma CountThenTwo(w1: FlagWord, c1: nat, p: seq<Action>, q: seq<Action>, last: seq<Action>,
                     w2: FlagWord, c2: nat, w3: FlagWord, c3: nat)
    requires Straight(p) && Straight(q)
    requires (w2, c2) == Alone(w1, 0, p) && (w3, c3) == Alone(w2, c2, q)
    ensures Alone(w1, c1, [SetCount(0)] + (p + (q + last))) == Alone(w3, c3, last)
  {
    var rest := p + (q + last);
    assert ([SetCount(0)] + rest)[1..] == rest;
    AloneNext(w1, c1, [SetCount(0)] + rest);
    AloneInTurn(w1, 0, p, q + last);
    AloneInTurn(w2, c2, q, last);
  }

  lemma StopInTurn(w0: FlagWord, c0: nat, w1: FlagWord, c1: nat, q: seq<Action>)
    requires Alone(w0, c0, StopProgram()) == (w1, c1)
    ensures Alone(w0, c0, StopProgram() + q) == Alone(w1, c1, q)
  {
    var todo, clear := StopProgram() + q, StopProgram()[1];
    assert todo[1..] == [clear] + q && ([clear] + q)[1..] == q;
    assert StopProgram()[1..] == [clear];
    AloneNext(w0, c0, todo);
    AloneNext(w0, c0, StopProgram());
  }
}
