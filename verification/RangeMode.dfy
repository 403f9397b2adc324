/** Range mode over IPv4 TCP and UDP: every packet steps all the swept fields of the port's
    template in place (app/pktgen-range.c:27-229). */
module RangeMode {
  import opened Arithmetic
  import opened RangeCycle

  const PG_IPPROTO_TCP := 6
  const PG_IPPROTO_UDP := 17
  const MIN_VLAN_ID := 1
  const MIN_COS := 0
  const MIN_TOS := 0

  datatype Field =
    | TcpSeq | TcpAck | SrcPort | DstPort | Ttl | SrcIp | DstIp | VlanId | Cos | Tos | PktSize | SrcMac | DstMac

  const FIELDS := [TcpSeq, TcpAck, SrcPort, DstPort, Ttl, SrcIp, DstIp, VlanId, Cos, Tos, PktSize, SrcMac, DstMac]

  datatype RangeInfo = RangeInfo(
    tcpSeq: Span, tcpAck: Span, srcPort: Span, dstPort: Span, ttl: Span, srcIp: Span, dstIp: Span,
    vlanId: Span, cos: Span, tos: Span, pktSize: Span, srcMac: Span, dstMac: Span)
  {
    function Of(f: Field): Span {
      match f
      case TcpSeq => tcpSeq
      case TcpAck => tcpAck
      case SrcPort => srcPort
      case DstPort => dstPort
      case Ttl => ttl
      case SrcIp => srcIp
      case DstIp => dstIp
      case VlanId => vlanId
      case Cos => cos
      case Tos => tos
      case PktSize => pktSize
      case SrcMac => srcMac
      case DstMac => dstMac
    }

    /** Every bound fits the packet field it is for, and every increment its own field. */
    ghost predicate Typed() {
      forall f: Field :: Of(f).start < Width(f) && Of(f).min < Width(f) && Of(f).max < Width(f)
                         && Of(f).inc < Modulus(f)
    }
  }

  /** Values of the temporary the step is computed in. */
  function Modulus(f: Field): (m: nat)
    ensures m > 0
  {
    match f
    case Ttl => 0x1_0000
    case SrcMac => 0x1_0000_0000_0000_0000
    case DstMac => 0x1_0000_0000_0000_0000
    case _ => 0x1_0000_0000
  }

  /** Values of the packet template's field. */
  function Width(f: Field): (w: nat)
    ensures 0 < w <= Modulus(f)
  {
    match f
    case TcpSeq => 0x1_0000_0000
    case TcpAck => 0x1_0000_0000
    case SrcIp => 0x1_0000_0000
    case DstIp => 0x1_0000_0000
    case Ttl => 0x100
    case Cos => 0x100
    case Tos => 0x100
    case SrcMac => 0x1_0000_0000_0000
    case DstMac => 0x1_0000_0000_0000
    case _ => 0x1_0000
  }

  predicate Active(f: Field, ipProto: nat) {
    ipProto == PG_IPPROTO_TCP || (ipProto == PG_IPPROTO_UDP && f != TcpSeq && f != TcpAck)
  }

  /** The stepped fields of a packet template. */
  datatype Values = Values(
    tcpSeq: nat, tcpAck: nat, srcPort: nat, dstPort: nat, ttl: nat, srcIp: nat, dstIp: nat,
    vlanId: nat, cos: nat, tos: nat, pktSize: nat, srcMac: nat, dstMac: nat)
  {
    function Of(f: Field): nat {
      match f
      case TcpSeq => tcpSeq
      case TcpAck => tcpAck
      case SrcPort => srcPort
      case DstPort => dstPort
      case Ttl => ttl
      case SrcIp => srcIp
      case DstIp => dstIp
      case VlanId => vlanId
      case Cos => cos
      case Tos => tos
      case PktSize => pktSize
      case SrcMac => srcMac
      case DstMac => dstMac
    }
  }

  /** The function's static latches, shared by every port. */
  class Latches {
    var minVlanSet: bool
    var minCosSet: bool
    var minTosSet: bool
  }

  class PktSeq {
    var tcpSeq: nat
    var tcpAck: nat
    var sport: nat
    var dport: nat
    var ttl: nat
    var ipSrc: nat
    var ipDst: nat
    var vlanid: nat
    var cos: nat
    var tos: nat
    var pktSize: nat
    var ethSrc: nat
    var ethDst: nat

    function Contents(): Values
      reads this
    {
      Values(tcpSeq, tcpAck, sport, dport, ttl, ipSrc, ipDst, vlanid, cos, tos, pktSize, ethSrc, ethDst)
    }
  }

  /** The branch every field repeats, and the store into the packet field. */
  method Step(r: RangeInfo, f: Field, v: nat) returns (stored: nat)
    requires r.Typed()
    ensures stored == Next(r.Of(f), Modulus(f), v)
  {
    var s := r.Of(f);
    if s.inc != 0 {
      var p := (v + s.inc) % Modulus(f);
      if p < s.min {
        p := s.max;
      } else if p > s.max {
        p := s.min;
      }
      DivModUnique(p, Width(f), 0, p);
      stored := p % Width(f);
    } else {
      stored := s.start;
    }
  }

  /** The value a field steps from: 0 for the first VLAN step from id 1, else what it holds. */
  function StepsFrom(f: Field, v: nat, minVlanSet: bool): nat {
    if f == VlanId && v == MIN_VLAN_ID && !minVlanSet then 0 else v
  }

  /** The first two fields, which only TCP steps. */
  method StepTcp(r: RangeInfo, pkt: PktSeq)
    requires r.Typed()
    modifies pkt`tcpSeq, pkt`tcpAck
    ensures pkt.tcpSeq == Next(r.tcpSeq, Modulus(TcpSeq), old(pkt.tcpSeq))
    ensures pkt.tcpAck == Next(r.tcpAck, Modulus(TcpAck), old(pkt.tcpAck))
  {
    pkt.tcpSeq := Step(r, TcpSeq, pkt.tcpSeq);
    pkt.tcpAck := Step(r, TcpAck, pkt.tcpAck);
  }

  method StepPortsAndAddresses(r: RangeInfo, pkt: PktSeq)
    requires r.Typed()
    modifies pkt`sport, pkt`dport, pkt`ttl, pkt`ipSrc, pkt`ipDst
    ensures pkt.sport == Next(r.srcPort, Modulus(SrcPort), old(pkt.sport))
    ensures pkt.dport == Next(r.dstPort, Modulus(DstPort), old(pkt.dport))
    ensures pkt.ttl == Next(r.ttl, Modulus(Ttl), old(pkt.ttl))
    ensures pkt.ipSrc == Next(r.srcIp, Modulus(SrcIp), old(pkt.ipSrc))
    ensures pkt.ipDst == Next(r.dstIp, Modulus(DstIp), old(pkt.ipDst))
  {
    pkt.sport := Step(r, SrcPort, pkt.sport);
    pkt.dport := Step(r, DstPort, pkt.dport);
    pkt.ttl := Step(r, Ttl, pkt.ttl);
    pkt.ipSrc := Step(r, SrcIp, pkt.ipSrc);
    pkt.ipDst := Step(r, DstIp, pkt.ipDst);
  }

  method StepTags(latches: Latches, r: RangeInfo, pkt: PktSeq)
    requires r.Typed()
    modifies latches, pkt`vlanid, pkt`cos, pkt`tos
    ensures pkt.vlanid == Next(r.vlanId, Modulus(VlanId),
                               StepsFrom(VlanId, old(pkt.vlanid), old(latches.minVlanSet)))
    ensures pkt.cos == Next(r.cos, Modulus(Cos), old(pkt.cos))
    ensures pkt.tos == Next(r.tos, Modulus(Tos), old(pkt.tos))
    ensures latches.minVlanSet ==
            (old(latches.minVlanSet) || (r.vlanId.inc != 0 && old(pkt.vlanid) == MIN_VLAN_ID))
  {
    var p := pkt.vlanid;
    if r.vlanId.inc != 0 && pkt.vlanid == MIN_VLAN_ID && !latches.minVlanSet {
      p := 0;
      latches.minVlanSet := true;
    }
    pkt.vlanid := Step(r, VlanId, p);
    p := pkt.cos;
    if r.cos.inc != 0 && pkt.cos == MIN_COS && !latches.minCosSet {
      p := 0;
      latches.minCosSet := true;
    }
    pkt.cos := Step(r, Cos, p);
    p := pkt.tos;
    if r.tos.inc != 0 && pkt.tos == MIN_TOS && !latches.minTosSet {
      p := 0;
      latches.minTosSet := true;
    }
    pkt.tos := Step(r, Tos, p);
  }

  method StepSizeAndMacs(r: RangeInfo, pkt: PktSeq)
    requires r.Typed()
    modifies pkt`pktSize, pkt`ethSrc, pkt`ethDst
    ensures pkt.pktSize == Next(r.pktSize, Modulus(PktSize), old(pkt.pktSize))
    ensures pkt.ethSrc == Next(r.srcMac, Modulus(SrcMac), old(pkt.ethSrc))
    ensures pkt.ethDst == Next(r.dstMac, Modulus(DstMac), old(pkt.ethDst))
  {
    pkt.pktSize := Step(r, PktSize, pkt.pktSize);
    pkt.ethSrc := Step(r, SrcMac, pkt.ethSrc);
    pkt.ethDst := Step(r, DstMac, pkt.ethDst);
  }

  /** The template after one TCP or UDP packet, its TCP fields aside. */
  ghost function SteppedIpv4(r: RangeInfo, v: Values, minVlanSet: bool): Values {
    v.(srcPort := Next(r.srcPort, Modulus(SrcPort), v.srcPort),
       dstPort := Next(r.dstPort, Modulus(DstPort), v.dstPort),
       ttl := Next(r.ttl, Modulus(Ttl), v.ttl),
       srcIp := Next(r.srcIp, Modulus(SrcIp), v.srcIp),
       dstIp := Next(r.dstIp, Modulus(DstIp), v.dstIp),
       vlanId := Next(r.vlanId, Modulus(VlanId), StepsFrom(VlanId, v.vlanId, minVlanSet)),
       cos := Next(r.cos, Modulus(Cos), v.cos),
       tos := Next(r.tos, Modulus(Tos), v.tos),
       pktSize := Next(r.pktSize, Modulus(PktSize), v.pktSize),
       srcMac := Next(r.srcMac, Modulus(SrcMac), v.srcMac),
       dstMac := Next(r.dstMac, Modulus(DstMac), v.dstMac))
  }

  ghost function SteppedTcp(r: RangeInfo, v: Values): Values {
    v.(tcpSeq := Next(r.tcpSeq, Modulus(TcpSeq), v.tcpSeq), tcpAck := Next(r.tcpAck, Modulus(TcpAck), v.tcpAck))
  }

  /** The template after one packet. */
  ghost function Stepped(r: RangeInfo, ipProto: nat, v: Values, minVlanSet: bool): Values {
    if ipProto == PG_IPPROTO_TCP then SteppedIpv4(r, SteppedTcp(r, v), minVlanSet)
    else if ipProto == PG_IPPROTO_UDP then SteppedIpv4(r, v, minVlanSet)
    else v
  }

  /** The fields both protocols step. */
  method StepIpv4(latches: Latches, r: RangeInfo, pkt: PktSeq)
    requires r.Typed()
    modifies latches, pkt
    ensures pkt.Contents() == SteppedIpv4(r, old(pkt.Contents()), old(latches.minVlanSet))
    ensures latches.minVlanSet ==
            (old(latches.minVlanSet) || (r.vlanId.inc != 0 && old(pkt.vlanid) == MIN_VLAN_ID))
  {
    StepPortsAndAddresses(r, pkt);
    StepTags(latches, r, pkt);
    StepSizeAndMacs(r, pkt);
  }

  predicate LatchAfter(r: RangeInfo, ipProto: nat, vlanid: nat, minVlanSet: bool) {
    minVlanSet || (Active(VlanId, ipProto) && r.vlanId.inc != 0 && vlanid == MIN_VLAN_ID)
  }

  /** pktgen_range_ctor for an IPv4 template that is not GTP-U. */
  method RangeCtor(latches: Latches, r: RangeInfo, pkt: PktSeq, ipProto: nat)
    requires r.Typed()
    modifies latches, pkt
    ensures pkt.Contents() == Stepped(r, ipProto, old(pkt.Contents()), old(latches.minVlanSet))
    ensures latches.minVlanSet == LatchAfter(r, ipProto, old(pkt.vlanid), old(latches.minVlanSet))
  {
    if ipProto == PG_IPPROTO_TCP {
      StepTcp(r, pkt);
    }
    if ipProto == PG_IPPROTO_TCP || ipProto == PG_IPPROTO_UDP {
      StepIpv4(latches, r, pkt);
    }
  }
}
