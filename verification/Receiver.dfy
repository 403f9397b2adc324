/** The finished packet as a receiver parses it: every field at the byte offset where its standard
    puts it, in network order (IEEE 802.3 and 802.1Q, RFC 3032, RFC 791, RFC 8200, RFC 9293, RFC 768). */
module Receiver {
  import opened Bytes
  import opened Checksum
  import opened Constants
  import opened Headers
  import opened PortFlags

  // --- reading

  function U16(s: seq<byte>, off: nat): nat
    requires off + 2 <= |s|
  {
    s[off] as int * 256 + s[off + 1] as int
  }

  function U32(s: seq<byte>, off: nat): nat
    requires off + 4 <= |s|
  {
    U16(s, off) * 0x1_0000 + U16(s, off + 2)
  }

  lemma Read16(s: seq<byte>, off: nat, n: nat)
    requires n < TWO_16 && Field(s, off, Be16(n))
    ensures off + 2 <= |s| && U16(s, off) == n
  {
    assert s[off] == Be16(n)[0] && s[off + 1] == Be16(n)[1];
  }

  lemma Read32(s: seq<byte>, off: nat, n: nat)
    requires n < TWO_32 && Field(s, off, Be32(n))
    ensures off + 4 <= |s| && U32(s, off) == n
  {
    Split(s, off, Be16(n / TWO_16), Be16(n % TWO_16));
    Read16(s, off, n / TWO_16);
    Read16(s, off + 2, n % TWO_16);
  }

  /** A field of two parts. */
  lemma Split(s: seq<byte>, off: nat, a: seq<byte>, b: seq<byte>)
    requires Field(s, off, a + b)
    ensures Field(s, off, a) && Field(s, off + |a|, b)
  {
    assert forall k :: 0 <= k < |a| ==> (a + b)[k] == a[k];
    assert forall k :: 0 <= k < |b| ==> (a + b)[|a| + k] == b[k];
  }

  lemma Bytes4(s: seq<byte>, off: nat, a: byte, b: byte, c: byte, d: byte)
    requires Field(s, off, [a, b, c, d])
    ensures off + 4 <= |s| && s[off] == a && s[off + 1] == b && s[off + 2] == c && s[off + 3] == d
  {
    var bs := [a, b, c, d];
    assert s[off] == bs[0] && s[off + 1] == bs[1] && s[off + 2] == bs[2] && s[off + 3] == bs[3];
  }

  // --- Ethernet

  lemma AddressesParsed(s: seq<byte>, flags: FlagWord, pkt: PktSeq)
    requires pkt.Valid() && EtherBuilt(s, flags, pkt)
    ensures |s| >= 14 && s[0..6] == pkt.dstMac && s[6..12] == pkt.srcMac
    ensures U16(s, 12) == OuterType(flags, pkt)
  {
    FieldSlice(s, 0, pkt.dstMac);
    FieldSlice(s, 6, pkt.srcMac);
    Read16(s, 12, OuterType(flags, pkt));
  }

  /** Without a tag: the L3 type follows the addresses. */
  lemma UntaggedParsed(s: seq<byte>, flags: FlagWord, pkt: PktSeq)
    requires pkt.Valid() && EtherBuilt(s, flags, pkt)
    requires SendVlanId !in flags && SendMplsLabel !in flags && SendQInQIds !in flags
    ensures |s| >= 14 && s[0..6] == pkt.dstMac && s[6..12] == pkt.srcMac
    ensures U16(s, 12) == if pkt.l3 == IPv4 then 0x0800 else 0x86DD
  {
    AddressesParsed(s, flags, pkt);
  }

  lemma TciParts(pkt: PktSeq)
    requires pkt.vlanid < 4096 && pkt.cos < 8
    ensures VlanTci(pkt) < TWO_16 && VlanTci(pkt) % 4096 == pkt.vlanid && VlanTci(pkt) / 8192 == pkt.cos
  {
    assert Or3(0, pkt.cos) == pkt.cos;
    assert VlanTci(pkt) == pkt.vlanid + 8192 * pkt.cos;
  }

  /** Where the two do not disagree about the top three bits, the tag is one or the other. */
  lemma TciAsIs(pkt: PktSeq)
    requires pkt.vlanid < TWO_16 && (pkt.cos % 8 == 0 || pkt.cos % 8 == pkt.vlanid / 8192)
    ensures VlanTci(pkt) == pkt.vlanid
  {
    var top := pkt.vlanid / 8192;
    assert top < 8 && pkt.vlanid == 8192 * top + pkt.vlanid % 8192;
    assert Or3(top, top) == top && Or3(top, 0) == top;
  }

  /** A VLAN tag: the identifier in the low twelve bits, the class of service in the top three, and
      the L3 type behind it. */
  lemma VlanParsed(s: seq<byte>, flags: FlagWord, pkt: PktSeq)
    requires pkt.Valid() && EtherBuilt(s, flags, pkt)
    requires SendVlanId in flags && pkt.vlanid < 4096 && pkt.cos < 8
    ensures |s| >= 18 && s[0..6] == pkt.dstMac && s[6..12] == pkt.srcMac && U16(s, 12) == 0x8100
    ensures U16(s, 14) % 4096 == pkt.vlanid && U16(s, 14) / 8192 == pkt.cos
    ensures U16(s, 16) == if pkt.l3 == IPv4 then 0x0800 else 0x86DD
  {
    AddressesParsed(s, flags, pkt);
    TciParts(pkt);
    Split(s, 14, Be16(VlanTci(pkt)), Be16(pkt.EthType()));
    Read16(s, 14, VlanTci(pkt));
    Read16(s, 16, pkt.EthType());
  }

  lemma MplsParts(m: nat, w: nat)
    requires m < TWO_32 && w == if m / 256 % 2 == 1 then m else m + 256
    ensures w < TWO_32 && w / 512 == m / 512 && w % 256 == m % 256 && w / 256 % 2 == 1
  {
    var high, bit, low := m / 512, m / 256 % 2, m % 256;
    assert m == 512 * high + 256 * bit + low;
    assert w == 512 * high + 256 + low;
  }

  /** An MPLS label: the template's entry, its bottom-of-stack bit set. */
  lemma MplsParsed(s: seq<byte>, flags: FlagWord, pkt: PktSeq)
    requires pkt.Valid() && EtherBuilt(s, flags, pkt)
    requires SendMplsLabel in flags && SendVlanId !in flags
    ensures |s| >= 18 && s[0..6] == pkt.dstMac && s[6..12] == pkt.srcMac && U16(s, 12) == 0x8847
    ensures U32(s, 14) / 512 == pkt.mplsEntry / 512 && U32(s, 14) % 256 == pkt.mplsEntry % 256
    ensures U32(s, 14) / 256 % 2 == 1
  {
    AddressesParsed(s, flags, pkt);
    MplsParts(pkt.mplsEntry, MplsWord(pkt));
    Read32(s, 14, MplsWord(pkt));
  }

  /** Two tags: outer and inner identifier, each with its type in front, and the L3 type. */
  lemma QinqParsed(s: seq<byte>, flags: FlagWord, pkt: PktSeq)
    requires pkt.Valid() && EtherBuilt(s, flags, pkt)
    requires SendQInQIds in flags && SendVlanId !in flags && SendMplsLabel !in flags
    ensures |s| >= 22 && s[0..6] == pkt.dstMac && s[6..12] == pkt.srcMac && U16(s, 12) == 0x88A8
    ensures U16(s, 14) == pkt.qinqOuterId && U16(s, 16) == 0x8100 && U16(s, 18) == pkt.qinqInnerId
    ensures U16(s, 20) == if pkt.l3 == IPv4 then 0x0800 else 0x86DD
  {
    AddressesParsed(s, flags, pkt);
    var outer, tpid, inner := Be16(pkt.qinqOuterId), Be16(ETHER_TYPE_VLAN), Be16(pkt.qinqInnerId);
    Split(s, 14, outer + tpid + inner, Be16(pkt.EthType()));
    Split(s, 14, outer + tpid, inner);
    Split(s, 14, outer, tpid);
    Read16(s, 14, pkt.qinqOuterId);
    Read16(s, 16, ETHER_TYPE_VLAN);
    Read16(s, 18, pkt.qinqInnerId);
    Read16(s, 20, pkt.EthType());
  }

  // --- IP

  lemma Ipv4Parsed(s: seq<byte>, l3: nat, pkt: PktSeq, ident: nat)
    requires pkt.Valid() && pkt.l3 == IPv4 && ident < TWO_16
    requires Pseudo(s, l3, pkt) && Ipv4Rest(s, l3, pkt, ident)
    ensures l3 + 20 <= |s|
    ensures s[l3] == 0x45 && s[l3 + 1] == pkt.tos
    ensures U16(s, l3 + 2) == pkt.pktSize - l3 && U16(s, l3 + 4) == ident && U16(s, l3 + 6) == 0
    ensures s[l3 + 8] == pkt.ttl && s[l3 + 9] == if pkt.l4 == TCP then 6 else 17
    ensures U32(s, l3 + 12) == pkt.srcIp4 && U32(s, l3 + 16) == pkt.dstIp4
  {
    Read16(s, l3 + 2, pkt.pktSize - l3);
    Read16(s, l3 + 4, ident);
    Read16(s, l3 + 6, 0);
    Read32(s, l3 + 12, pkt.srcIp4);
    Read32(s, l3 + 16, pkt.dstIp4);
  }

  lemma Ipv6Parsed(s: seq<byte>, l3: nat, pkt: PktSeq)
    requires pkt.Valid() && pkt.l3 == IPv6 && Pseudo(s, l3, pkt) && Ipv6Rest(s, l3, pkt)
    ensures l3 + 40 <= |s|
    ensures s[l3] / 16 == 6 && s[l3] % 16 * 16 + s[l3 + 1] / 16 == pkt.tos
    ensures s[l3 + 1] % 16 == 0 && s[l3 + 2] == 0 && s[l3 + 3] == 0
    ensures U16(s, l3 + 4) == pkt.pktSize - l3 - 40
    ensures s[l3 + 6] == (if pkt.l4 == TCP then 6 else 17) && s[l3 + 7] == pkt.ttl
    ensures s[l3 + 8..l3 + 24] == pkt.srcIp6 && s[l3 + 24..l3 + 40] == pkt.dstIp6
  {
    Bytes4(s, l3, 0x60 + pkt.tos / 16, pkt.tos % 16 * 16, 0, 0);
    Read16(s, l3 + 4, pkt.pktSize - l3 - 40);
    FieldSlice(s, l3 + 8, pkt.srcIp6);
    FieldSlice(s, l3 + 24, pkt.dstIp6);
  }

  // --- L4

  lemma TcpParsed(s: seq<byte>, l4: nat, pkt: PktSeq, len: nat)
    requires pkt.Valid() && pkt.l4 == TCP && L4Built(s, l4, pkt, len)
    ensures l4 + 20 <= |s|
    ensures U16(s, l4) == pkt.sport && U16(s, l4 + 2) == pkt.dport
    ensures U32(s, l4 + 4) == pkt.tcpSeq && U32(s, l4 + 8) == pkt.tcpAck
    ensures s[l4 + 12] == 5 * 16 && s[l4 + 13] == pkt.tcpFlags % 256
    ensures U16(s, l4 + 14) == 8192 && U16(s, l4 + 18) == 0
  {
    var sp, dp, sq, ak := Be16(pkt.sport), Be16(pkt.dport), Be32(pkt.tcpSeq), Be32(pkt.tcpAck);
    var off: seq<byte> := [0x50, pkt.tcpFlags % 256];
    Split(s, l4, sp + dp + sq + ak + off, Be16(DEFAULT_WND_SIZE));
    Split(s, l4, sp + dp + sq + ak, off);
    Split(s, l4, sp + dp + sq, ak);
    Split(s, l4, sp + dp, sq);
    Split(s, l4, sp, dp);
    TcpWords(s, l4, pkt);
    assert s[l4 + 12] == off[0] && s[l4 + 13] == off[1];
    Read16(s, l4 + 14, DEFAULT_WND_SIZE);
    Read16(s, l4 + 18, 0);
  }

  lemma TcpWords(s: seq<byte>, l4: nat, pkt: PktSeq)
    requires pkt.Valid() && Field(s, l4, Be16(pkt.sport)) && Field(s, l4 + 2, Be16(pkt.dport))
    requires Field(s, l4 + 4, Be32(pkt.tcpSeq)) && Field(s, l4 + 8, Be32(pkt.tcpAck))
    ensures l4 + 12 <= |s|
    ensures U16(s, l4) == pkt.sport && U16(s, l4 + 2) == pkt.dport
    ensures U32(s, l4 + 4) == pkt.tcpSeq && U32(s, l4 + 8) == pkt.tcpAck
  {
    Read16(s, l4, pkt.sport);
    Read16(s, l4 + 2, pkt.dport);
    Read32(s, l4 + 4, pkt.tcpSeq);
    Read32(s, l4 + 8, pkt.tcpAck);
  }

  lemma UdpParsed(s: seq<byte>, l4: nat, pkt: PktSeq, len: nat)
    requires pkt.Valid() && pkt.l4 == UDP && len < TWO_16 && L4Built(s, l4, pkt, len)
    ensures l4 + 6 <= |s|
    ensures U16(s, l4) == pkt.sport && U16(s, l4 + 2) == pkt.dport && U16(s, l4 + 4) == len
    ensures pkt.dport == 4789 && pkt.l3 == IPv4 ==> l4 + 16 <= |s| && s[l4 + 8..l4 + 16] == pkt.vxlan
  {
    var sp, dp := Be16(pkt.sport), Be16(pkt.dport);
    Split(s, l4, sp + dp, Be16(len));
    Split(s, l4, sp, dp);
    Read16(s, l4, pkt.sport);
    Read16(s, l4 + 2, pkt.dport);
    Read16(s, l4 + 4, len);
    if pkt.dport == 4789 && pkt.l3 == IPv4 {
      FieldSlice(s, l4 + 8, pkt.vxlan);
    }
  }

  // --- checksums

  lemma FourWords(bs: seq<byte>, s: seq<byte>, off: nat)
    requires off + 8 <= |s| && bs == s[off..off + 8]
    ensures WordSum(bs) == U16(s, off) + U16(s, off + 2) + U16(s, off + 4) + U16(s, off + 6)
  {
    assert WordSum(bs[2..][2..][2..][2..]) == 0;
    assert WordSum(bs[2..][2..][2..]) == U16(s, off + 6);
    assert WordSum(bs[2..][2..]) == U16(s, off + 4) + U16(s, off + 6);
  }

  /** With the checksum in software, the addresses, the protocol, the L4 length and the segment that
      a receiver reads from an IPv4 packet sum to a positive multiple of 65535; so does the IPv4
      header, and UDP has a checksum. */
  lemma Ipv4SumsUp(s: seq<byte>, l3: nat, pkt: PktSeq, ident: nat, ipOffload: bool, requiresPhdr: bool)
    requires pkt.Valid() && pkt.l3 == IPv4 && LayersBuilt(s, l3, pkt, ident, false, ipOffload, requiresPhdr)
    ensures l3 + 28 <= |s| && 20 <= U16(s, l3 + 2) && l3 + U16(s, l3 + 2) <= |s|
    ensures var sum := U16(s, l3 + 12) + U16(s, l3 + 14) + U16(s, l3 + 16) + U16(s, l3 + 18)
                       + s[l3 + 9] as int + (U16(s, l3 + 2) - 20) + WordSum(s[l3 + 20..l3 + U16(s, l3 + 2)]);
            sum > 0 && sum % 65535 == 0
    ensures pkt.l4 == UDP ==> U16(s, l3 + 26) != 0
    ensures !ipOffload ==> WordSum(s[l3..l3 + 20]) > 0 && WordSum(s[l3..l3 + 20]) % 65535 == 0
  {
    FourWords(s[l3 + 12..l3 + 20], s, l3 + 12);
    AcceptedIff(PseudoSum(s, l3, IPv4) + WordSum(s[l3 + 20..PacketEnd(s, l3, IPv4)]));
    AcceptedIff(WordSum(s[l3..l3 + 20]));
  }

  /** The same of an IPv6 packet, which has no header checksum. */
  lemma Ipv6SumsUp(s: seq<byte>, l3: nat, pkt: PktSeq, ident: nat, ipOffload: bool, requiresPhdr: bool)
    requires pkt.Valid() && pkt.l3 == IPv6 && LayersBuilt(s, l3, pkt, ident, false, ipOffload, requiresPhdr)
    ensures l3 + 48 <= |s| && l3 + 40 + U16(s, l3 + 4) <= |s|
    ensures var sum := WordSum(s[l3 + 8..l3 + 40]) + s[l3 + 6] as int + U16(s, l3 + 4)
                       + WordSum(s[l3 + 40..l3 + 40 + U16(s, l3 + 4)]);
            sum > 0 && sum % 65535 == 0
    ensures pkt.l4 == UDP ==> U16(s, l3 + 46) != 0
  {
    AcceptedIff(PseudoSum(s, l3, IPv6) + WordSum(s[l3 + 40..PacketEnd(s, l3, IPv6)]));
  }

  lemma TwoWords(n: nat)
    requires n < TWO_32
    ensures WordSum(Be32(n)) == n / 65536 + n % 65536
  {
    var bs := Be32(n);
    assert bs[2..][2..] == [];
    assert WordSum(bs[2..]) == n % 65536;
  }

  lemma PseudoByNumbers(pkt: PktSeq, l3: nat)
    requires pkt.Valid() && pkt.l3 == IPv4 && l3 + 20 <= pkt.pktSize
    ensures PseudoOf(pkt, l3) == pkt.srcIp4 / 65536 + pkt.srcIp4 % 65536 + pkt.dstIp4 / 65536 + pkt.dstIp4 % 65536
                                 + (if pkt.l4 == TCP then 6 else 17) + (pkt.pktSize - l3 - 20)
  {
    TwoWords(pkt.srcIp4);
    TwoWords(pkt.dstIp4);
    WordSumConcat(Be32(pkt.srcIp4), Be32(pkt.dstIp4));
  }

  /** With the checksum left to the device the field is 0, or on IPv4, if the device asks for it,
      the folded sum of addresses, protocol and L4 length. */
  lemma OffloadParsed(s: seq<byte>, l3: nat, pkt: PktSeq, ident: nat, ipOffload: bool, requiresPhdr: bool)
    requires pkt.Valid() && LayersBuilt(s, l3, pkt, ident, true, ipOffload, requiresPhdr)
    ensures var field := l3 + (if pkt.l3 == IPv4 then 20 else 40) + if pkt.l4 == TCP then 16 else 6;
      && field + 2 <= |s|
      && U16(s, field) ==
         if requiresPhdr && pkt.l3 == IPv4 then
           Fold(pkt.srcIp4 / 65536 + pkt.srcIp4 % 65536 + pkt.dstIp4 / 65536 + pkt.dstIp4 % 65536
                + (if pkt.l4 == TCP then 6 else 17) + (pkt.pktSize - l3 - 20))
         else 0
  {
    var field := l3 + pkt.IpLen() + CksumOff(pkt);
    if requiresPhdr && pkt.l3 == IPv4 {
      PseudoByNumbers(pkt, l3);
      Read16(s, field, Fold(PseudoOf(pkt, l3)));
    } else {
      Read16(s, field, 0);
    }
  }

  /** What the packet constructor leaves, read by a receiver that follows the headers: with no tag,
      the IPv4 header at 14 and the ports at 34, in VXLAN mode with its port for UDP. */
  lemma PlainPacketParsed(s: seq<byte>, flags: FlagWord, pkt0: PktSeq, ident: nat,
                          l4Offload: bool, ipOffload: bool, requiresPhdr: bool)
    requires pkt0.Valid() && pkt0.l3 == IPv4 && ident < TWO_16
    requires SendVlanId !in flags && SendMplsLabel !in flags && SendQInQIds !in flags
    requires EtherBuilt(s, flags, Template(flags, pkt0))
    requires LayersBuilt(s, 14, Template(flags, pkt0), ident, l4Offload, ipOffload, requiresPhdr)
    ensures |s| >= 40 && U16(s, 12) == 0x0800 && s[14] == 0x45 && U16(s, 16) == pkt0.pktSize - 14
    ensures U32(s, 26) == pkt0.srcIp4 && U32(s, 30) == pkt0.dstIp4 && U16(s, 34) == pkt0.sport
    ensures U16(s, 36) == if SendVxlanPackets in flags && pkt0.l4 == UDP then 4789 else pkt0.dport
    ensures pkt0.l4 == UDP ==> U16(s, 38) == pkt0.pktSize - 34
  {
    var pkt := Template(flags, pkt0);
    UntaggedParsed(s, flags, pkt);
    Ipv4Parsed(s, 14, pkt, ident);
    if pkt.l4 == TCP {
      TcpParsed(s, 34, pkt, pkt.pktSize - 34);
    } else {
      UdpParsed(s, 34, pkt, pkt.pktSize - 34);
    }
  }
}
