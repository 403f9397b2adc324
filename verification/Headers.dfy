/** The packet template constructors: Ethernet (app/pktgen-ether.c), UDP and TCP
    (app/pktgen-udp.c, app/pktgen-tcp.c), IPv4 and IPv6 (app/pktgen-ipv4.c, app/pktgen-ipv6.c),
    in the order the packet constructor of app/pktgen.c calls them: the L4 constructor sums over
    a half-built IP header that the IP constructor then zeroes and rebuilds. */
module Headers {
  import opened Bytes
  import opened Checksum
  import opened Constants
  import opened PortFlags

  const ETHER_HDR_LEN := 14
  const IPV4_HDR_LEN := 20
  const IPV6_HDR_LEN := 40
  const UDP_HDR_LEN := 8
  const TCP_HDR_LEN := 20
  const DEFAULT_WND_SIZE := 8192
  const VXLAN_PORT_ID := 4789
  const ETHER_TYPE_VLAN := 0x8100
  const ETHER_TYPE_MPLS := 0x8847
  const ETHER_TYPE_QINQ := 0x88A8

  datatype L3 = IPv4 | IPv6
  datatype L4 = TCP | UDP

  /** The fields of a packet template that the constructors read. */
  datatype PktSeq = PktSeq(
    dstMac: seq<byte>, srcMac: seq<byte>, l3: L3, l4: L4,
    srcIp4: nat, dstIp4: nat, srcIp6: seq<byte>, dstIp6: seq<byte>,
    sport: nat, dport: nat, tcpSeq: nat, tcpAck: nat, tcpFlags: nat,
    vlanid: nat, cos: nat, mplsEntry: nat, qinqOuterId: nat, qinqInnerId: nat,
    tos: byte, ttl: byte, pktSize: nat, vxlan: seq<byte>)
  {
    ghost predicate Valid() {
      && |dstMac| == |srcMac| == 6 && |srcIp6| == |dstIp6| == 16 && |vxlan| == 8
      && srcIp4 < TWO_32 && dstIp4 < TWO_32 && tcpSeq < TWO_32 && tcpAck < TWO_32
      && mplsEntry < TWO_32
      && sport < TWO_16 && dport < TWO_16 && pktSize < TWO_16
      && vlanid < TWO_16 && cos < 256 && qinqOuterId < TWO_16 && qinqInnerId < TWO_16
    }

    function EthType(): nat { if l3 == IPv4 then 0x0800 else 0x86DD }

    function IpProto(): byte { if l4 == TCP then 6 else 17 }

    function IpLen(): nat { if l3 == IPv4 then IPV4_HDR_LEN else IPV6_HDR_LEN }

    function L4Len(): nat { if l4 == TCP then TCP_HDR_LEN else UDP_HDR_LEN }
  }

  /** `bs` stands at offset `off` of `s`. */
  ghost predicate Field(s: seq<byte>, off: nat, bs: seq<byte>) {
    off + |bs| <= |s| && forall k :: off <= k < off + |bs| ==> s[k] == bs[k - off]
  }

  /** `t` differs from `s` at most in [lo, hi). */
  ghost predicate SameOutside(s: seq<byte>, t: seq<byte>, lo: nat, hi: nat) {
    |s| == |t| && forall k :: 0 <= k < |s| && (k < lo || hi <= k) ==> t[k] == s[k]
  }

  lemma FieldSlice(s: seq<byte>, off: nat, bs: seq<byte>)
    requires Field(s, off, bs)
    ensures s[off..off + |bs|] == bs
  {
  }

  method Put(a: array<byte>, off: nat, bs: seq<byte>)
    requires off + |bs| <= a.Length
    modifies a
    ensures Field(a[..], off, bs) && SameOutside(old(a[..]), a[..], off, off + |bs|)
  {
    WriteBytes(a, off, bs);
  }

  // --- Ethernet

  /** The bytes after the type field that the flags ask for, if any. */
  function Tag(flags: FlagWord, pkt: PktSeq): (bs: seq<byte>)
    requires pkt.Valid()
    ensures ETHER_HDR_LEN + |bs| == EtherHdrSize(flags)
  {
    if SendVlanId in flags then Be16(VlanTci(pkt)) + Be16(pkt.EthType())
    else if SendMplsLabel in flags then Be32(MplsWord(pkt))
    else if SendQInQIds in flags then
      Be16(pkt.qinqOuterId) + Be16(ETHER_TYPE_VLAN) + Be16(pkt.qinqInnerId) + Be16(pkt.EthType())
    else []
  }

  /** Both addresses, the type and the tag. */
  ghost predicate EtherBuilt(s: seq<byte>, flags: FlagWord, pkt: PktSeq)
    requires pkt.Valid()
  {
    && Field(s, 0, pkt.dstMac) && Field(s, 6, pkt.srcMac)
    && Field(s, 12, Be16(OuterType(flags, pkt))) && Field(s, ETHER_HDR_LEN, Tag(flags, pkt))
  }

  lemma EtherKept(s: seq<byte>, t: seq<byte>, flags: FlagWord, pkt: PktSeq, end: nat)
    requires pkt.Valid() && EtherBuilt(s, flags, pkt) && SameOutside(s, t, EtherHdrSize(flags), end)
    ensures EtherBuilt(t, flags, pkt)
  {
    FieldKept(s, t, 0, pkt.dstMac, EtherHdrSize(flags), end);
    FieldKept(s, t, 6, pkt.srcMac, EtherHdrSize(flags), end);
    FieldKept(s, t, 12, Be16(OuterType(flags, pkt)), EtherHdrSize(flags), end);
    FieldKept(s, t, ETHER_HDR_LEN, Tag(flags, pkt), EtherHdrSize(flags), end);
  }

  /** The branches of pktgen_ether_hdr_ctor: the first set flag decides the tag. */
  method PutTag(flags: FlagWord, pkt: PktSeq, hdr: array<byte>) returns (etherHdrSize: nat)
    requires pkt.Valid() && ETHER_HDR_LEN + 8 <= hdr.Length
    modifies hdr
    ensures etherHdrSize == EtherHdrSize(flags) && Field(hdr[..], ETHER_HDR_LEN, Tag(flags, pkt))
    ensures SameOutside(old(hdr[..]), hdr[..], ETHER_HDR_LEN, etherHdrSize)
  {
    var tag: seq<byte> := [];
    if SendVlanId in flags {
      tag := Be16(VlanTci(pkt)) + Be16(pkt.EthType());
    } else if SendMplsLabel in flags {
      tag := Be32(MplsWord(pkt));
    } else if SendQInQIds in flags {
      tag := Be16(pkt.qinqOuterId) + Be16(ETHER_TYPE_VLAN) + Be16(pkt.qinqInnerId) + Be16(pkt.EthType());
    }
    Put(hdr, ETHER_HDR_LEN, tag);
    etherHdrSize := ETHER_HDR_LEN + |tag|;
  }

  /** pktgen_ether_hdr_ctor: the result is ether_hdr_size, where the L3 header starts. The VLAN tag
      carries vlanid | cos << 13. */
  method EtherHdrCtor(flags: FlagWord, pkt: PktSeq, hdr: array<byte>) returns (etherHdrSize: nat)
    requires pkt.Valid() && ETHER_HDR_LEN + 8 <= hdr.Length
    modifies hdr
    ensures etherHdrSize == EtherHdrSize(flags) && EtherBuilt(hdr[..], flags, pkt)
    ensures SameOutside(old(hdr[..]), hdr[..], 0, etherHdrSize)
  {
    Put(hdr, 6, pkt.srcMac);
    Put(hdr, 0, pkt.dstMac);
    Put(hdr, 12, Be16(OuterType(flags, pkt)));
    ghost var s := hdr[..];
    etherHdrSize := PutTag(flags, pkt, hdr);
    FieldKept(s, hdr[..], 0, pkt.dstMac, ETHER_HDR_LEN, etherHdrSize);
    FieldKept(s, hdr[..], 6, pkt.srcMac, ETHER_HDR_LEN, etherHdrSize);
    FieldKept(s, hdr[..], 12, Be16(OuterType(flags, pkt)), ETHER_HDR_LEN, etherHdrSize);
  }

  function EtherHdrSize(flags: FlagWord): nat {
    if SendVlanId in flags || SendMplsLabel in flags then ETHER_HDR_LEN + 4
    else if SendQInQIds in flags then ETHER_HDR_LEN + 8
    else ETHER_HDR_LEN
  }

  function OuterType(flags: FlagWord, pkt: PktSeq): nat {
    if SendVlanId in flags then ETHER_TYPE_VLAN
    else if SendMplsLabel in flags then ETHER_TYPE_MPLS
    else if SendQInQIds in flags then ETHER_TYPE_QINQ
    else pkt.EthType()
  }

  /** mpls_entry | 0x100: the entry with bit 8, its bottom-of-stack bit, set. */
  function MplsWord(pkt: PktSeq): nat {
    if pkt.mplsEntry / 256 % 2 == 1 then pkt.mplsEntry else pkt.mplsEntry + 256
  }

  /** The bitwise or of two numbers of three bits. */
  function Or3(a: nat, b: nat): (r: nat)
    ensures r < 8
  {
    (if a / 4 % 2 == 1 || b / 4 % 2 == 1 then 4 else 0)
    + (if a / 2 % 2 == 1 || b / 2 % 2 == 1 then 2 else 0)
    + if a % 2 == 1 || b % 2 == 1 then 1 else 0
  }

  /** vlanid | (cos << 13) in 16 bits: the low thirteen bits of the id, and above them the or of its
      top three with the low three of the class of service. */
  function VlanTci(pkt: PktSeq): nat {
    pkt.vlanid % 8192 + 8192 * Or3(pkt.vlanid / 8192, pkt.cos % 8)
  }

  // --- what a receiver sums

  /** The pseudo-header a receiver forms from the IP header at l3: addresses, protocol, L4 length
      (RFC 768, section 3.1 of RFC 9293; for IPv6 section 8.1 of RFC 8200). */
  ghost function PseudoSum(s: seq<byte>, l3: nat, v: L3): nat
    requires l3 + IPV6_HDR_LEN <= |s|
    requires v == IPv4 ==> ReadBe16(s, l3 + 2) >= IPV4_HDR_LEN
  {
    if v == IPv4 then WordSum(s[l3 + 12..l3 + 20]) + s[l3 + 9] as int + (ReadBe16(s, l3 + 2) - IPV4_HDR_LEN)
    else WordSum(s[l3 + 8..l3 + 40]) + s[l3 + 6] as int + ReadBe16(s, l3 + 4)
  }

  /** Where the packet ends, by the length field of its IP header. */
  ghost function PacketEnd(s: seq<byte>, l3: nat, v: L3): nat
    requires l3 + IPV6_HDR_LEN <= |s|
  {
    if v == IPv4 then l3 + ReadBe16(s, l3 + 2) else l3 + IPV6_HDR_LEN + ReadBe16(s, l3 + 4)
  }

  /** The receiver's check of the L4 checksum passes. */
  ghost predicate Delivers(s: seq<byte>, l3: nat, v: L3) {
    var l4 := l3 + if v == IPv4 then IPV4_HDR_LEN else IPV6_HDR_LEN;
    && l3 + IPV6_HDR_LEN <= |s| && l4 <= PacketEnd(s, l3, v) <= |s|
    && Accepted(PseudoSum(s, l3, v) + WordSum(s[l4..PacketEnd(s, l3, v)]))
  }

  // --- the half-built IP headers of the L4 constructors

  /** The header at l3 carries the template's length, protocol and addresses. */
  ghost predicate Pseudo(s: seq<byte>, l3: nat, pkt: PktSeq)
    requires pkt.Valid()
  {
    && l3 + pkt.IpLen() <= pkt.pktSize && l3 + IPV6_HDR_LEN <= |s|
    && if pkt.l3 == IPv4 then
         && Field(s, l3 + 2, Be16(pkt.pktSize - l3)) && s[l3 + 9] == pkt.IpProto()
         && Field(s, l3 + 12, Be32(pkt.srcIp4)) && Field(s, l3 + 16, Be32(pkt.dstIp4))
       else
         && Field(s, l3 + 4, Be16(pkt.pktSize - l3 - IPV6_HDR_LEN)) && s[l3 + 6] == pkt.IpProto()
         && Field(s, l3 + 8, pkt.srcIp6) && Field(s, l3 + 24, pkt.dstIp6)
  }

  /** The template's own pseudo-header sum. */
  ghost function PseudoOf(pkt: PktSeq, l3: nat): nat
    requires pkt.Valid() && l3 + pkt.IpLen() <= pkt.pktSize
    ensures PseudoOf(pkt, l3) > 0
  {
    (if pkt.l3 == IPv4 then WordSum(Be32(pkt.srcIp4) + Be32(pkt.dstIp4)) else WordSum(pkt.srcIp6 + pkt.dstIp6))
    + pkt.IpProto() as int + (pkt.pktSize - l3 - pkt.IpLen())
  }

  lemma ReadField16(s: seq<byte>, off: nat, n: nat)
    requires n < TWO_16 && Field(s, off, Be16(n))
    ensures ReadBe16(s, off) == n
  {
    assert s[off] == Be16(n)[0] && s[off + 1] == Be16(n)[1];
  }

  lemma TwoFields(s: seq<byte>, off: nat, a: seq<byte>, b: seq<byte>)
    requires Field(s, off, a) && Field(s, off + |a|, b)
    ensures s[off..off + |a| + |b|] == a + b
  {
  }

  /** A receiver reads the template's pseudo-header out of any header that carries it. */
  lemma PseudoIsRead(s: seq<byte>, l3: nat, pkt: PktSeq)
    requires pkt.Valid() && Pseudo(s, l3, pkt)
    ensures PacketEnd(s, l3, pkt.l3) == pkt.pktSize
    ensures PseudoSum(s, l3, pkt.l3) == PseudoOf(pkt, l3)
  {
    if pkt.l3 == IPv4 {
      ReadField16(s, l3 + 2, pkt.pktSize - l3);
      TwoFields(s, l3 + 12, Be32(pkt.srcIp4), Be32(pkt.dstIp4));
    } else {
      ReadField16(s, l3 + 4, pkt.pktSize - l3 - IPV6_HDR_LEN);
      TwoFields(s, l3 + 8, pkt.srcIp6, pkt.dstIp6);
    }
  }

  method DraftIp(pkt: PktSeq, hdr: array<byte>, l3: nat)
    requires pkt.Valid() && l3 + pkt.IpLen() <= pkt.pktSize && l3 + IPV6_HDR_LEN <= hdr.Length
    modifies hdr
    ensures Pseudo(hdr[..], l3, pkt)
    ensures SameOutside(old(hdr[..]), hdr[..], l3, l3 + pkt.IpLen())
  {
    if pkt.l3 == IPv4 {
      Put(hdr, l3 + 12, Be32(pkt.srcIp4));
      Put(hdr, l3 + 16, Be32(pkt.dstIp4));
      Put(hdr, l3, [0x45]);
      Put(hdr, l3 + 2, Be16(pkt.pktSize - l3));
      Put(hdr, l3 + 9, [pkt.IpProto()]);
    } else {
      Put(hdr, l3 + 24, pkt.dstIp6);
      Put(hdr, l3 + 8, pkt.srcIp6);
      Put(hdr, l3 + 4, Be16(pkt.pktSize - l3 - IPV6_HDR_LEN));
      Put(hdr, l3 + 6, [pkt.IpProto()]);
    }
  }

  // --- the L4 headers, checksum field zero

  /** Ports, sequence numbers, data offset, the low eight flag bits, window. */
  function TcpHeader(pkt: PktSeq): (bs: seq<byte>)
    ensures |bs| == 16
  {
    Be16(pkt.sport) + Be16(pkt.dport) + Be32(pkt.tcpSeq) + Be32(pkt.tcpAck) +
    [0x50, pkt.tcpFlags % 256] + Be16(DEFAULT_WND_SIZE)
  }

  function UdpHeader(pkt: PktSeq, len: nat): (bs: seq<byte>)
    ensures |bs| == 6
  {
    Be16(pkt.sport) + Be16(pkt.dport) + Be16(len)
  }

  /** Offset of the checksum in the L4 header. */
  function CksumOff(pkt: PktSeq): nat { if pkt.l4 == TCP then 16 else 6 }

  ghost predicate L4Built(s: seq<byte>, l4: nat, pkt: PktSeq, len: nat) {
    if pkt.l4 == TCP then Field(s, l4, TcpHeader(pkt)) && Field(s, l4 + 18, Be16(0))
    else
      && Field(s, l4, UdpHeader(pkt, len))
      && (pkt.dport == VXLAN_PORT_ID && pkt.l3 == IPv4 ==> Field(s, l4 + UDP_HDR_LEN, pkt.vxlan))
  }

  /** The checksum field that the device is to complete. */
  ghost predicate LeftToDevice(s: seq<byte>, l3: nat, pkt: PktSeq, requiresPhdr: bool)
    requires pkt.Valid() && l3 + pkt.IpLen() <= pkt.pktSize
  {
    Field(s, l3 + pkt.IpLen() + CksumOff(pkt),
          Be16(if requiresPhdr && pkt.l3 == IPv4 then Fold(PseudoOf(pkt, l3)) else 0))
  }

  /** The L4 header fields up to and after the checksum, the checksum zeroed. A UDP packet to the
      VXLAN port gets its 8 VXLAN bytes too (IPv4 only). */
  method BuildL4(pkt: PktSeq, hdr: array<byte>, l4: nat, len: nat)
    requires pkt.Valid() && l4 + 20 <= hdr.Length
    modifies hdr
    ensures L4Built(hdr[..], l4, pkt, len) && Field(hdr[..], l4 + CksumOff(pkt), Be16(0))
    ensures SameOutside(old(hdr[..]), hdr[..], l4, l4 + 20)
  {
    if pkt.l4 == TCP {
      Put(hdr, l4, TcpHeader(pkt));
      Put(hdr, l4 + 18, Be16(0));
      Put(hdr, l4 + 16, Be16(0));
    } else {
      Put(hdr, l4, UdpHeader(pkt, len));
      if pkt.dport == VXLAN_PORT_ID && pkt.l3 == IPv4 {
        Put(hdr, l4 + UDP_HDR_LEN, pkt.vxlan);
      }
      Put(hdr, l4 + 6, Be16(0));
    }
  }

  /** A finished software checksum: a receiver accepts it, and UDP does not send the zero that would
      say there is none (RFC 768). */
  ghost predicate Checksummed(s: seq<byte>, l3: nat, pkt: PktSeq)
    requires pkt.Valid()
  {
    && Delivers(s, l3, pkt.l3) && l3 + pkt.IpLen() + 8 <= |s|
    && (pkt.l4 == UDP ==> s[l3 + pkt.IpLen() + 6] != 0 || s[l3 + pkt.IpLen() + 7] != 0)
  }

  /** What the code stores for a computed checksum: UDP sends all ones for zero. */
  function StoredCksum(l4: L4, c: nat): nat {
    if c == 0 && l4 == UDP then 0xFFFF else c
  }

  /** Filling the zero checksum field at `off` of the bytes [lo, hi) adds the checksum to their sum. */
  lemma SumFilled(s: seq<byte>, t: seq<byte>, lo: nat, hi: nat, off: nat, c: nat)
    requires off % 2 == 0 && lo + off + 2 <= hi <= |s| && c < TWO_16
    requires Field(s, lo + off, Be16(0)) && Field(t, lo + off, Be16(c))
    requires SameOutside(s, t, lo + off, lo + off + 2)
    ensures WordSum(t[lo..hi]) == WordSum(s[lo..hi]) + c
  {
    var seg := s[lo..hi];
    FieldSlice(s, lo + off, Be16(0));
    SubSlice(s, lo, hi, off, off + 2);
    FillChecksum(seg, off, c);
    assert t[lo..hi] == Stored(seg, off, Be16(c));
  }

  lemma DeliversBySum(t: seq<byte>, l3: nat, pkt: PktSeq)
    requires pkt.Valid() && Pseudo(t, l3, pkt) && pkt.pktSize <= |t|
    requires Accepted(PseudoOf(pkt, l3) + WordSum(t[l3 + pkt.IpLen()..pkt.pktSize]))
    ensures Delivers(t, l3, pkt.l3)
  {
    PseudoIsRead(t, l3, pkt);
  }

  /** Storing the checksum of pseudo-header and segment into a zero field makes the receiver's
      sum over the same pseudo-header and the finished segment fold to all ones. */
  lemma ChecksumDelivers(s: seq<byte>, t: seq<byte>, l3: nat, pkt: PktSeq, c: nat)
    requires pkt.Valid() && Pseudo(s, l3, pkt) && Pseudo(t, l3, pkt)
    requires l3 + pkt.IpLen() + pkt.L4Len() <= pkt.pktSize <= |s|
    requires var l4 := l3 + pkt.IpLen();
      && Field(s, l4 + CksumOff(pkt), Be16(0)) && Field(t, l4 + CksumOff(pkt), Be16(c))
      && SameOutside(s, t, l4 + CksumOff(pkt), l4 + CksumOff(pkt) + 2)
      && c == StoredCksum(pkt.l4, ChecksumOf(PseudoOf(pkt, l3) + WordSum(s[l4..pkt.pktSize])))
    ensures Delivers(t, l3, pkt.l3)
  {
    var l4 := l3 + pkt.IpLen();
    SumFilled(s, t, l4, pkt.pktSize, CksumOff(pkt), c);
    ChecksumIsAccepted(PseudoOf(pkt, l3) + WordSum(s[l4..pkt.pktSize]), c);
    DeliversBySum(t, l3, pkt);
  }

  lemma NotZero(s: seq<byte>, off: nat, c: nat)
    requires 0 < c < TWO_16 && Field(s, off, Be16(c))
    ensures off + 2 <= |s| && (s[off] != 0 || s[off + 1] != 0)
  {
    ReadField16(s, off, c);
  }

  lemma ChecksumFinishes(s: seq<byte>, t: seq<byte>, l3: nat, pkt: PktSeq, c: nat)
    requires pkt.Valid() && Pseudo(s, l3, pkt) && Pseudo(t, l3, pkt)
    requires l3 + pkt.IpLen() + pkt.L4Len() <= pkt.pktSize <= |s|
    requires var l4 := l3 + pkt.IpLen();
      && Field(s, l4 + CksumOff(pkt), Be16(0)) && Field(t, l4 + CksumOff(pkt), Be16(c))
      && SameOutside(s, t, l4 + CksumOff(pkt), l4 + CksumOff(pkt) + 2)
      && c == StoredCksum(pkt.l4, ChecksumOf(PseudoOf(pkt, l3) + WordSum(s[l4..pkt.pktSize])))
    ensures Checksummed(t, l3, pkt)
  {
    ChecksumDelivers(s, t, l3, pkt, c);
    if pkt.l4 == UDP {
      NotZero(t, l3 + pkt.IpLen() + 6, c);
    }
  }

  /** pktgen_udp_hdr_ctor and pktgen_tcp_hdr_ctor. With checksum offload the field is left to
      the device: zero, or on IPv4 the pseudo-header sum for devices that need it. */
  method L4HdrCtor(pkt: PktSeq, hdr: array<byte>, l3: nat, offload: bool, requiresPhdr: bool)
    requires pkt.Valid() && l3 + pkt.IpLen() + pkt.L4Len() <= pkt.pktSize <= hdr.Length
    requires l3 + pkt.IpLen() + 20 <= hdr.Length
    modifies hdr
    ensures Pseudo(hdr[..], l3, pkt)
    ensures SameOutside(old(hdr[..]), hdr[..], l3, l3 + pkt.IpLen() + 20)
    ensures L4Built(hdr[..], l3 + pkt.IpLen(), pkt, pkt.pktSize - l3 - pkt.IpLen())
    ensures !offload ==> Checksummed(hdr[..], l3, pkt)
    ensures offload ==> LeftToDevice(hdr[..], l3, pkt, requiresPhdr)
  {
    ghost var s0 := hdr[..];
    BuildSegment(pkt, hdr, l3);
    ghost var built := hdr[..];
    FinishCksum(pkt, hdr, l3, offload, requiresPhdr);
    FinishKept(s0, built, hdr[..], l3, pkt);
  }

  lemma FinishKept(s: seq<byte>, t: seq<byte>, u: seq<byte>, l3: nat, pkt: PktSeq)
    requires l3 + pkt.IpLen() + pkt.L4Len() <= pkt.pktSize
    requires SameOutside(s, t, l3, l3 + pkt.IpLen() + 20)
    requires L4Built(t, l3 + pkt.IpLen(), pkt, pkt.pktSize - l3 - pkt.IpLen())
    requires SameOutside(t, u, l3 + pkt.IpLen() + CksumOff(pkt), l3 + pkt.IpLen() + CksumOff(pkt) + 2)
    ensures SameOutside(s, u, l3, l3 + pkt.IpLen() + 20)
    ensures L4Built(u, l3 + pkt.IpLen(), pkt, pkt.pktSize - l3 - pkt.IpLen())
  {
    L4BuiltKept(t, u, l3 + pkt.IpLen(), pkt, pkt.pktSize - l3 - pkt.IpLen());
    FrameUnion(s, t, u, l3, l3 + pkt.IpLen() + 20,
               l3 + pkt.IpLen() + CksumOff(pkt), l3 + pkt.IpLen() + CksumOff(pkt) + 2);
  }

  /** Both changes together are inside the wider of two nested ranges. */
  lemma FrameUnion(s: seq<byte>, t: seq<byte>, u: seq<byte>, lo: nat, hi: nat, lo': nat, hi': nat)
    requires lo <= lo' <= hi' <= hi
    requires SameOutside(s, t, lo, hi) && SameOutside(t, u, lo', hi')
    ensures SameOutside(s, u, lo, hi)
  {
  }

  /** The half-built IP header and the L4 header behind it, the checksum field zero. */
  method BuildSegment(pkt: PktSeq, hdr: array<byte>, l3: nat)
    requires pkt.Valid() && l3 + pkt.IpLen() + pkt.L4Len() <= pkt.pktSize <= hdr.Length
    requires l3 + pkt.IpLen() + 20 <= hdr.Length
    modifies hdr
    ensures Pseudo(hdr[..], l3, pkt) && Field(hdr[..], l3 + pkt.IpLen() + CksumOff(pkt), Be16(0))
    ensures L4Built(hdr[..], l3 + pkt.IpLen(), pkt, pkt.pktSize - l3 - pkt.IpLen())
    ensures SameOutside(old(hdr[..]), hdr[..], l3, l3 + pkt.IpLen() + 20)
  {
    var l4 := l3 + pkt.IpLen();
    DraftIp(pkt, hdr, l3);
    ghost var drafted := hdr[..];
    BuildL4(pkt, hdr, l4, pkt.pktSize - l4);
    PseudoKept(drafted, hdr[..], l3, pkt);
  }

  /** The last step of the L4 constructors: the checksum in software, or what the device needs. */
  method FinishCksum(pkt: PktSeq, hdr: array<byte>, l3: nat, offload: bool, requiresPhdr: bool)
    requires pkt.Valid() && l3 + pkt.IpLen() + pkt.L4Len() <= pkt.pktSize <= hdr.Length
    requires l3 + pkt.IpLen() + 20 <= hdr.Length
    requires Pseudo(hdr[..], l3, pkt) && Field(hdr[..], l3 + pkt.IpLen() + CksumOff(pkt), Be16(0))
    modifies hdr
    ensures Pseudo(hdr[..], l3, pkt)
    ensures SameOutside(old(hdr[..]), hdr[..], l3 + pkt.IpLen() + CksumOff(pkt), l3 + pkt.IpLen() + CksumOff(pkt) + 2)
    ensures !offload ==> Checksummed(hdr[..], l3, pkt)
    ensures offload ==> LeftToDevice(hdr[..], l3, pkt, requiresPhdr)
  {
    ghost var s := hdr[..];
    if !offload {
      StoreL4Cksum(pkt, hdr, l3);
    } else if requiresPhdr && pkt.l3 == IPv4 {
      Put(hdr, l3 + pkt.IpLen() + CksumOff(pkt), Be16(Fold(PseudoSumOf(pkt, hdr, l3))));
      PseudoKept(s, hdr[..], l3, pkt);
    }
  }

  lemma FieldKept(s: seq<byte>, t: seq<byte>, off: nat, bs: seq<byte>, lo: nat, hi: nat)
    requires Field(s, off, bs) && SameOutside(s, t, lo, hi) && (off + |bs| <= lo || hi <= off)
    ensures Field(t, off, bs)
  {
  }

  lemma L4BuiltKept(s: seq<byte>, t: seq<byte>, l4: nat, pkt: PktSeq, len: nat)
    requires L4Built(s, l4, pkt, len) && SameOutside(s, t, l4 + CksumOff(pkt), l4 + CksumOff(pkt) + 2)
    ensures L4Built(t, l4, pkt, len)
  {
    if pkt.l4 == TCP {
      FieldKept(s, t, l4, TcpHeader(pkt), l4 + 16, l4 + 18);
      FieldKept(s, t, l4 + 18, Be16(0), l4 + 16, l4 + 18);
    } else {
      FieldKept(s, t, l4, UdpHeader(pkt, len), l4 + 6, l4 + 8);
      if pkt.dport == VXLAN_PORT_ID && pkt.l3 == IPv4 {
        FieldKept(s, t, l4 + UDP_HDR_LEN, pkt.vxlan, l4 + 6, l4 + 8);
      }
    }
  }

  /** The software checksum, over the half-built header and the segment. */
  method StoreL4Cksum(pkt: PktSeq, hdr: array<byte>, l3: nat)
    requires pkt.Valid() && l3 + pkt.IpLen() + pkt.L4Len() <= pkt.pktSize <= hdr.Length
    requires l3 + pkt.IpLen() + 20 <= hdr.Length
    requires Pseudo(hdr[..], l3, pkt) && Field(hdr[..], l3 + pkt.IpLen() + CksumOff(pkt), Be16(0))
    modifies hdr
    ensures Pseudo(hdr[..], l3, pkt) && Checksummed(hdr[..], l3, pkt)
    ensures SameOutside(old(hdr[..]), hdr[..], l3 + pkt.IpLen() + CksumOff(pkt), l3 + pkt.IpLen() + CksumOff(pkt) + 2)
  {
    ghost var s := hdr[..];
    var l4 := l3 + pkt.IpLen();
    var c := StoredCksum(pkt.l4, ChecksumOf(PseudoSumOf(pkt, hdr, l3) + WordSum(hdr[..][l4..pkt.pktSize])));
    Put(hdr, l4 + CksumOff(pkt), Be16(c));
    PseudoKept(s, hdr[..], l3, pkt);
    ChecksumFinishes(s, hdr[..], l3, pkt, c);
  }

  lemma PseudoKept(s: seq<byte>, t: seq<byte>, l3: nat, pkt: PktSeq)
    requires pkt.Valid() && Pseudo(s, l3, pkt) && |s| == |t|
    requires forall k :: l3 <= k < l3 + pkt.IpLen() ==> t[k] == s[k]
    ensures Pseudo(t, l3, pkt)
  {
  }

  /** The pseudo-header sum, read from the half-built header as the checksum helpers do. */
  function PseudoSumOf(pkt: PktSeq, hdr: array<byte>, l3: nat): (n: nat)
    requires pkt.Valid() && l3 + IPV6_HDR_LEN <= hdr.Length && Pseudo(hdr[..], l3, pkt)
    reads hdr
    ensures n == PseudoOf(pkt, l3)
  {
    PseudoIsRead(hdr[..], l3, pkt);
    if pkt.l3 == IPv4 then
      WordSum(hdr[..][l3 + 12..l3 + 20]) + hdr[l3 + 9] as int + (ReadBe16(hdr[..], l3 + 2) - IPV4_HDR_LEN)
    else WordSum(hdr[..][l3 + 8..l3 + 40]) + hdr[l3 + 6] as int + ReadBe16(hdr[..], l3 + 4)
  }

  // --- the IP headers

  function Zeros(n: nat): (bs: seq<byte>)
    ensures |bs| == n && forall k :: 0 <= k < n ==> bs[k] == 0
  {
    seq(n, _ => 0)
  }

  /** The IPv4 header fields besides those of the pseudo-header; no options, no fragments. */
  ghost predicate Ipv4Rest(s: seq<byte>, l3: nat, pkt: PktSeq, ident: nat) {
    && l3 + IPV4_HDR_LEN <= |s|
    && s[l3] == 0x45 && s[l3 + 1] == pkt.tos && Field(s, l3 + 4, Be16(ident)) && Field(s, l3 + 6, Be16(0))
    && s[l3 + 8] == pkt.ttl
  }

  ghost predicate Ipv6Rest(s: seq<byte>, l3: nat, pkt: PktSeq) {
    && l3 + IPV6_HDR_LEN <= |s|
    && Field(s, l3, [0x60 + pkt.tos / 16, pkt.tos % 16 * 16, 0, 0]) && s[l3 + 7] == pkt.ttl
  }

  /** The zeroed header with its fields outside the pseudo-header. */
  method BuildIpv4Rest(pkt: PktSeq, hdr: array<byte>, l3: nat, ident: nat)
    requires l3 + IPV4_HDR_LEN <= hdr.Length
    modifies hdr
    ensures Ipv4Rest(hdr[..], l3, pkt, ident) && Field(hdr[..], l3 + 10, Be16(0))
    ensures SameOutside(old(hdr[..]), hdr[..], l3, l3 + IPV4_HDR_LEN)
  {
    Put(hdr, l3, Zeros(IPV4_HDR_LEN));
    Put(hdr, l3, [0x45]);
    Put(hdr, l3 + 8, [pkt.ttl]);
    Put(hdr, l3 + 1, [pkt.tos]);
    Put(hdr, l3 + 4, Be16(ident));
    Put(hdr, l3 + 6, Be16(0));
    Put(hdr, l3 + 10, Be16(0));
  }

  method BuildIpv4(pkt: PktSeq, hdr: array<byte>, l3: nat, ident: nat)
    requires pkt.Valid() && pkt.l3 == IPv4 && l3 + IPV4_HDR_LEN <= pkt.pktSize && l3 + IPV6_HDR_LEN <= hdr.Length
    modifies hdr
    ensures Pseudo(hdr[..], l3, pkt) && Ipv4Rest(hdr[..], l3, pkt, ident) && Field(hdr[..], l3 + 10, Be16(0))
    ensures SameOutside(old(hdr[..]), hdr[..], l3, l3 + IPV4_HDR_LEN)
  {
    BuildIpv4Rest(pkt, hdr, l3, ident);
    Put(hdr, l3 + 2, Be16(pkt.pktSize - l3));
    Put(hdr, l3 + 9, [pkt.IpProto()]);
    Put(hdr, l3 + 12, Be32(pkt.srcIp4));
    Put(hdr, l3 + 16, Be32(pkt.dstIp4));
  }

  lemma HeaderChecksum(s: seq<byte>, t: seq<byte>, l3: nat, c: nat)
    requires l3 + IPV4_HDR_LEN <= |s| && s[l3] == 0x45 && Field(s, l3 + 10, Be16(0))
    requires SameOutside(s, t, l3 + 10, l3 + 12) && Field(t, l3 + 10, Be16(c))
    requires c == ChecksumOf(WordSum(s[l3..l3 + IPV4_HDR_LEN]))
    ensures Accepted(WordSum(t[l3..l3 + IPV4_HDR_LEN]))
  {
    var h := s[l3..l3 + IPV4_HDR_LEN];
    SumFilled(s, t, l3, l3 + IPV4_HDR_LEN, 10, c);
    assert WordSum(h) > 0;
    ChecksumIsAccepted(WordSum(h), c);
  }

  /** pktgen_ipv4_ctor: zeroes the header and rebuilds it, with the next identification value. */
  method Ipv4Ctor(pkt: PktSeq, hdr: array<byte>, l3: nat, offload: bool, ident: nat) returns (nextIdent: nat)
    requires pkt.Valid() && pkt.l3 == IPv4 && l3 + IPV4_HDR_LEN <= pkt.pktSize && l3 + IPV6_HDR_LEN <= hdr.Length
    modifies hdr
    ensures nextIdent == (ident + 27) % TWO_16
    ensures Pseudo(hdr[..], l3, pkt) && Ipv4Rest(hdr[..], l3, pkt, nextIdent)
    ensures SameOutside(old(hdr[..]), hdr[..], l3, l3 + IPV4_HDR_LEN)
    ensures !offload ==> Accepted(WordSum(hdr[..][l3..l3 + IPV4_HDR_LEN]))
  {
    nextIdent := (ident + 27) % TWO_16;
    BuildIpv4(pkt, hdr, l3, nextIdent);
    if !offload {
      ghost var s := hdr[..];
      var c := ChecksumOf(WordSum(hdr[..][l3..l3 + IPV4_HDR_LEN]));
      Put(hdr, l3 + 10, Be16(c));
      HeaderChecksum(s, hdr[..], l3, c);
    }
  }

  /** pktgen_ipv6_ctor. */
  method Ipv6Ctor(pkt: PktSeq, hdr: array<byte>, l3: nat)
    requires pkt.Valid() && pkt.l3 == IPv6 && l3 + IPV6_HDR_LEN <= pkt.pktSize && l3 + IPV6_HDR_LEN <= hdr.Length
    modifies hdr
    ensures Pseudo(hdr[..], l3, pkt) && Ipv6Rest(hdr[..], l3, pkt)
    ensures SameOutside(old(hdr[..]), hdr[..], l3, l3 + IPV6_HDR_LEN)
  {
    Put(hdr, l3, Zeros(IPV6_HDR_LEN));
    Put(hdr, l3, [0x60 + pkt.tos / 16, pkt.tos % 16 * 16, 0, 0]);
    Put(hdr, l3 + 4, Be16(pkt.pktSize - l3 - IPV6_HDR_LEN));
    Put(hdr, l3 + 7, [pkt.ttl]);
    Put(hdr, l3 + 6, [pkt.IpProto()]);
    Put(hdr, l3 + 24, pkt.dstIp6);
    Put(hdr, l3 + 8, pkt.srcIp6);
  }

  /** The fields of the IP header outside the pseudo-header. */
  ghost predicate IpRest(s: seq<byte>, l3: nat, pkt: PktSeq, ident: nat) {
    if pkt.l3 == IPv4 then Ipv4Rest(s, l3, pkt, ident) else Ipv6Rest(s, l3, pkt)
  }

  /** The IP header of either version. */
  method IpCtor(pkt: PktSeq, hdr: array<byte>, l3: nat, offload: bool, ident: nat) returns (nextIdent: nat)
    requires pkt.Valid() && l3 + pkt.IpLen() <= pkt.pktSize && l3 + IPV6_HDR_LEN <= hdr.Length
    modifies hdr
    ensures nextIdent == if pkt.l3 == IPv4 then (ident + 27) % TWO_16 else ident
    ensures Pseudo(hdr[..], l3, pkt) && IpRest(hdr[..], l3, pkt, nextIdent)
    ensures SameOutside(old(hdr[..]), hdr[..], l3, l3 + pkt.IpLen())
    ensures pkt.l3 == IPv4 && !offload ==> Accepted(WordSum(hdr[..][l3..l3 + IPV4_HDR_LEN]))
  {
    nextIdent := ident;
    if pkt.l3 == IPv4 {
      nextIdent := Ipv4Ctor(pkt, hdr, l3, offload, ident);
    } else {
      Ipv6Ctor(pkt, hdr, l3);
    }
  }

  lemma SameSlice(s: seq<byte>, t: seq<byte>, lo: nat, hi: nat)
    requires |s| == |t| && lo <= hi <= |s| && forall k :: lo <= k < hi ==> t[k] == s[k]
    ensures s[lo..hi] == t[lo..hi]
  {
  }

  /** Rebuilding the IP header keeps the L4 checksum valid, because every field the pseudo-header
      takes from it is written back with the value summed before. */
  lemma RebuiltHeaderDelivers(s: seq<byte>, t: seq<byte>, l3: nat, pkt: PktSeq)
    requires pkt.Valid() && Pseudo(s, l3, pkt) && Pseudo(t, l3, pkt) && pkt.pktSize <= |s|
    requires SameOutside(s, t, l3, l3 + pkt.IpLen()) && Delivers(s, l3, pkt.l3)
    ensures Delivers(t, l3, pkt.l3)
  {
    PseudoIsRead(s, l3, pkt);
    PseudoIsRead(t, l3, pkt);
    SameSlice(s, t, l3 + pkt.IpLen(), pkt.pktSize);
  }

  /** The template the UDP arm of the packet constructor works on: VXLAN mode fixes the port. */
  function Template(flags: FlagWord, pkt: PktSeq): (t: PktSeq)
    ensures pkt.Valid() ==> t.Valid()
    ensures t.l3 == pkt.l3 && t.IpLen() == pkt.IpLen() && t.L4Len() == pkt.L4Len() && t.pktSize == pkt.pktSize
  {
    if SendVxlanPackets in flags && pkt.l3 == IPv4 && pkt.l4 == UDP then pkt.(dport := VXLAN_PORT_ID) else pkt
  }

  /** The L4 checksum field, by whoever is to compute it. */
  ghost predicate L4Cksum(s: seq<byte>, l3: nat, pkt: PktSeq, offload: bool, requiresPhdr: bool)
    requires pkt.Valid() && l3 + pkt.IpLen() <= pkt.pktSize
  {
    if offload then LeftToDevice(s, l3, pkt, requiresPhdr) else Checksummed(s, l3, pkt)
  }

  /** The finished IP and L4 headers: every field of the template, the packet's length, and
      checksums that a receiver accepts or that are left to the device. */
  ghost predicate LayersBuilt(s: seq<byte>, l3: nat, pkt: PktSeq, ident: nat,
                              l4Offload: bool, ipOffload: bool, requiresPhdr: bool)
    requires pkt.Valid()
  {
    && Pseudo(s, l3, pkt) && IpRest(s, l3, pkt, ident) && PacketEnd(s, l3, pkt.l3) == pkt.pktSize
    && l3 + pkt.IpLen() + pkt.L4Len() <= pkt.pktSize <= |s|
    && L4Built(s, l3 + pkt.IpLen(), pkt, pkt.pktSize - l3 - pkt.IpLen())
    && L4Cksum(s, l3, pkt, l4Offload, requiresPhdr)
    && (pkt.l3 == IPv4 && !ipOffload ==> Accepted(WordSum(s[l3..l3 + IPV4_HDR_LEN])))
  }

  /** The IP constructor touches nothing that the L4 constructor built. */
  lemma L4Kept(s: seq<byte>, t: seq<byte>, l3: nat, pkt: PktSeq, len: nat)
    requires pkt.Valid() && SameOutside(s, t, l3, l3 + pkt.IpLen())
    requires L4Built(s, l3 + pkt.IpLen(), pkt, len)
    ensures L4Built(t, l3 + pkt.IpLen(), pkt, len)
  {
  }

  lemma CksumKept(s: seq<byte>, t: seq<byte>, l3: nat, pkt: PktSeq, offload: bool, requiresPhdr: bool)
    requires pkt.Valid() && Pseudo(s, l3, pkt) && Pseudo(t, l3, pkt) && pkt.pktSize <= |s|
    requires SameOutside(s, t, l3, l3 + pkt.IpLen()) && L4Cksum(s, l3, pkt, offload, requiresPhdr)
    ensures L4Cksum(t, l3, pkt, offload, requiresPhdr)
  {
    if !offload {
      RebuiltHeaderDelivers(s, t, l3, pkt);
    }
  }

  /** Once the IP header is rebuilt in front of the L4 header both are finished. */
  lemma LayersFinished(s: seq<byte>, t: seq<byte>, l3: nat, pkt: PktSeq, ident: nat,
                       l4Offload: bool, ipOffload: bool, requiresPhdr: bool)
    requires pkt.Valid() && l3 + pkt.IpLen() + pkt.L4Len() <= pkt.pktSize <= |s|
    requires SameOutside(s, t, l3, l3 + pkt.IpLen()) && Pseudo(s, l3, pkt) && Pseudo(t, l3, pkt)
    requires L4Built(s, l3 + pkt.IpLen(), pkt, pkt.pktSize - l3 - pkt.IpLen())
    requires L4Cksum(s, l3, pkt, l4Offload, requiresPhdr)
    requires IpRest(t, l3, pkt, ident)
    requires pkt.l3 == IPv4 && !ipOffload ==> Accepted(WordSum(t[l3..l3 + IPV4_HDR_LEN]))
    ensures LayersBuilt(t, l3, pkt, ident, l4Offload, ipOffload, requiresPhdr)
  {
    PseudoIsRead(t, l3, pkt);
    L4Kept(s, t, l3, pkt, pkt.pktSize - l3 - pkt.IpLen());
    CksumKept(s, t, l3, pkt, l4Offload, requiresPhdr);
  }

  /** The L4 constructor and, after it, the IP constructor. */
  method LayersCtor(pkt: PktSeq, hdr: array<byte>, l3: nat,
                    l4Offload: bool, ipOffload: bool, requiresPhdr: bool, ident: nat)
    returns (nextIdent: nat)
    requires pkt.Valid() && l3 + pkt.IpLen() + pkt.L4Len() <= pkt.pktSize <= hdr.Length
    requires l3 + IPV6_HDR_LEN + 20 <= hdr.Length
    modifies hdr
    ensures nextIdent == if pkt.l3 == IPv4 then (ident + 27) % TWO_16 else ident
    ensures LayersBuilt(hdr[..], l3, pkt, nextIdent, l4Offload, ipOffload, requiresPhdr)
    ensures SameOutside(old(hdr[..]), hdr[..], l3, l3 + pkt.IpLen() + 20)
  {
    ghost var s0 := hdr[..];
    L4HdrCtor(pkt, hdr, l3, l4Offload, requiresPhdr);
    ghost var s1 := hdr[..];
    nextIdent := IpCtor(pkt, hdr, l3, ipOffload, ident);
    LayersFinished(s1, hdr[..], l3, pkt, nextIdent, l4Offload, ipOffload, requiresPhdr);
    FrameUnion(s0, s1, hdr[..], l3, l3 + pkt.IpLen() + 20, l3, l3 + pkt.IpLen());
  }

  /** The three constructors one after the other on one template. */
  method BuildPacket(flags: FlagWord, pkt: PktSeq, hdr: array<byte>,
                     l4Offload: bool, ipOffload: bool, requiresPhdr: bool, ident: nat)
    returns (l3: nat, nextIdent: nat)
    requires pkt.Valid() && ETHER_HDR_LEN + 8 + 60 <= hdr.Length
    requires EtherHdrSize(flags) + pkt.IpLen() + pkt.L4Len() <= pkt.pktSize <= hdr.Length
    modifies hdr
    ensures l3 == EtherHdrSize(flags)
    ensures nextIdent == if pkt.l3 == IPv4 then (ident + 27) % TWO_16 else ident
    ensures EtherBuilt(hdr[..], flags, pkt)
    ensures LayersBuilt(hdr[..], l3, pkt, nextIdent, l4Offload, ipOffload, requiresPhdr)
    ensures SameOutside(old(hdr[..]), hdr[..], 0, l3 + pkt.IpLen() + 20)
  {
    ghost var s0 := hdr[..];
    l3 := EtherHdrCtor(flags, pkt, hdr);
    ghost var s1 := hdr[..];
    nextIdent := LayersCtor(pkt, hdr, l3, l4Offload, ipOffload, requiresPhdr, ident);
    EtherKept(s1, hdr[..], flags, pkt, l3 + pkt.IpLen() + 20);
    FrameChain(s0, s1, hdr[..], l3, l3 + pkt.IpLen() + 20);
  }

  /** The TCP and UDP arms of pktgen_packet_ctor, without GRE, GTP-U and source-port entropy: the
      finished packet holds the template's Ethernet, IP and L4 fields, its IP header describes
      exactly pkt_size bytes, and without offload a receiver's checks of both checksums pass. */
  method PacketCtor(flags: FlagWord, pkt0: PktSeq, hdr: array<byte>,
                    l4Offload: bool, ipOffload: bool, requiresPhdr: bool, ident: nat)
    returns (l3: nat, nextIdent: nat)
    requires pkt0.Valid() && ETHER_HDR_LEN + 8 + 60 <= hdr.Length
    requires EtherHdrSize(flags) + pkt0.IpLen() + pkt0.L4Len() <= pkt0.pktSize <= hdr.Length
    modifies hdr
    ensures l3 == EtherHdrSize(flags)
    ensures nextIdent == if pkt0.l3 == IPv4 then (ident + 27) % TWO_16 else ident
    ensures EtherBuilt(hdr[..], flags, Template(flags, pkt0))
    ensures LayersBuilt(hdr[..], l3, Template(flags, pkt0), nextIdent, l4Offload, ipOffload, requiresPhdr)
    ensures SameOutside(old(hdr[..]), hdr[..], 0, l3 + pkt0.IpLen() + 20)
  {
    l3, nextIdent := BuildPacket(flags, Template(flags, pkt0), hdr, l4Offload, ipOffload, requiresPhdr, ident);
  }

  lemma FrameChain(s0: seq<byte>, s1: seq<byte>, s2: seq<byte>, l3: nat, end: nat)
    requires l3 <= end && SameOutside(s0, s1, 0, l3) && SameOutside(s1, s2, l3, end)
    ensures SameOutside(s0, s2, 0, end)
  {
  }
}
