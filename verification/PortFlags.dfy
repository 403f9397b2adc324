/** The port flag word (app/pktgen-port-cfg.h) and the whole operations on it (app/pktgen.h). */
module PortFlags {

  /** The bits of port_flags that the modelled code names; each is a distinct bit of the word. */
  datatype Flag =
    | SendArpRequest | SendGratuitousArp | SendPing4Request | SendPing6Request
    | SendSinglePkts | SendPcapPkts | SendRangePkts | SendSeqPkts
    | SendRandomPkts | SendVlanId | SendMplsLabel | SendQInQIds
    | SendGreIpv4Header | SendGreEtherHeader | SendVxlanPackets | SendLatencyPkts
    | SetupTransmitPkts | SendingPackets | SendForever
    | OtherFlag(bit: nat)

  /** The 64-bit word, as the set of its bits that are 1. */
  type FlagWord = set<Flag>

  const SEND_ARP_PING_REQUESTS: FlagWord :=
    {SendArpRequest, SendGratuitousArp, SendPing4Request, SendPing6Request}
  const EXCLUSIVE_MODES: FlagWord := {SendSinglePkts, SendPcapPkts, SendRangePkts, SendSeqPkts}
  const EXCLUSIVE_PKT_MODES: FlagWord :=
    {SendRandomPkts, SendVlanId, SendMplsLabel, SendQInQIds, SendGreIpv4Header, SendGreEtherHeader,
     SendVxlanPackets, SendLatencyPkts}

  /** pktgen_tst_port_flags: any of the mask's bits. */
  predicate Tst(word: FlagWord, mask: FlagWord) {
    word * mask != {}
  }

  datatype FlagOp = SetBits(mask: FlagWord) | ClrBits(mask: FlagWord) {
    function Effect(word: FlagWord): FlagWord {
      match this
      case SetBits(m) => word + m
      case ClrBits(m) => word - m
    }
  }
}
