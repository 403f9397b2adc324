/** From the text of TCP flags to the bytes of the header: the text form names twelve bits
    (lib/common/pg_inet.h:177-203), the template keeps them in 16 bits, and the constructor stores
    the flags in one byte next to the data offset (app/pktgen-tcp.c:50-52). */
module TcpWire {
  import opened Bytes
  import opened Headers
  import opened TcpFlags

  /** The flag word as a number, from its first k bits. */
  function Word(flags: Flags, k: nat): nat {
    if k == 0 then 0 else Word(flags, k - 1) + if k - 1 in flags then Power(k - 1) else 0
  }

  function Power(k: nat): (p: nat)
    ensures p > 0
  {
    if k == 0 then 1 else 2 * Power(k - 1)
  }

  /** tcp_flags of the template that the text sets. */
  function FlagWord(flags: Flags): nat { Word(flags, 12) }

  const STORED_FLAGS: Flags := {0, 1, 2, 3, 4, 5, 6, 7}

  lemma {:induction false} WordBelow(flags: Flags, k: nat)
    ensures Word(flags, k) < Power(k)
  {
    if k > 0 {
      WordBelow(flags, k - 1);
    }
  }

  /** The bits from j on, on top of the first j. */
  lemma {:induction false} WordSplit(flags: Flags, j: nat, k: nat) returns (high: nat)
    requires j <= k
    ensures Word(flags, k) == Word(flags, j) + Power(j) * high
    ensures high == 0 <==> forall b :: j <= b < k ==> b !in flags
  {
    if j == k {
      high := 0;
    } else {
      var h := WordSplit(flags, j, k - 1);
      var p := PowerBetween(j, k - 1);
      high := h + if k - 1 in flags then p else 0;
      assert Power(j) * (h + p) == Power(j) * h + Power(j) * p;
    }
  }

  lemma {:induction false} PowerBetween(j: nat, k: nat) returns (p: nat)
    requires j <= k
    ensures p > 0 && Power(k) == Power(j) * p
  {
    if j == k {
      p := 1;
    } else {
      var q := PowerBetween(j, k - 1);
      p := 2 * q;
      assert Power(j) * (2 * q) == 2 * (Power(j) * q);
    }
  }

  lemma {:induction false} SameLowBits(v: Flags, w: Flags, k: nat)
    requires forall b :: 0 <= b < k ==> (b in v <==> b in w)
    ensures Word(v, k) == Word(w, k)
  {
    if k > 0 {
      SameLowBits(v, w, k - 1);
    }
  }

  lemma Powers()
    ensures Power(8) == 256 && Power(12) == 4096
  {
    assert Power(4) == 16;
    assert Power(8) == 256;
  }

  /** The low eight bits of the word are those of the flags 0..7; it has no others if and only if no
      flag of 8..11 is set. */
  lemma StoredBits(flags: Flags)
    ensures FlagWord(flags) < 4096
    ensures FlagWord(flags) % 256 == FlagWord(flags * STORED_FLAGS)
    ensures FlagWord(flags) < 256 <==> forall b :: 8 <= b < 12 ==> b !in flags
  {
    Powers();
    var stored := flags * STORED_FLAGS;
    var high := WordSplit(flags, 8, 12);
    var none := WordSplit(stored, 8, 12);
    WordBelow(flags, 8);
    WordBelow(flags, 12);
    SameLowBits(flags, stored, 8);
    assert FlagWord(flags) == 256 * high + Word(flags, 8);
  }

  /** Bytes 12 and 13 of a TCP header that the constructors built. */
  lemma FlagBytes(s: seq<byte>, l4: nat, pkt: PktSeq, len: nat)
    requires pkt.l4 == TCP && L4Built(s, l4, pkt, len)
    ensures l4 + 14 <= |s| && ReadBe16(s, l4 + 12) == 0x5000 + pkt.tcpFlags % 256
    ensures ReadBe16(s, l4 + 12) % 4096 == pkt.tcpFlags % 256
  {
    var h := TcpHeader(pkt);
    var front := Be16(pkt.sport) + Be16(pkt.dport) + Be32(pkt.tcpSeq) + Be32(pkt.tcpAck);
    assert h == front + ([0x50, pkt.tcpFlags % 256] + Be16(DEFAULT_WND_SIZE));
    assert |front| == 12 && h[12] == 0x50 && h[13] == pkt.tcpFlags % 256;
    assert s[l4 + 12] == h[12] && s[l4 + 13] == h[13];
  }

  /** The twelve bits behind the data offset carry the template's flag word if and only if it is
      below 256. */
  lemma WordReachesTheWireIff(s: seq<byte>, l4: nat, pkt: PktSeq, len: nat)
    requires pkt.l4 == TCP && L4Built(s, l4, pkt, len)
    ensures l4 + 14 <= |s|
    ensures ReadBe16(s, l4 + 12) % 4096 == pkt.tcpFlags <==> pkt.tcpFlags < 256
  {
    FlagBytes(s, l4, pkt, len);
  }

  /** What they carry of any flags: those of 0..7; so all of them if and only if none of rs0..rs3
      is set. */
  lemma FlagsReachTheWireIff(s: seq<byte>, l4: nat, pkt: PktSeq, len: nat, flags: Flags)
    requires pkt.l4 == TCP && L4Built(s, l4, pkt, len) && pkt.tcpFlags == FlagWord(flags)
    ensures l4 + 14 <= |s|
    ensures ReadBe16(s, l4 + 12) % 4096 == FlagWord(flags * STORED_FLAGS)
    ensures ReadBe16(s, l4 + 12) % 4096 == FlagWord(flags) <==> forall b :: 8 <= b < 12 ==> b !in flags
  {
    StoredBits(flags);
    FlagBytes(s, l4, pkt, len);
    WordReachesTheWireIff(s, l4, pkt, len);
  }

  lemma FieldsOfPair(a: string, b: string, max: nat)
    requires ',' !in a && ',' !in b && b != "" && max > 1
    ensures Fields(a + "," + b, max) == [a, b]
  {
    FieldThenRest(a, b, max);
    LastField(b, max - 1);
  }

  lemma ParsedPair(list: seq<TcpFlag>, a: string, b: string)
    requires a != "clr" && b != "clr"
    ensures Parsed(list, [a, b]) == Lookup(list, a) + Lookup(list, b)
  {
    assert [a, b][..1] == [a] && [a][..0] == [];
    assert Parsed(list, [a]) == Lookup(list, a);
  }

  /** The text names flag i, then flag j of the table. */
  lemma PairOfFlags(list: seq<TcpFlag>, mask: Flags, i: nat, j: nat, max: nat)
    requires GoodTable(list, mask) && i < |list| && j < |list| && max > 1
    ensures Parsed(list, Fields(list[i].name + "," + list[j].name, max)) == {list[i].bit, list[j].bit}
  {
    var a, b := list[i].name, list[j].name;
    FieldsOfPair(a, b, max);
    ParsedPair(list, a, b);
    LookupOwn(list, i);
    LookupOwn(list, j);
  }

  /** "rs0,syn" sets bits 11 and 1, 2050. */
  lemma RsAndSynWord(list: seq<TcpFlag>, text: string)
    requires list == TCP_FLAGS_LIST && text == "rs0,syn"
    ensures Parsed(list, Fields(text, MAX_FIELDS)) == {11, 1}
    ensures FlagWord(Parsed(list, Fields(text, MAX_FIELDS))) == 2050
  {
    TcpTableIsGood(list, TCP_FLAGS_MASK);
    RsAndSyn(list, text);
    PairOfFlags(list, TCP_FLAGS_MASK, 0, 10, MAX_FIELDS);
    WordOfTwo();
  }

  /** A header built from it carries 2, syn alone. */
  lemma ReservedFlagIsLost(list: seq<TcpFlag>, text: string, s: seq<byte>, l4: nat, pkt: PktSeq, len: nat)
    requires list == TCP_FLAGS_LIST && text == "rs0,syn"
    requires pkt.l4 == TCP && L4Built(s, l4, pkt, len)
    requires pkt.tcpFlags == FlagWord(Parsed(list, Fields(text, MAX_FIELDS)))
    ensures pkt.tcpFlags == 2050 && l4 + 14 <= |s| && ReadBe16(s, l4 + 12) % 4096 == 2
  {
    RsAndSynWord(list, text);
    SynAlone(s, l4, pkt, len);
  }

  lemma SynAlone(s: seq<byte>, l4: nat, pkt: PktSeq, len: nat)
    requires pkt.l4 == TCP && L4Built(s, l4, pkt, len) && pkt.tcpFlags == 2050
    ensures l4 + 14 <= |s| && ReadBe16(s, l4 + 12) % 4096 == 2
  {
    FlagBytes(s, l4, pkt, len);
  }

  lemma RsAndSyn(list: seq<TcpFlag>, text: string)
    requires list == TCP_FLAGS_LIST && text == "rs0,syn"
    ensures list[0] == TcpFlag("rs0", 11) && list[10] == TcpFlag("syn", 1)
    ensures text == list[0].name + "," + list[10].name
  {
    assert "rs0,syn" == "rs0" + "," + "syn";
  }

  lemma WordOfTwo()
    ensures FlagWord({11, 1}) == 2050
  {
    var f: Flags := {11, 1};
    Powers();
    assert Word(f, 2) == 2;
    assert Word(f, 5) == 2;
    assert Word(f, 8) == 2;
    assert Word(f, 11) == 2;
    assert Power(11) == 2048;
  }
}
