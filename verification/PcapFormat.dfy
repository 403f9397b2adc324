/** PCAP files as bytes (app/pktgen-pcap.c): what the writer puts into one on a little-endian host,
    the same file with its header fields in the other byte order, and reading the fields back. */
module PcapFormat {
  import opened Arithmetic
  import opened Bytes
  import opened Constants
  import opened Sequences

  const PCAP_MAGIC_NUMBER := 0xa1b2c3d4
  const SWAPPED_MAGIC := 0xd4c3b2a1
  const FILE_HDR := 24        // sizeof(pcap_hdr_t)
  const REC_HDR := 16         // sizeof(pcap_record_hdr_t)

  /** ntohl on a little-endian host: the four bytes reversed. */
  function Ntohl(n: nat): (r: nat) {
    var n1 := n / 256;
    var n2 := n1 / 256;
    var n3 := n2 / 256;
    n % 256 * 0x100_0000 + n1 % 256 * 0x1_0000 + n2 % 256 * 0x100 + n3 % 256
  }

  function Ntohs(n: nat): (r: nat) {
    n % 256 * 256 + n / 256 % 256
  }

  function Word(n: nat, swapped: bool): (bs: seq<byte>)
    ensures |bs| == 4
  {
    if swapped then Be32(n) else Le32(n)
  }

  function Half(n: nat, swapped: bool): (bs: seq<byte>)
    ensures |bs| == 2
  {
    if swapped then Be16(n) else Le16(n)
  }

  /** A field as the reader has it after converting. */
  function ReadWord(file: seq<byte>, off: nat, convert: bool): nat
    requires off + 4 <= |file|
  {
    if convert then Ntohl(ReadLe32(file, off)) else ReadLe32(file, off)
  }

  function ReadHalf(file: seq<byte>, off: nat, convert: bool): nat
    requires off + 2 <= |file|
  {
    if convert then Ntohs(ReadLe16(file, off)) else ReadLe16(file, off)
  }

  lemma NtohlOf(b0: nat, b1: nat, b2: nat, b3: nat)
    requires b0 < 256 && b1 < 256 && b2 < 256 && b3 < 256
    ensures Ntohl(b0 + 256 * (b1 + 256 * (b2 + 256 * b3)))
            == b0 * 0x100_0000 + b1 * 0x1_0000 + b2 * 0x100 + b3
  {
    var n2 := b2 + 256 * b3;
    var n1 := b1 + 256 * n2;
    DivModUnique(b0 + 256 * n1, 256, n1, b0);
    DivModUnique(n1, 256, n2, b1);
    DivModUnique(n2, 256, b3, b2);
    DivModUnique(b3, 256, 0, b3);
  }

  /** Reversing the bytes of a field read as little-endian reads it as big-endian. */
  lemma NtohlReadsBigEndian(file: seq<byte>, off: nat)
    requires off + 4 <= |file|
    ensures Ntohl(ReadLe32(file, off)) == TWO_16 * ReadBe16(file, off) + ReadBe16(file, off + 2)
  {
    NtohlOf(file[off], file[off + 1], file[off + 2], file[off + 3]);
  }

  lemma BackFromBe16(file: seq<byte>, off: nat, n: nat)
    requires off + 2 <= |file| && n < TWO_16 && file[off..off + 2] == Be16(n)
    ensures ReadBe16(file, off) == n
  {
    assert file[off] == Be16(n)[0] && file[off + 1] == Be16(n)[1];
  }

  lemma BackFromLe16(file: seq<byte>, off: nat, n: nat)
    requires off + 2 <= |file| && n < TWO_16 && file[off..off + 2] == Le16(n)
    ensures ReadLe16(file, off) == n
  {
    ReadBack16(file, off, n);
  }

  lemma NtohsReadsBigEndian(file: seq<byte>, off: nat)
    requires off + 2 <= |file|
    ensures Ntohs(ReadLe16(file, off)) == ReadBe16(file, off)
  {
    DivModUnique(ReadLe16(file, off), 256, file[off + 1], file[off]);
  }

  lemma HalfBack(file: seq<byte>, off: nat, n: nat, swapped: bool)
    requires off + 2 <= |file| && n < TWO_16 && file[off..off + 2] == Half(n, swapped)
    ensures ReadHalf(file, off, swapped) == n
  {
    if swapped {
      BackFromBe16(file, off, n);
      NtohsReadsBigEndian(file, off);
    } else {
      BackFromLe16(file, off, n);
    }
  }

  /** A field written in either order reads back when it is converted exactly if swapped. */
  lemma WordBack(file: seq<byte>, off: nat, n: nat, swapped: bool)
    requires off + 4 <= |file| && n < TWO_32 && file[off..off + 4] == Word(n, swapped)
    ensures ReadWord(file, off, swapped) == n
  {
    if swapped {
      assert file[off..off + 2] == Be32(n)[..2] == Be16(n / TWO_16);
      assert file[off + 2..off + 4] == Be32(n)[2..] == Be16(n % TWO_16);
      BackFromBe16(file, off, n / TWO_16);
      BackFromBe16(file, off + 2, n % TWO_16);
      NtohlReadsBigEndian(file, off);
    } else {
      ReadBack32(file, off, n);
    }
  }

  // --- what the writer writes

  /** pktgen_create_pcap_file: magic, version 2.4, zone, sigfigs, snaplen, Ethernet. */
  function FileHeader(swapped: bool): (bs: seq<byte>)
    ensures |bs| == FILE_HDR
  {
    Word(PCAP_MAGIC_NUMBER, swapped) + (Half(2, swapped) + Half(4, swapped)) + Word(0, swapped)
    + Word(0, swapped) + Word(65535, swapped) + Word(1, swapped)
  }

  function RecordHeader(len: nat, swapped: bool): (bs: seq<byte>)
    ensures |bs| == REC_HDR
  {
    Word(0, swapped) + Word(0, swapped) + Word(len, swapped) + Word(len, swapped)
  }

  /** A record header: no time, and the packet's length twice, least significant byte first. */
  lemma RecordHeaderBytes(len: nat, off: nat)
    requires len < TWO_32 && (off == 8 || off == 12)
    ensures var h := RecordHeader(len, false);
      && (forall k :: 0 <= k < 8 ==> h[k] == 0)
      && h[off] as int + 0x100 * h[off + 1] as int + 0x1_0000 * h[off + 2] as int + 0x100_0000 * h[off + 3] as int
         == len
  {
    var h := RecordHeader(len, false);
    assert Le32(0) == [0, 0, 0, 0];
    assert forall k :: 0 <= k < 4 ==> h[off + k] == Le32(len)[k];
    assert h[off + 0] == Le32(len)[0];
  }

  /** pktgen_write_mbuf_to_pcap_file. */
  function Record(p: seq<byte>, swapped: bool): seq<byte> {
    RecordHeader(|p|, swapped) + p
  }

  function Records(packets: seq<seq<byte>>, swapped: bool): seq<byte> {
    if packets == [] then []
    else Records(packets[..|packets| - 1], swapped) + Record(packets[|packets| - 1], swapped)
  }

  function FileOf(packets: seq<seq<byte>>, swapped: bool): seq<byte> {
    FileHeader(swapped) + Records(packets, swapped)
  }

  lemma FileAppend(packets: seq<seq<byte>>, p: seq<byte>, swapped: bool)
    ensures FileOf(packets + [p], swapped) == FileOf(packets, swapped) + Record(p, swapped)
  {
    assert (packets + [p])[..|packets|] == packets;
    Regroup(FileHeader(swapped), Records(packets, swapped), Record(p, swapped));
  }

  /** The length of the file, and so where the next record starts. */
  function Length(packets: seq<seq<byte>>): (n: nat)
    ensures n >= FILE_HDR
  {
    if packets == [] then FILE_HDR
    else Length(packets[..|packets| - 1]) + REC_HDR + |packets[|packets| - 1]|
  }

  lemma {:induction false} FileLength(packets: seq<seq<byte>>, swapped: bool)
    ensures |FileOf(packets, swapped)| == Length(packets)
  {
    if packets != [] {
      FileLength(packets[..|packets| - 1], swapped);
    }
  }

  lemma LengthNext(packets: seq<seq<byte>>, k: nat)
    requires k < |packets|
    ensures Length(packets[..k + 1]) == Length(packets[..k]) + REC_HDR + |packets[k]|
  {
    assert packets[..k + 1][..k] == packets[..k];
  }

  lemma {:induction false} FilePrefix(packets: seq<seq<byte>>, swapped: bool, k: nat)
    requires k <= |packets|
    ensures FileOf(packets[..k], swapped) <= FileOf(packets, swapped)
    decreases |packets| - k
  {
    if k < |packets| {
      FilePrefix(packets, swapped, k + 1);
      assert packets[..k + 1] == packets[..k] + [packets[k]];
      FileAppend(packets[..k], packets[k], swapped);
    } else {
      assert packets[..k] == packets;
    }
  }

  lemma AppendedSlice(a: seq<byte>, b: seq<byte>, ab: seq<byte>, file: seq<byte>, from: nat, to: nat)
    requires ab == a + b && ab <= file && from == |a| && to == from + |b|
    ensures to <= |file| && file[from..to] == b
  {
    assert file[..|ab|] == ab;
  }

  lemma PrefixGrows(packets: seq<seq<byte>>, swapped: bool, k: nat)
    requires k < |packets|
    ensures FileOf(packets[..k + 1], swapped) == FileOf(packets[..k], swapped) + Record(packets[k], swapped)
    ensures Length(packets[..k + 1]) == Length(packets[..k]) + |Record(packets[k], swapped)|
    ensures |FileOf(packets[..k], swapped)| == Length(packets[..k])
  {
    assert packets[..k + 1] == packets[..k] + [packets[k]];
    FileAppend(packets[..k], packets[k], swapped);
    FileLength(packets[..k], swapped);
    LengthNext(packets, k);
  }

  /** The bytes of the k-th record lie after the records before it. */
  lemma RecordInFile(packets: seq<seq<byte>>, swapped: bool, k: nat)
    requires k < |packets|
    ensures Length(packets[..k]) + |Record(packets[k], swapped)| == Length(packets[..k + 1])
    ensures Length(packets[..k + 1]) <= |FileOf(packets, swapped)|
    ensures FileOf(packets, swapped)[Length(packets[..k])..Length(packets[..k + 1])] == Record(packets[k], swapped)
  {
    FilePrefix(packets, swapped, k + 1);
    PrefixGrows(packets, swapped, k);
    AppendedSlice(FileOf(packets[..k], swapped), Record(packets[k], swapped), FileOf(packets[..k + 1], swapped),
                  FileOf(packets, swapped), Length(packets[..k]), Length(packets[..k + 1]));
  }
}
