/** Writing PCAP files, and loading one into a packet pool: a first pass counts and measures the
    packets, then every mbuf of the pool takes the next record and the file is rewound at its end
    (app/pktgen-pcap.c). fread stops at the end of the file; fseek may go beyond it. */
module PcapReplay {
  import opened Arithmetic
  import opened Bytes
  import opened Constants
  import opened PcapFormat
  import opened Sequences
  import opened Wrappers

  datatype HdrInfo = HdrInfo(magic: nat, major: nat, minor: nat, thiszone: nat, sigfigs: nat, snaplen: nat,
                             network: nat)

  function InfoOf(file: seq<byte>, convert: bool): HdrInfo
    requires |file| >= FILE_HDR
  {
    HdrInfo(ReadWord(file, 0, convert), ReadHalf(file, 4, convert), ReadHalf(file, 6, convert),
            ReadWord(file, 8, convert), ReadWord(file, 12, convert), ReadWord(file, 16, convert),
            ReadWord(file, 20, convert))
  }

  /** incl_len of the record header at pos. */
  function InclLen(file: seq<byte>, pos: nat, convert: bool): nat
    requires pos + REC_HDR <= |file|
  {
    ReadWord(file, pos + 8, convert)
  }

  /** The lengths the first pass sees. */
  function Lengths(file: seq<byte>, pos: nat, convert: bool): seq<nat>
    decreases |file| - pos
  {
    if pos + REC_HDR > |file| then []
    else
      var len := InclLen(file, pos, convert);
      [len] + Lengths(file, pos + REC_HDR + len, convert)
  }

  function Sum(s: seq<nat>): nat {
    if s == [] then 0 else Sum(s[..|s| - 1]) + s[|s| - 1]
  }

  ghost predicate IsMax(s: seq<nat>, m: nat) {
    (forall i :: 0 <= i < |s| ==> s[i] <= m) && (m in s || (s == [] && m == 0))
  }

  datatype OpenResult = Opened | ShortHeader | BadMagic | DividesByZero

  /** What the first pass must find for the file to be opened. */
  function OpenOutcome(file: seq<byte>): OpenResult {
    if |file| < FILE_HDR then ShortHeader
    else
      var magic := ReadLe32(file, 0);
      if magic != PCAP_MAGIC_NUMBER && magic != Ntohl(PCAP_MAGIC_NUMBER) then BadMagic
      else if Lengths(file, FILE_HDR, magic != PCAP_MAGIC_NUMBER) == [] then DividesByZero
      else Opened
  }

  /** A filled mbuf: the bytes read into it and its two length fields. */
  datatype Loaded = Loaded(data: seq<byte>, dataLen: nat, pktLen: nat)

  /** What packet p leaves in its mbuf. */
  function Filled(p: seq<byte>): Loaded {
    Loaded(p, |p| % TWO_16, |p|)
  }

  /** Where the next record is read: here, or after a rewind if no whole header is left. */
  function RecordStart(file: seq<byte>, pos: nat): nat {
    if pos + REC_HDR <= |file| then pos else FILE_HDR
  }

  /** The bytes fread gets for len bytes at pos. */
  function Available(file: seq<byte>, pos: nat, len: nat): seq<byte>
    requires pos <= |file|
  {
    if pos + len <= |file| then file[pos..pos + len] else file[pos..]
  }

  function LoadedAt(file: seq<byte>, pos: nat, convert: bool): Option<Loaded> {
    var start := RecordStart(file, pos);
    if start + REC_HDR > |file| then None
    else
      var len := InclLen(file, start, convert);
      var data := Available(file, start + REC_HDR, len);
      if data == [] then None else Some(Loaded(data, len % TWO_16, len))
  }

  class PcapInfo {
    const file: seq<byte>
    var pos: nat
    var convert: bool
    var info: HdrInfo
    var maxPktSize: nat
    var avgPktSize: nat
    var pktCount: nat

    constructor (file: seq<byte>)
      ensures this.file == file && pos == 0 && pktCount == 0
    {
      this.file := file;
      pos, convert, maxPktSize, avgPktSize, pktCount := 0, false, 0, 0, 0;
      info := HdrInfo(0, 0, 0, 0, 0, 0, 0);
    }

    /** The counting loop of pcap_get_info, from the first record on. */
    method CountPackets() returns (total: nat)
      requires pos == FILE_HDR && pktCount == 0
      modifies this`pos, this`pktCount, this`maxPktSize
      ensures var lens := Lengths(file, FILE_HDR, convert);
              pktCount == |lens| && IsMax(lens, maxPktSize) && total == Sum(lens)
    {
      total := 0;
      maxPktSize := 0;
      ghost var seen: seq<nat> := [];
      ghost var all := Lengths(file, FILE_HDR, convert);
      while pos + REC_HDR <= |file|
        invariant seen + Lengths(file, pos, convert) == all
        invariant Measured(seen, pktCount, total, maxPktSize)
        decreases |file| - pos
      {
        var len: nat := InclLen(file, pos, convert);
        ghost var rest: seq<nat> := Lengths(file, pos + REC_HDR + len, convert);
        assert Lengths(file, pos, convert) == [len] + rest;
        OneMoreLength(seen, len, rest, pktCount, total, maxPktSize);
        pos := pos + REC_HDR + len;
        pktCount := pktCount + 1;
        if len > maxPktSize {
          maxPktSize := len;
        }
        total := total + len;
        seen := seen + [len];
      }
      assert seen + [] == seen;
    }

    /** pcap_get_info. */
    method GetInfo() returns (r: OpenResult)
      requires pos == 0 && pktCount == 0
      modifies this
      ensures r == OpenOutcome(file)
      ensures r == Opened ==>
                && convert == (ReadLe32(file, 0) != PCAP_MAGIC_NUMBER)
                && info == InfoOf(file, convert) && pos == FILE_HDR
                && (var lens := Lengths(file, FILE_HDR, convert);
                    pktCount == |lens| && pktCount > 0 && IsMax(lens, maxPktSize) && avgPktSize == Sum(lens) / pktCount)
    {
      if |file| < FILE_HDR {
        return ShortHeader;
      }
      pos := FILE_HDR;
      var magic := ReadLe32(file, 0);
      if magic == PCAP_MAGIC_NUMBER {
        convert := false;
      } else if magic == Ntohl(PCAP_MAGIC_NUMBER) {
        convert := true;
      } else {
        return BadMagic;
      }
      info := InfoOf(file, convert);
      var total := CountPackets();
      if pktCount == 0 {
        return DividesByZero;
      }
      QuotientAtLeast(total, pktCount, 0);
      avgPktSize := total / pktCount;
      pos := FILE_HDR;
      r := Opened;
    }

    /** The header read of mbuf_iterate_cb, with its rewind at the end of the file. */
    method SeekRecord() returns (ok: bool)
      modifies this`pos
      ensures pos == RecordStart(file, old(pos))
      ensures ok <==> pos + REC_HDR <= |file|
    {
      if pos + REC_HDR > |file| {
        pos := FILE_HDR;
      }
      ok := pos + REC_HDR <= |file|;
    }

    /** mbuf_iterate_cb: None where the original exits. */
    method FillMbuf() returns (m: Option<Loaded>)
      modifies this`pos
      ensures m == LoadedAt(file, old(pos), convert)
      ensures m.Some? ==> pos == RecordStart(file, old(pos)) + REC_HDR + |m.value.data|
    {
      var ok := SeekRecord();
      if !ok {
        return None;
      }
      var len := InclLen(file, pos, convert);
      pos := pos + REC_HDR;
      var data := Available(file, pos, len);
      if data == [] {
        return None;
      }
      pos := pos + |data|;
      return Some(Loaded(data, len % TWO_16, len));
    }
  }

  ghost predicate Measured(seen: seq<nat>, count: nat, total: nat, max: nat) {
    count == |seen| && total == Sum(seen) && IsMax(seen, max)
  }

  lemma OneMoreLength(seen: seq<nat>, len: nat, rest: seq<nat>, count: nat, total: nat, max: nat)
    requires Measured(seen, count, total, max)
    ensures seen + ([len] + rest) == (seen + [len]) + rest
    ensures Measured(seen + [len], count + 1, total + len, if len > max then len else max)
  {
    assert (seen + [len])[..|seen|] == seen;
    var next, top := seen + [len], if len > max then len else max;
    assert top in next by {
      if len > max || seen == [] {
        assert next[|seen|] == top;
      } else {
        var i :| 0 <= i < |seen| && seen[i] == max;
        assert next[i] == max;
      }
    }
  }

  /** The file being written. */
  class PcapFile {
    var contents: seq<byte>

    /** pktgen_create_pcap_file. */
    constructor ()
      ensures contents == FileOf([], false)
    {
      contents := FileHeader(false);
    }

    /** pktgen_write_mbuf_to_pcap_file for a packet in one segment. */
    method WriteMbuf(packet: seq<byte>, ghost written: seq<seq<byte>>)
      requires contents == FileOf(written, false)
      modifies this
      ensures contents == FileOf(written + [packet], false)
    {
      FileAppend(written, packet, false);
      contents := contents + RecordHeader(|packet|, false);
      contents := contents + packet;
      Regroup(FileOf(written, false), RecordHeader(|packet|, false), packet);
    }
  }

  // --- what the writer wrote is what the reader finds

  ghost predicate Writable(packets: seq<seq<byte>>) {
    forall i :: 0 <= i < |packets| ==> 0 < |packets[i]| < TWO_32
  }

  function Sizes(packets: seq<seq<byte>>): (s: seq<nat>)
    ensures |s| == |packets| && forall i :: 0 <= i < |s| ==> s[i] == |packets[i]|
  {
    seq(|packets|, i requires 0 <= i < |packets| => |packets[i]|)
  }

  lemma RecordParts(file: seq<byte>, o: nat, p: seq<byte>, swapped: bool)
    requires o + REC_HDR + |p| <= |file| && file[o..o + REC_HDR + |p|] == Record(p, swapped)
    ensures file[o + 8..o + 12] == Word(|p|, swapped)
    ensures file[o + REC_HDR..o + REC_HDR + |p|] == p
  {
    var r := Record(p, swapped);
    SubSlice(file, o, o + |r|, 8, 12);
    SubSlice(file, o, o + |r|, REC_HDR, |r|);
    assert r[8..12] == RecordHeader(|p|, swapped)[8..12] == Word(|p|, swapped);
    assert r[REC_HDR..] == p;
  }

  lemma RecordReads(file: seq<byte>, o: nat, p: seq<byte>, swapped: bool)
    requires o + REC_HDR + |p| <= |file| && file[o..o + REC_HDR + |p|] == Record(p, swapped)
    requires |p| < TWO_32
    ensures InclLen(file, o, swapped) == |p| && file[o + REC_HDR..o + REC_HDR + |p|] == p
  {
    RecordParts(file, o, p, swapped);
    WordBack(file, o + 8, |p|, swapped);
  }

  /** The k-th record as the reader sees it. */
  lemma RecordFields(packets: seq<seq<byte>>, swapped: bool, k: nat)
    requires k < |packets| && |packets[k]| < TWO_32
    ensures var file, o := FileOf(packets, swapped), Length(packets[..k]);
            && o + REC_HDR + |packets[k]| == Length(packets[..k + 1]) <= |file|
            && InclLen(file, o, swapped) == |packets[k]|
            && file[o + REC_HDR..o + REC_HDR + |packets[k]|] == packets[k]
  {
    RecordInFile(packets, swapped, k);
    RecordReads(FileOf(packets, swapped), Length(packets[..k]), packets[k], swapped);
  }

  lemma LengthsStep(packets: seq<seq<byte>>, swapped: bool, k: nat)
    requires Writable(packets) && k < |packets|
    ensures Lengths(FileOf(packets, swapped), Length(packets[..k]), swapped)
            == [|packets[k]|] + Lengths(FileOf(packets, swapped), Length(packets[..k + 1]), swapped)
  {
    RecordFields(packets, swapped, k);
  }

  lemma LengthsEnd(packets: seq<seq<byte>>, swapped: bool)
    ensures Lengths(FileOf(packets, swapped), Length(packets), swapped) == []
  {
    FileLength(packets, swapped);
  }

  lemma SizesStep(packets: seq<seq<byte>>, k: nat)
    requires k < |packets|
    ensures Sizes(packets)[k..] == [|packets[k]|] + Sizes(packets)[k + 1..]
  {
  }

  lemma {:induction false} LengthsFrom(packets: seq<seq<byte>>, swapped: bool, k: nat)
    requires Writable(packets) && k <= |packets|
    ensures Lengths(FileOf(packets, swapped), Length(packets[..k]), swapped) == Sizes(packets)[k..]
    decreases |packets| - k
  {
    if k < |packets| {
      LengthsFrom(packets, swapped, k + 1);
      LengthsStep(packets, swapped, k);
      SizesStep(packets, k);
    } else {
      LengthsEnd(packets, swapped);
      assert packets[..k] == packets;
    }
  }

  lemma MagicFields(packets: seq<seq<byte>>, swapped: bool)
    ensures var file := FileOf(packets, swapped);
            && |file| >= FILE_HDR
            && ReadLe32(file, 0) == if swapped then Ntohl(PCAP_MAGIC_NUMBER) else PCAP_MAGIC_NUMBER
  {
    var file := FileOf(packets, swapped);
    assert file[0..4] == FileHeader(swapped)[0..4] == Word(PCAP_MAGIC_NUMBER, swapped);
    if !swapped {
      ReadBack32(file, 0, PCAP_MAGIC_NUMBER);
    } else {
      assert Be32(PCAP_MAGIC_NUMBER) == [0xa1, 0xb2, 0xc3, 0xd4];
      assert file[0] == file[0..4][0] && file[1] == file[0..4][1];
      assert file[2] == file[0..4][2] && file[3] == file[0..4][3];
    }
  }

  lemma Slices(a: seq<byte>, b: seq<byte>, c: seq<byte>, d: seq<byte>, e: seq<byte>, f: seq<byte>, g: seq<byte>)
    requires |a| == |d| == |e| == |f| == |g| == 4 && |b| == |c| == 2
    ensures var h := a + (b + c) + d + e + f + g;
            && |h| == FILE_HDR && h[0..4] == a && h[4..6] == b && h[6..8] == c
            && h[8..12] == d && h[12..16] == e && h[16..20] == f && h[20..24] == g
  {
  }

  lemma HeaderSlices(swapped: bool)
    ensures var h := FileHeader(swapped);
            && h[0..4] == Word(PCAP_MAGIC_NUMBER, swapped) && h[4..6] == Half(2, swapped)
            && h[6..8] == Half(4, swapped) && h[8..12] == Word(0, swapped) && h[12..16] == Word(0, swapped)
            && h[16..20] == Word(65535, swapped) && h[20..24] == Word(1, swapped)
  {
    Slices(Word(PCAP_MAGIC_NUMBER, swapped), Half(2, swapped), Half(4, swapped), Word(0, swapped),
           Word(0, swapped), Word(65535, swapped), Word(1, swapped));
  }

  /** The file header byte by byte. */
  lemma FileHeaderBytes()
    ensures var h := FileHeader(false);
            && h[0..4] == [0xd4, 0xc3, 0xb2, 0xa1] && h[4..6] == [2, 0] && h[6..8] == [4, 0]
            && h[8..12] == [0, 0, 0, 0] && h[12..16] == [0, 0, 0, 0]
            && h[16..20] == [255, 255, 0, 0] && h[20..24] == [1, 0, 0, 0]
  {
    HeaderSlices(false);
    assert Le32(PCAP_MAGIC_NUMBER) == [0xd4, 0xc3, 0xb2, 0xa1];
    assert Le16(2) == [2, 0] && Le16(4) == [4, 0];
    assert Le32(0) == [0, 0, 0, 0] && Le32(65535) == [255, 255, 0, 0] && Le32(1) == [1, 0, 0, 0];
  }

  lemma WordInHeader(file: seq<byte>, h: seq<byte>, off: nat, n: nat, swapped: bool)
    requires |h| == FILE_HDR <= |file| && file[..FILE_HDR] == h && off + 4 <= FILE_HDR
    requires n < TWO_32 && h[off..off + 4] == Word(n, swapped)
    ensures ReadWord(file, off, swapped) == n
  {
    SubSlice(file, 0, FILE_HDR, off, off + 4);
    WordBack(file, off, n, swapped);
  }

  lemma HalfInHeader(file: seq<byte>, h: seq<byte>, off: nat, n: nat, swapped: bool)
    requires |h| == FILE_HDR <= |file| && file[..FILE_HDR] == h && off + 2 <= FILE_HDR
    requires n < TWO_16 && h[off..off + 2] == Half(n, swapped)
    ensures ReadHalf(file, off, swapped) == n
  {
    SubSlice(file, 0, FILE_HDR, off, off + 2);
    HalfBack(file, off, n, swapped);
  }

  /** The file header's fields come out the same in either byte order. */
  lemma HeaderFields(file: seq<byte>, h: seq<byte>, swapped: bool)
    requires h == FileHeader(swapped) && |h| <= |file| && file[..FILE_HDR] == h
    ensures InfoOf(file, swapped) == HdrInfo(PCAP_MAGIC_NUMBER, 2, 4, 0, 0, 65535, 1)
  {
    HeaderSlices(swapped);
    WordInHeader(file, h, 0, PCAP_MAGIC_NUMBER, swapped);
    HalfInHeader(file, h, 4, 2, swapped);
    HalfInHeader(file, h, 6, 4, swapped);
    WordInHeader(file, h, 8, 0, swapped);
    WordInHeader(file, h, 12, 0, swapped);
    WordInHeader(file, h, 16, 65535, swapped);
    WordInHeader(file, h, 20, 1, swapped);
  }

  lemma SwappedMagic()
    ensures Ntohl(PCAP_MAGIC_NUMBER) == SWAPPED_MAGIC
  {
    NtohlOf(0xd4, 0xc3, 0xb2, 0xa1);
  }

  /** A written file, or one with all its header fields in the other byte order, opens exactly when
      it holds a packet, and the first pass sees every packet's length. With none, the original
      divides by zero before it tests for an empty file. */
  lemma WrittenFileOpens(packets: seq<seq<byte>>, swapped: bool)
    requires Writable(packets)
    ensures OpenOutcome(FileOf(packets, swapped)) == if packets == [] then DividesByZero else Opened
    ensures (ReadLe32(FileOf(packets, swapped), 0) != PCAP_MAGIC_NUMBER) == swapped
    ensures Lengths(FileOf(packets, swapped), FILE_HDR, swapped) == Sizes(packets)
  {
    MagicFields(packets, swapped);
    LengthsFrom(packets, swapped, 0);
    assert Length(packets[..0]) == FILE_HDR;
    SwappedMagic();
  }

  lemma LoadsHere(packets: seq<seq<byte>>, swapped: bool, k: nat, pos: nat)
    requires Writable(packets) && k < |packets|
    requires RecordStart(FileOf(packets, swapped), pos) == Length(packets[..k])
    ensures LoadedAt(FileOf(packets, swapped), pos, swapped) == Some(Filled(packets[k]))
    ensures RecordStart(FileOf(packets, swapped), pos) + REC_HDR + |packets[k]| == Length(packets[..k + 1])
  {
    RecordFields(packets, swapped, k);
    StartsHere(FileOf(packets, swapped), pos, Length(packets[..k]), packets[k], swapped);
  }

  lemma StartsAt(packets: seq<seq<byte>>, swapped: bool, k: nat)
    requires Writable(packets) && packets != [] && k <= |packets|
    ensures RecordStart(FileOf(packets, swapped), Length(packets[..k]))
            == Length(packets[..if k == |packets| then 0 else k])
  {
    FileLength(packets, swapped);
    if k == |packets| {
      assert packets[..k] == packets;
    } else {
      RecordFields(packets, swapped, k);
    }
  }

  /** From the start of a record, or from the end of the file, an mbuf gets that packet, or the
      first one. */
  lemma LoadsRecord(packets: seq<seq<byte>>, swapped: bool, k: nat)
    requires Writable(packets) && packets != [] && k <= |packets|
    ensures var file, pos, i := FileOf(packets, swapped), Length(packets[..k]), if k == |packets| then 0 else k;
            && LoadedAt(file, pos, swapped) == Some(Filled(packets[i]))
            && RecordStart(file, pos) + REC_HDR + |packets[i]| == Length(packets[..i + 1])
  {
    StartsAt(packets, swapped, k);
    LoadsHere(packets, swapped, if k == |packets| then 0 else k, Length(packets[..k]));
  }

  lemma StartsHere(file: seq<byte>, pos: nat, start: nat, p: seq<byte>, swapped: bool)
    requires start == RecordStart(file, pos) && p != []
    requires start + REC_HDR + |p| <= |file| && InclLen(file, start, swapped) == |p|
    requires file[start + REC_HDR..start + REC_HDR + |p|] == p
    ensures LoadedAt(file, pos, swapped) == Some(Filled(p))
  {
  }

  /** The packet that the m-th mbuf takes, going round n packets. */
  function Turn(n: nat, m: nat): (i: nat)
    requires n > 0
    ensures i < n
  {
    if m == 0 then 0
    else
      var i := Turn(n, m - 1);
      if i + 1 == n then 0 else i + 1
  }

  lemma {:induction false} TurnIsModulo(n: nat, m: nat)
    requires n > 0
    ensures Turn(n, m) == m % n
  {
    if m == 0 {
      DivModUnique(0, n, 0, 0);
    } else {
      TurnIsModulo(n, m - 1);
      NextModulo(m - 1, n);
    }
  }

  method FillNext(pcap: PcapInfo, ghost packets: seq<seq<byte>>, ghost k: nat) returns (mbuf: Loaded)
    requires Writable(packets) && packets != [] && k <= |packets|
    requires pcap.file == FileOf(packets, pcap.convert) && pcap.pos == Length(packets[..k])
    modifies pcap`pos
    ensures var i := if k == |packets| then 0 else k;
            mbuf == Filled(packets[i]) && pcap.pos == Length(packets[..i + 1])
  {
    LoadsRecord(packets, pcap.convert, k);
    var m := pcap.FillMbuf();
    mbuf := m.value;
  }

  /** What a pool of m mbufs holds after cyclic replay. */
  function Replay(packets: seq<seq<byte>>, m: nat): (pool: seq<Loaded>)
    requires packets != []
    ensures |pool| == m
  {
    if m == 0 then [] else Replay(packets, m - 1) + [Filled(packets[Turn(|packets|, m - 1)])]
  }

  /** Mbuf i holds packet i mod n: its bytes, its length in 16 bits and its length. */
  lemma {:induction false} ReplayIsCyclic(packets: seq<seq<byte>>, m: nat, i: nat)
    requires packets != [] && i < m
    ensures var p := packets[i % |packets|]; Replay(packets, m)[i] == Loaded(p, |p| % 65536, |p|)
  {
    if i == m - 1 {
      TurnIsModulo(|packets|, i);
    } else {
      ReplayIsCyclic(packets, m - 1, i);
    }
  }

  /** rte_mempool_obj_iter over a pool of m mbufs, right after the first pass over a file that holds
      these packets with its header fields in either byte order. */
  method FillPool(pcap: PcapInfo, m: nat, ghost packets: seq<seq<byte>>) returns (pool: seq<Loaded>)
    requires Writable(packets) && packets != []
    requires pcap.file == FileOf(packets, pcap.convert) && pcap.pos == FILE_HDR
    modifies pcap`pos
    ensures pool == Replay(packets, m)
  {
    pool := [];
    ghost var n: nat, k: nat := |packets|, 0;
    assert Length(packets[..0]) == FILE_HDR;
    for i := 0 to m
      invariant k <= n && pcap.pos == Length(packets[..k])
      invariant Turn(n, i) == if k == n then 0 else k
      invariant pool == Replay(packets, i)
    {
      var mbuf := FillNext(pcap, packets, k);
      k := Turn(n, i) + 1;
      pool := pool + [mbuf];
    }
  }
}
