/** The per-socket capture buffer (app/pktgen-capture.c): a writer that appends packets to a
    byte zone, and a separate reader that walks the zone when capturing is switched off. */
module Capture {
  import opened Bytes
  import opened Constants
  import opened Sequences

  const HDR_OFFSET_OF_PKT := 12   // bytes before the packet data in a record
  const HDR_SIZE := 16            // sizeof(cap_hdr_t): padded to its 8-byte alignment

  /** A received mbuf: its first segment's bytes and the two lengths it carries. */
  datatype Mbuf = Mbuf(bytes: seq<byte>, dataLen: nat, pktLen: nat) {
    ghost predicate Valid() {
      dataLen < TWO_16 && pktLen < TWO_32 && DataLen() <= |bytes|
    }

    /** A zero length is replaced by 128. */
    function DataLen(): nat { if dataLen == 0 then 128 else dataLen }

    function PktLen(): nat { if pktLen == 0 then 128 else pktLen }
  }

  /** A packet of a burst, with the clock reading taken when it is stored. */
  datatype Rx = Rx(m: Mbuf, now: nat)

  ghost predicate ValidBurst(rx: seq<Rx>) {
    forall x :: x in rx ==> x.m.Valid()
  }

  /** One stored record: pkt_len is kept in 16 bits. */
  datatype Record = Record(tstamp: nat, pktLen: nat, data: seq<byte>)

  function RecordOf(x: Rx): (r: Record)
    requires x.m.Valid()
    ensures Storable(r)
    ensures r.pktLen == 0 <==> x.m.pktLen != 0 && x.m.pktLen % TWO_16 == 0
  {
    Record(x.now % TWO_64, x.m.PktLen() % TWO_16, x.m.bytes[..x.m.DataLen()])
  }

  predicate Storable(r: Record) {
    r.tstamp < TWO_64 && r.pktLen < TWO_16 && 1 <= |r.data| < TWO_16
  }

  function Encode(r: Record): (bs: seq<byte>)
    ensures |bs| == HDR_OFFSET_OF_PKT + |r.data|
  {
    Le64(r.tstamp) + Le16(r.pktLen) + Le16(|r.data|) + r.data
  }

  function EncodeAll(rs: seq<Record>): (bs: seq<byte>)
  {
    if rs == [] then [] else EncodeAll(rs[..|rs| - 1]) + Encode(rs[|rs| - 1])
  }

  /** What one bulk appends: its packets one by one, up to the first that does not fit. */
  function Appended(rx: seq<Rx>, tail: nat, end: int): (rs: seq<Record>)
    requires ValidBurst(rx)
  {
    if rx == [] || tail + HDR_OFFSET_OF_PKT + rx[0].m.DataLen() > end then []
    else [RecordOf(rx[0])] + Appended(rx[1..], tail + HDR_OFFSET_OF_PKT + rx[0].m.DataLen(), end)
  }

  function Size(rx: seq<Rx>): nat {
    if rx == [] then 0 else HDR_OFFSET_OF_PKT + rx[0].m.DataLen() + Size(rx[1..])
  }

  /** Each bulk contributes its longest fitting prefix, in order and unchanged. */
  lemma {:induction false} AppendedIsLongestPrefix(rx: seq<Rx>, tail: nat, end: int)
    requires tail <= end && ValidBurst(rx)
    ensures var rs := Appended(rx, tail, end);
      && |rs| <= |rx|
      && (forall k :: 0 <= k < |rs| ==> rs[k] == RecordOf(rx[k]))
      && tail + Size(rx[..|rs|]) <= end
      && (forall k :: |rs| < k <= |rx| ==> tail + Size(rx[..k]) > end)
  {
    var rs := Appended(rx, tail, end);
    if rx != [] {
      if rs == [] {
        assert rx[..0] == [];
        forall k | 0 < k <= |rx| ensures tail + Size(rx[..k]) > end {
          assert rx[..k][0] == rx[0];
        }
      } else {
        var tail' := tail + HDR_OFFSET_OF_PKT + rx[0].m.DataLen();
        AppendedIsLongestPrefix(rx[1..], tail', end);
        forall k | 0 < k <= |rx| ensures tail + Size(rx[..k]) == tail' + Size(rx[1..][..k - 1]) {
          assert rx[..k][1..] == rx[1..][..k - 1];
        }
        forall k | |rs| < k <= |rx| ensures tail + Size(rx[..k]) > end {
          assert tail' + Size(rx[1..][..k - 1]) > end;
        }
      }
    }
  }

  /** One packet handed to the pcap dumper: its true length, and the bytes kept of it. */
  datatype Dumped = Dumped(len: nat, data: seq<byte>)

  /** The dump of a log: every record in order, cut short at a record whose length field is 0. */
  function DumpOf(rs: seq<Record>): (ds: seq<Dumped>)
  {
    if rs == [] || rs[0].pktLen == 0 then []
    else [Dumped(rs[0].pktLen, rs[0].data)] + DumpOf(rs[1..])
  }

  /** A dump is a prefix of the log, and is the whole of it exactly when no length field is 0. */
  lemma {:induction false} DumpKeepsRecords(rs: seq<Record>)
    ensures |DumpOf(rs)| <= |rs|
    ensures forall k :: 0 <= k < |DumpOf(rs)| ==> DumpOf(rs)[k] == Dumped(rs[k].pktLen, rs[k].data)
    ensures |DumpOf(rs)| == |rs| <==> forall r :: r in rs ==> r.pktLen != 0
  {
    if rs != [] && rs[0].pktLen != 0 {
      DumpKeepsRecords(rs[1..]);
    }
  }

  lemma {:induction false} EncodeAllAppend(rs: seq<Record>, more: seq<Record>)
    ensures EncodeAll(rs + more) == EncodeAll(rs) + EncodeAll(more)
    decreases |more|
  {
    if more == [] {
      assert rs + more == rs;
    } else {
      var front, last := more[..|more| - 1], more[|more| - 1];
      EncodeAllAppend(rs, front);
      assert (rs + more)[..|rs + more| - 1] == rs + front && (rs + more)[|rs + more| - 1] == last;
      Regroup(EncodeAll(rs), EncodeAll(front), Encode(last));
    }
  }

  lemma EncodeAllSnoc(rs: seq<Record>, r: Record)
    ensures EncodeAll(rs + [r]) == EncodeAll(rs) + Encode(r)
  {
    assert (rs + [r])[..|rs|] == rs;
  }

  /** One packet of a bulk, on the log before it. */
  lemma AppendedStep(log: seq<Record>, rx: seq<Rx>, i: nat, tail: nat, end: int)
    requires ValidBurst(rx) && i < |rx|
    ensures var next := tail + HDR_OFFSET_OF_PKT + rx[i].m.DataLen();
      log + Appended(rx[i..], tail, end) ==
      if next > end then log else (log + [RecordOf(rx[i])]) + Appended(rx[i + 1..], next, end)
  {
    assert rx[i..][0] == rx[i] && rx[i..][1..] == rx[i + 1..];
    var next := tail + HDR_OFFSET_OF_PKT + rx[i].m.DataLen();
    var r, rest := RecordOf(rx[i]), Appended(rx[i + 1..], next, end);
    assert log + ([r] + rest) == (log + [r]) + rest;
    assert log + [] == log;
  }

  /** Where record k of a log lies, and that its bytes there are its own encoding. */
  lemma RecordPlace(rs: seq<Record>, k: nat)
    requires k < |rs|
    ensures var off := |EncodeAll(rs[..k])|;
      && off + HDR_OFFSET_OF_PKT + |rs[k].data| == |EncodeAll(rs[..k + 1])| <= |EncodeAll(rs)|
      && EncodeAll(rs)[off..off + HDR_OFFSET_OF_PKT + |rs[k].data|] == Encode(rs[k])
  {
    assert rs == rs[..k + 1] + rs[k + 1..];
    assert rs[..k + 1][..k] == rs[..k];
    EncodeAllAppend(rs[..k + 1], rs[k + 1..]);
  }

  /** Reading the fields of record k out of the bytes of a log gives back the record. */
  lemma FieldsAt(rs: seq<Record>, k: nat, mem: seq<byte>)
    requires k < |rs| && Storable(rs[k]) && EncodeAll(rs) <= mem
    ensures var off := |EncodeAll(rs[..k])|;
      && off + HDR_OFFSET_OF_PKT + |rs[k].data| == |EncodeAll(rs[..k + 1])| <= |mem|
      && ReadLe16(mem, off + 8) == rs[k].pktLen
      && ReadLe16(mem, off + 10) == |rs[k].data|
      && mem[off + 12..off + 12 + |rs[k].data|] == rs[k].data
  {
    RecordPlace(rs, k);
    var off := |EncodeAll(rs[..k])|;
    SliceOfPrefix(EncodeAll(rs), mem, off, |EncodeAll(rs[..k + 1])|);
    FieldsInPlace(rs[k], mem, off, |EncodeAll(rs[..k + 1])|);
  }

  lemma FieldsInPlace(r: Record, mem: seq<byte>, off: nat, end: nat)
    requires Storable(r) && off <= end <= |mem| && mem[off..end] == Encode(r)
    ensures end == off + HDR_OFFSET_OF_PKT + |r.data|
    ensures ReadLe16(mem, off + 8) == r.pktLen && ReadLe16(mem, off + 10) == |r.data|
    ensures mem[off + 12..end] == r.data
  {
    DecodeFields(r, mem[off..end]);
    ReadShift16(mem, off, end, 8);
    ReadShift16(mem, off, end, 10);
    SubSlice(mem, off, end, 12, end - off);
  }

  lemma DecodeFields(r: Record, bs: seq<byte>)
    requires Storable(r) && bs == Encode(r)
    ensures ReadLe16(bs, 8) == r.pktLen && ReadLe16(bs, 10) == |r.data| && bs[12..|bs|] == r.data
  {
    HeaderSlices(Le64(r.tstamp), Le16(r.pktLen), Le16(|r.data|), r.data);
    ReadBack16(bs, 8, r.pktLen);
    ReadBack16(bs, 10, |r.data|);
  }

  /** The fields of a record are the slices of its encoding. */
  lemma HeaderSlices(ts: seq<byte>, plen: seq<byte>, dlen: seq<byte>, data: seq<byte>)
    requires |ts| == 8 && |plen| == |dlen| == 2
    ensures var bs := ts + plen + dlen + data;
      bs[8..10] == plen && bs[10..12] == dlen && bs[12..|bs|] == data
  {
    var bs := ts + plen + dlen + data;
    assert bs[8..10] == plen;
    assert bs[10..12] == dlen;
    assert bs[12..|bs|] == data;
  }

  /** Writing the four fields in the writer's order lays them out one after the other. */
  lemma FieldWrites(mem: seq<byte>, t: nat, ts: seq<byte>, plen: seq<byte>, dlen: seq<byte>, data: seq<byte>)
    requires |ts| == 8 && |plen| == |dlen| == 2 && t + 12 + |data| <= |mem|
    ensures var after := Stored(Stored(Stored(Stored(mem, t + 8, plen), t + 10, dlen), t, ts), t + 12, data);
      after[..t + 12 + |data|] == mem[..t] + (ts + plen + dlen + data)
  {
    var after := Stored(Stored(Stored(Stored(mem, t + 8, plen), t + 10, dlen), t, ts), t + 12, data);
    assert after[t + 12..t + 12 + |data|] == data;
    assert after[t + 10..t + 12] == dlen;
    assert after[t + 8..t + 10] == plen;
    assert after[t..t + 8] == ts;
    assert after[..t] == mem[..t];
    assert after[..t + 12 + |data|] ==
      after[..t] + (after[t..t + 8] + after[t + 8..t + 10] + after[t + 10..t + 12] + after[t + 12..t + 12 + |data|]);
  }

  lemma DumpStep(rs: seq<Record>, k: nat, out: seq<Dumped>)
    requires k < |rs|
    ensures var d := Dumped(rs[k].pktLen, rs[k].data);
            out + DumpOf(rs[k..]) == if d.len == 0 then out else (out + [d]) + DumpOf(rs[k + 1..])
  {
    assert rs[k..][0] == rs[k] && rs[k..][1..] == rs[k + 1..];
    var d, rest := Dumped(rs[k].pktLen, rs[k].data), DumpOf(rs[k + 1..]);
    assert out + ([d] + rest) == (out + [d]) + rest;
    assert out + [] == out;
  }

  /** One turn of the dump loop: reads the record at `hdr`, and where the next one starts. */
  method DumpRecord(mem: seq<byte>, hdr: nat, ghost log: seq<Record>, ghost k: nat)
    returns (d: Dumped, next: nat)
    requires k < |log| && EncodeAll(log) <= mem && Storable(log[k]) && hdr == |EncodeAll(log[..k])|
    ensures d == Dumped(log[k].pktLen, log[k].data) && next == |EncodeAll(log[..k + 1])|
  {
    FieldsAt(log, k, mem);
    var dataLen := ReadLe16(mem, hdr + 10);
    d := Dumped(ReadLe16(mem, hdr + 8), mem[hdr + 12..hdr + 12 + dataLen]);
    next := hdr + HDR_OFFSET_OF_PKT + dataLen;
  }

  /** The dump loop over the bytes of a zone that starts with the encoding of `log`. */
  method DumpZone(mem: seq<byte>, nbPkts: nat, ghost log: seq<Record>) returns (out: seq<Dumped>)
    requires nbPkts == |log| && EncodeAll(log) <= mem && forall r :: r in log ==> Storable(r)
    ensures out == DumpOf(log)
  {
    out := [];
    var hdr, i := 0, 0;
    assert log[..0] == [] && log[0..] == log;
    while i < nbPkts
      invariant 0 <= i <= nbPkts
      invariant hdr == |EncodeAll(log[..i])|
      invariant DumpOf(log) == out + DumpOf(log[i..])
    {
      DumpStep(log, i, out);
      var d, next := DumpRecord(mem, hdr, log, i);
      if d.len == 0 {
        return;
      }
      out, hdr, i := out + [d], next, i + 1;
    }
  }

  /** The header of the first record and the one at the end of the zone are zero; the bytes between
      are as they were. */
  ghost predicate Marked(mem: seq<byte>, was: seq<byte>) {
    && |mem| == |was| && HDR_SIZE <= |mem|
    && (forall k :: 0 <= k < HDR_SIZE ==> mem[k] == 0)
    && (forall k :: |mem| - HDR_SIZE <= k < |mem| ==> mem[k] == 0)
    && (forall k :: HDR_SIZE <= k < |mem| - HDR_SIZE ==> mem[k] == was[k])
  }

  lemma ZeroBytes()
    ensures |Le64(0) + Le64(0)| == HDR_SIZE
    ensures forall k :: 0 <= k < HDR_SIZE ==> (Le64(0) + Le64(0))[k] == 0
  {
    assert Le32(0) == [0, 0, 0, 0];
  }

  class CaptureBuffer {
    const zone: array<byte>          // the memzone
    var tail: nat                    // offset of the next record
    var used: nat
    var nbPkts: nat
    var capturing: bool              // CAPTURE_PKTS is set on the port
    ghost var log: seq<Record>       // the records stored since capturing was enabled

    /** The zone's first `tail` bytes are the encoding of the log. */
    ghost predicate Holds()
      reads this, zone
    {
      && HDR_SIZE <= zone.Length && tail <= End()
      && nbPkts == |log| && tail == |EncodeAll(log)|
      && zone[..tail] == EncodeAll(log)
      && forall r :: r in log ==> Storable(r)
    }

    ghost predicate Valid()
      reads this, zone
    {
      HDR_SIZE <= zone.Length && (capturing ==> Holds() && used == tail)
    }

    function End(): int
      reads this, zone
    {
      zone.Length - HDR_SIZE
    }

    constructor (len: nat)
      requires HDR_SIZE <= len
      ensures Valid() && !capturing && fresh(zone) && zone.Length == len && nbPkts == 0
    {
      zone := new byte[len](_ => 0);
      tail, used, nbPkts, capturing := 0, 0, 0, false;
      log := [];
    }

    /** Enabling while capturing is a no-op. */
    method Enable()
      requires Valid()
      modifies this, zone
      ensures Valid() && capturing
      ensures log == if old(capturing) then old(log) else []
      ensures old(capturing) ==> zone[..] == old(zone[..])
      ensures !old(capturing) ==> Marked(zone[..], old(zone[..]))
    {
      if capturing {
        return;
      }
      used, nbPkts, tail := 0, 0, 0;
      ZeroBytes();
      WriteBytes(zone, tail, Le64(0) + Le64(0));
      WriteBytes(zone, zone.Length - HDR_SIZE, Le64(0) + Le64(0));
      log := [];
      capturing := true;
      assert zone[..0] == [];
    }

    /** The four writes of one record, in the order the writer makes them. */
    method WriteFields(t: nat, ts: seq<byte>, plen: seq<byte>, dlen: seq<byte>, data: seq<byte>)
      requires |ts| == 8 && |plen| == |dlen| == 2 && t + 12 + |data| <= zone.Length
      modifies zone
      ensures zone[..t + 12 + |data|] == old(zone[..t]) + (ts + plen + dlen + data)
    {
      ghost var mem := zone[..];
      FieldWrites(mem, t, ts, plen, dlen, data);
      assert mem[..t] == zone[..t];
      WriteBytes(zone, t + 8, plen);
      WriteBytes(zone, t + 10, dlen);
      WriteBytes(zone, t, ts);
      WriteBytes(zone, t + 12, data);
      assert zone[..][..t + 12 + |data|] == zone[..t + 12 + |data|];
    }

    /** Appends one record at the tail; the caller has checked that it fits. */
    method StoreRecord(x: Rx)
      requires Holds() && x.m.Valid()
      requires tail + HDR_OFFSET_OF_PKT + x.m.DataLen() <= End()
      modifies this`tail, this`nbPkts, this`log, zone
      ensures Holds() && log == old(log) + [RecordOf(x)]
      ensures tail == old(tail) + HDR_OFFSET_OF_PKT + x.m.DataLen()
    {
      var dlen := x.m.DataLen();
      ghost var r := RecordOf(x);
      WriteFields(tail, Le64(x.now % TWO_64), Le16(x.m.PktLen() % TWO_16), Le16(dlen), x.m.bytes[..dlen]);
      tail := tail + HDR_OFFSET_OF_PKT + dlen;
      nbPkts := nbPkts + 1;
      EncodeAllSnoc(log, r);
      log := log + [r];
    }

    /** The end-of-data mark lies behind the tail and inside the zone. */
    method WriteSentinel()
      requires Holds()
      modifies zone
      ensures Holds() && zone[tail + 8] == 0 && zone[tail + 9] == 0
    {
      ghost var mem := zone[..];
      assert mem[..tail] == zone[..tail];
      WriteBytes(zone, tail + 8, Le16(0));
      assert zone[..][..tail] == zone[..tail] == mem[..tail];
    }

    /** The writer's loop: packet by packet, up to the first that does not fit. */
    method StorePackets(rx: seq<Rx>)
      requires Holds() && ValidBurst(rx)
      modifies this`tail, this`nbPkts, this`log, zone
      ensures Holds() && log == old(log) + Appended(rx, old(tail), End())
    {
      var i := 0;
      ghost var all := old(log) + Appended(rx, tail, End());
      assert rx[0..] == rx;
      while i < |rx|
        invariant 0 <= i <= |rx| && Holds()
        invariant all == log + Appended(rx[i..], tail, End())
      {
        AppendedStep(log, rx, i, tail, End());
        if tail + HDR_OFFSET_OF_PKT + rx[i].m.DataLen() > zone.Length - HDR_SIZE {
          break;
        }
        StoreRecord(rx[i]);
        i := i + 1;
      }
    }

    /** pktgen_packet_capture_bulk. */
    method CaptureBulk(rx: seq<Rx>)
      requires Valid() && capturing && ValidBurst(rx)
      modifies this, zone
      ensures Valid() && capturing
      ensures log == old(log) + Appended(rx, old(tail), End())
      ensures old(tail) < End() ==> tail + 10 <= zone.Length && zone[tail + 8] == 0 && zone[tail + 9] == 0
    {
      if tail >= zone.Length - HDR_SIZE {
        return;
      }
      StorePackets(rx);
      WriteSentinel();
      used := tail;
    }

    /** The dump loop of pktgen_set_capture. */
    method Dump() returns (out: seq<Dumped>)
      requires Valid() && capturing
      ensures out == DumpOf(log)
    {
      out := DumpZone(zone[..], nbPkts, log) by {
        assert zone[..][..tail] == zone[..tail];
      }
    }

    /** Switching capturing off: nothing happens when it is off; otherwise the log is dumped if
        it holds packets, and the buffer is emptied. */
    method Disable() returns (out: seq<Dumped>)
      requires Valid()
      modifies this
      ensures Valid() && !capturing
      ensures out == if old(capturing) then DumpOf(old(log)) else []
    {
      out := [];
      if !capturing {
        return;
      }
      if nbPkts > 0 {
        out := Dump();
      }
      used, tail, capturing := 0, 0, false;
    }
  }

  // --- whole sessions

  /** The log that CaptureBulk's contract gives after any number of bulks since an enable. */
  function LogAfter(bulks: seq<seq<Rx>>, end: nat): (rs: seq<Record>)
    requires forall b :: b in bulks ==> ValidBurst(b)
  {
    if bulks == [] then []
    else
      var before := LogAfter(bulks[..|bulks| - 1], end);
      before + Appended(bulks[|bulks| - 1], |EncodeAll(before)|, end)
  }

  function UsedBy(rs: seq<Record>): nat {
    if rs == [] then 0 else UsedBy(rs[..|rs| - 1]) + HDR_OFFSET_OF_PKT + |rs[|rs| - 1].data|
  }

  lemma {:induction false} EncodedSize(rs: seq<Record>)
    ensures |EncodeAll(rs)| == UsedBy(rs)
  {
    if rs != [] {
      EncodedSize(rs[..|rs| - 1]);
    }
  }

  lemma {:induction false} AppendedFits(rx: seq<Rx>, tail: nat, end: nat)
    requires tail <= end && ValidBurst(rx)
    ensures tail + |EncodeAll(Appended(rx, tail, end))| <= end
  {
    var rs := Appended(rx, tail, end);
    if rs != [] {
      var tail' := tail + HDR_OFFSET_OF_PKT + rx[0].m.DataLen();
      AppendedFits(rx[1..], tail', end);
      var r := RecordOf(rx[0]);
      EncodeAllSnoc([], r);
      assert [] + [r] == [r];
      EncodeAllAppend([r], Appended(rx[1..], tail', end));
    }
  }

  /** The record holds the packet: as many of its bytes as its data_len says, or 128 if that is 0,
      its pkt_len (128 for 0) in 16 bits, and its clock reading in 64. */
  ghost predicate Keeps(r: Record, x: Rx) {
    var kept, length := if x.m.dataLen == 0 then 128 else x.m.dataLen, if x.m.pktLen == 0 then 128 else x.m.pktLen;
    && kept <= |x.m.bytes| && r.data == x.m.bytes[..kept]
    && r.pktLen == length % 65536 && r.tstamp == x.now % 0x1_0000_0000_0000_0000
  }

  /** The record holds some packet of some bulk. */
  ghost predicate CameFrom(r: Record, bulks: seq<seq<Rx>>) {
    exists b, x :: b in bulks && x in b && Keeps(r, x)
  }

  lemma {:induction false} SessionStays(bulks: seq<seq<Rx>>, end: nat)
    requires forall b :: b in bulks ==> ValidBurst(b)
    ensures |EncodeAll(LogAfter(bulks, end))| <= end
    ensures forall r :: r in LogAfter(bulks, end) ==> CameFrom(r, bulks)
  {
    if bulks != [] {
      var last := |bulks| - 1;
      SessionStays(bulks[..last], end);
      var before := LogAfter(bulks[..last], end);
      var more := Appended(bulks[last], |EncodeAll(before)|, end);
      EncodeAllAppend(before, more);
      AppendedFits(bulks[last], |EncodeAll(before)|, end);
      AppendedIsLongestPrefix(bulks[last], |EncodeAll(before)|, end);
      forall r | r in before ensures CameFrom(r, bulks) {
        assert CameFrom(r, bulks[..last]);
      }
      forall r | r in more ensures CameFrom(r, bulks) {
        var k :| 0 <= k < |more| && more[k] == r;
        assert bulks[last] in bulks && bulks[last][k] in bulks[last] && Keeps(r, bulks[last][k]);
      }
    }
  }

  /** After an enable and any sequence of bulks: the records stay inside the zone and take
      12 + data_len bytes each; the dump yields exactly the stored packets in order if and only
      if no stored packet's length is a non-zero multiple of 65536. */
  lemma SessionRoundTrip(bulks: seq<seq<Rx>>, end: nat)
    requires forall b :: b in bulks ==> ValidBurst(b)
    ensures var rs := LogAfter(bulks, end);
      && |EncodeAll(rs)| == UsedBy(rs) <= end
      && (forall r :: r in rs ==> CameFrom(r, bulks))
      && (forall k :: 0 <= k < |DumpOf(rs)| ==> k < |rs| && DumpOf(rs)[k] == Dumped(rs[k].pktLen, rs[k].data))
      && (|DumpOf(rs)| == |rs| <==> forall r :: r in rs ==> r.pktLen != 0)
  {
    SessionStays(bulks, end);
    EncodedSize(LogAfter(bulks, end));
    DumpKeepsRecords(LogAfter(bulks, end));
  }

  // --- the dump of a session, packet by packet

  /** Packets whose two lengths are from 1 to 65535. */
  ghost predicate Ordinary(rx: seq<Rx>) {
    forall k :: 0 <= k < |rx| ==> rx[k].m.Valid() && 1 <= rx[k].m.dataLen && 1 <= rx[k].m.pktLen < 65536
  }

  /** What the pcap dumper is given of the first m packets. */
  function Copies(rx: seq<Rx>, m: nat): (ds: seq<Dumped>)
    requires m <= |rx| && forall k :: 0 <= k < m ==> rx[k].m.dataLen <= |rx[k].m.bytes|
    ensures |ds| == m
    ensures forall k :: 0 <= k < m ==> ds[k] == Dumped(rx[k].m.pktLen, rx[k].m.bytes[..rx[k].m.dataLen])
  {
    seq(m, k requires 0 <= k < m => Dumped(rx[k].m.pktLen, rx[k].m.bytes[..rx[k].m.dataLen]))
  }

  /** The bytes that m packets take in the zone. */
  function Taken(rx: seq<Rx>, m: nat): nat
    requires m <= |rx|
  {
    if m == 0 then 0 else Taken(rx, m - 1) + 12 + rx[m - 1].m.dataLen
  }

  lemma {:induction false} TakenIsSize(rx: seq<Rx>, m: nat)
    requires m <= |rx| && Ordinary(rx)
    ensures Size(rx[..m]) == Taken(rx, m)
    decreases m
  {
    if m > 0 {
      TakenIsSize(rx, m - 1);
      SizeSnoc(rx[..m - 1], rx[m - 1]);
      assert rx[..m] == rx[..m - 1] + [rx[m - 1]];
    }
  }

  lemma {:induction false} SizeSnoc(rx: seq<Rx>, x: Rx)
    ensures Size(rx + [x]) == Size(rx) + HDR_OFFSET_OF_PKT + x.m.DataLen()
  {
    if rx == [] {
      assert [x][1..] == [];
    } else {
      assert (rx + [x])[1..] == rx[1..] + [x];
      SizeSnoc(rx[1..], x);
    }
  }

  ghost predicate NoZeroLength(rs: seq<Record>) {
    forall k :: 0 <= k < |rs| ==> rs[k].pktLen != 0
  }

  lemma {:induction false} DumpAppend(rs: seq<Record>, more: seq<Record>)
    requires NoZeroLength(rs)
    ensures DumpOf(rs + more) == DumpOf(rs) + DumpOf(more)
  {
    if rs == [] {
      assert rs + more == more;
    } else {
      assert (rs + more)[1..] == rs[1..] + more;
      DumpAppend(rs[1..], more);
    }
  }

  lemma DumpLength(rs: seq<Record>)
    requires NoZeroLength(rs)
    ensures |DumpOf(rs)| == |rs|
  {
    DumpKeepsRecords(rs);
    assert forall r :: r in rs ==> r.pktLen != 0;
  }

  lemma DumpAt(rs: seq<Record>, k: nat)
    requires NoZeroLength(rs) && k < |rs|
    ensures |DumpOf(rs)| == |rs| && DumpOf(rs)[k] == Dumped(rs[k].pktLen, rs[k].data)
  {
    DumpLength(rs);
    DumpKeepsRecords(rs);
  }

  lemma OrdinaryRecord(x: Rx)
    requires x.m.Valid() && 1 <= x.m.dataLen && 1 <= x.m.pktLen < 65536
    ensures Keeps(RecordOf(x), x)
    ensures RecordOf(x).pktLen == x.m.pktLen && RecordOf(x).data == x.m.bytes[..x.m.dataLen]
  {
  }

  ghost predicate RecordsOf(rs: seq<Record>, rx: seq<Rx>) {
    |rs| <= |rx| && forall k :: 0 <= k < |rs| ==> rx[k].m.Valid() && rs[k] == RecordOf(rx[k])
  }

  lemma OrdinaryRecords(rs: seq<Record>, rx: seq<Rx>)
    requires Ordinary(rx) && RecordsOf(rs, rx)
    ensures NoZeroLength(rs)
  {
    forall k | 0 <= k < |rs| ensures rs[k].pktLen != 0 {
      OrdinaryRecord(rx[k]);
    }
  }

  lemma RecordsAreCopies(rs: seq<Record>, rx: seq<Rx>)
    requires Ordinary(rx) && RecordsOf(rs, rx) && NoZeroLength(rs)
    ensures DumpOf(rs) == Copies(rx, |rs|)
  {
    DumpLength(rs);
    forall k | 0 <= k < |rs| ensures DumpOf(rs)[k] == Dumped(rx[k].m.pktLen, rx[k].m.bytes[..rx[k].m.dataLen]) {
      DumpAt(rs, k);
      OrdinaryRecord(rx[k]);
    }
  }

  lemma BulkCopies(rs: seq<Record>, rx: seq<Rx>)
    requires Ordinary(rx) && RecordsOf(rs, rx)
    ensures NoZeroLength(rs) && DumpOf(rs) == Copies(rx, |rs|)
  {
    OrdinaryRecords(rs, rx);
    RecordsAreCopies(rs, rx);
  }

  lemma BulkFits(rx: seq<Rx>, tail: nat, end: nat)
    requires Ordinary(rx) && ValidBurst(rx) && tail <= end
    ensures var rs := Appended(rx, tail, end);
      && RecordsOf(rs, rx) && tail + Taken(rx, |rs|) <= end
      && (|rs| < |rx| ==> tail + Taken(rx, |rs| + 1) > end)
  {
    var rs := Appended(rx, tail, end);
    AppendedIsLongestPrefix(rx, tail, end);
    TakenIsSize(rx, |rs|);
    if |rs| < |rx| {
      TakenIsSize(rx, |rs| + 1);
    }
  }

  /** The records that one bulk of ordinary packets appends, dumped. */
  lemma BulkDump(rx: seq<Rx>, tail: nat, end: nat) returns (m: nat)
    requires Ordinary(rx) && ValidBurst(rx) && tail <= end
    ensures m <= |rx| && tail + Taken(rx, m) <= end && (m < |rx| ==> tail + Taken(rx, m + 1) > end)
    ensures NoZeroLength(Appended(rx, tail, end)) && DumpOf(Appended(rx, tail, end)) == Copies(rx, m)
  {
    BulkFits(rx, tail, end);
    BulkCopies(Appended(rx, tail, end), rx);
    m := |Appended(rx, tail, end)|;
  }

  lemma {:induction false} OrdinaryLog(bulks: seq<seq<Rx>>, end: nat)
    requires forall b :: b in bulks ==> ValidBurst(b) && Ordinary(b)
    ensures NoZeroLength(LogAfter(bulks, end)) && |EncodeAll(LogAfter(bulks, end))| <= end
  {
    SessionStays(bulks, end);
    if bulks != [] {
      var last := |bulks| - 1;
      OrdinaryLog(bulks[..last], end);
      var _ := BulkDump(bulks[last], |EncodeAll(LogAfter(bulks[..last], end))|, end);
    }
  }

  /** Bulk by bulk: one more bulk of ordinary packets adds to the dump exactly the longest prefix of
      its packets that still fits, each with its true length and its own bytes. */
  lemma NextBulkIsDumped(bulks: seq<seq<Rx>>, rx: seq<Rx>, end: nat) returns (m: nat)
    requires (forall b :: b in bulks ==> ValidBurst(b) && Ordinary(b)) && ValidBurst(rx) && Ordinary(rx)
    ensures m <= |rx|
    ensures var tail := UsedBy(LogAfter(bulks, end));
      tail + Taken(rx, m) <= end && (m < |rx| ==> tail + Taken(rx, m + 1) > end)
    ensures DumpOf(LogAfter(bulks + [rx], end)) == DumpOf(LogAfter(bulks, end)) + Copies(rx, m)
  {
    var before := LogAfter(bulks, end);
    OrdinaryLog(bulks, end);
    EncodedSize(before);
    m := BulkDump(rx, |EncodeAll(before)|, end);
    assert (bulks + [rx])[..|bulks|] == bulks;
    DumpAppend(before, Appended(rx, |EncodeAll(before)|, end));
  }

  /** A session of one bulk dumps exactly the longest prefix of its packets that fits. */
  lemma OneBulkIsDumped(rx: seq<Rx>, end: nat) returns (m: nat)
    requires ValidBurst(rx) && Ordinary(rx)
    ensures m <= |rx| && Taken(rx, m) <= end && (m < |rx| ==> Taken(rx, m + 1) > end)
    ensures DumpOf(LogAfter([rx], end)) == Copies(rx, m)
  {
    m := NextBulkIsDumped([], rx, end);
    assert [] + [rx] == [rx];
    assert LogAfter([], end) == [] && [] + Copies(rx, m) == Copies(rx, m);
  }

  /** A packet of 65536 bytes is stored, and its record reads as the end of the data: a burst of
      that one packet leaves one record and an empty dump. */
  lemma WholeMultipleIsLost(x: Rx, end: nat)
    requires x.m.Valid() && x.m.pktLen == 65536 && HDR_OFFSET_OF_PKT + x.m.DataLen() <= end
    ensures LogAfter([[x]], end) == [RecordOf(x)] && RecordOf(x).pktLen == 0
    ensures DumpOf(LogAfter([[x]], end)) == []
  {
    var end' := HDR_OFFSET_OF_PKT + x.m.DataLen();
    assert [x][1..] == [] && Appended([], end', end) == [];
    assert Appended([x], 0, end) == [RecordOf(x)] + [] == [RecordOf(x)];
    assert [[x]][..0] == [] && [[x]][0] == [x];
    assert LogAfter([[x]], end) == [] + Appended([x], 0, end);
  }
}
