/** The transmit rate arithmetic of app/pktgen.c: how a link speed, a percentage rate
    and a burst size become a packet rate (tx_pps) and a deadline step (tx_cycles). */
module PacketRate {
  import opened Arithmetic
  import opened Constants

  const PKT_OVERHEAD_SIZE := 24
  const MILLION := 1_000_000

  function SumWire(sizes: seq<nat>): (total: nat)
  {
    if sizes == [] then 0
    else SumWire(sizes[..|sizes| - 1]) + sizes[|sizes| - 1] + PKT_OVERHEAD_SIZE
  }

  /** The source of the packet size that a port reports for its traffic. */
  datatype Traffic =
    | Pcap(avgPktSize: nat)
    | Templates(seqSizes: seq<nat>, singleSize: nat)

  /** Bits one packet takes on the wire: the floor average over the sequence templates
      whenever there are any, else the single template. */
  ghost function WireBits(t: Traffic): (bits: nat)
    ensures bits >= 8 * PKT_OVERHEAD_SIZE
  {
    match t
    case Pcap(avg) => 8 * (avg + PKT_OVERHEAD_SIZE)
    case Templates(sizes, single) =>
      if |sizes| > 0 then
        SumWireLower(sizes);
        8 * (SumWire(sizes) / |sizes|)
      else 8 * (single + PKT_OVERHEAD_SIZE)
  }

  lemma {:induction false} SumWireLower(sizes: seq<nat>)
    ensures SumWire(sizes) >= |sizes| * PKT_OVERHEAD_SIZE
    ensures |sizes| > 0 ==> SumWire(sizes) / |sizes| >= PKT_OVERHEAD_SIZE
  {
    if |sizes| > 0 {
      SumWireLower(sizes[..|sizes| - 1]);
      QuotientAtLeast(SumWire(sizes), |sizes|, PKT_OVERHEAD_SIZE);
    }
  }

  /** All sizes added up. */
  function Total(sizes: seq<nat>): nat {
    if sizes == [] then 0 else sizes[0] + Total(sizes[1..])
  }

  lemma {:induction false} TotalAppend(sizes: seq<nat>, size: nat)
    ensures Total(sizes + [size]) == Total(sizes) + size
  {
    if sizes == [] {
      assert [size][1..] == [];
    } else {
      assert (sizes + [size])[1..] == sizes[1..] + [size];
      TotalAppend(sizes[1..], size);
    }
  }

  lemma {:induction false} SumWireIsTotal(sizes: seq<nat>)
    ensures SumWire(sizes) == Total(sizes) + 24 * |sizes|
  {
    if sizes != [] {
      var last := |sizes| - 1;
      SumWireIsTotal(sizes[..last]);
      TotalAppend(sizes[..last], sizes[last]);
      assert sizes == sizes[..last] + [sizes[last]];
    }
  }

  /** The size reported for n templates, n times over, is what they take with 24 bytes of overhead
      each, less than n bytes apart. */
  lemma AverageWithinOne(sizes: seq<nat>, single: nat, bits: nat)
    requires sizes != [] && bits == WireBits(Templates(sizes, single))
    ensures bits % 8 == 0
    ensures bits / 8 * |sizes| <= Total(sizes) + 24 * |sizes| < bits / 8 * |sizes| + |sizes|
  {
    SumWireIsTotal(sizes);
    var q := SumWire(sizes) / |sizes|;
    QuotientParts(SumWire(sizes), |sizes|);
    DivModUnique(bits, 8, q, 0);
  }

  lemma QuotientParts(sum: nat, n: nat)
    requires n > 0
    ensures sum / n * n <= sum < sum / n * n + n
  {
  }

  lemma OneMore(a: nat, n: nat)
    ensures a * (n + 1) == a * n + a
  {
  }

  lemma {:induction false} TotalBetween(sizes: seq<nat>, least: nat, greatest: nat)
    requires forall i :: 0 <= i < |sizes| ==> least <= sizes[i] <= greatest
    ensures least * |sizes| <= Total(sizes) <= greatest * |sizes|
  {
    if sizes != [] {
      TotalBetween(sizes[1..], least, greatest);
      OneMore(least, |sizes[1..]|);
      OneMore(greatest, |sizes[1..]|);
    }
  }

  lemma QuotientBetween(sum: nat, n: nat, lo: nat, hi: nat)
    requires n > 0 && lo * n <= sum <= hi * n
    ensures lo <= sum / n <= hi
  {
    QuotientAtLeast(sum, n, lo);
    QuotientParts(sum, n);
    MulMonoStrict(hi, sum / n, n);
  }

  /** The size reported lies between the least and the greatest template's; so equal sizes give
      exactly that size. */
  lemma AverageBetween(sizes: seq<nat>, single: nat, least: nat, greatest: nat)
    requires sizes != [] && forall i :: 0 <= i < |sizes| ==> least <= sizes[i] <= greatest
    ensures 8 * (least + 24) <= WireBits(Templates(sizes, single)) <= 8 * (greatest + 24)
  {
    SumWireIsTotal(sizes);
    TotalBetween(sizes, least, greatest);
    var n := |sizes|;
    assert (least + 24) * n == least * n + 24 * n && (greatest + 24) * n == greatest * n + 24 * n;
    QuotientBetween(SumWire(sizes), n, least + 24, greatest + 24);
  }

  lemma {:induction false} TotalUpdate(sizes: seq<nat>, i: nat, size: nat)
    requires i < |sizes|
    ensures Total(sizes[i := size]) == Total(sizes) - sizes[i] + size
  {
    if i == 0 {
      assert sizes[i := size][1..] == sizes[1..];
    } else {
      assert sizes[i := size][1..] == sizes[1..][i - 1 := size];
      TotalUpdate(sizes[1..], i - 1, size);
    }
  }

  /** Every template counts alike: n bytes more in any one of n make the reported size one byte more. */
  lemma EveryTemplateCounts(sizes: seq<nat>, single: nat, i: nat)
    requires i < |sizes|
    ensures WireBits(Templates(sizes[i := sizes[i] + |sizes|], single)) == WireBits(Templates(sizes, single)) + 8
  {
    var n, more := |sizes|, sizes[i := sizes[i] + |sizes|];
    TotalUpdate(sizes, i, sizes[i] + n);
    SumWireIsTotal(sizes);
    SumWireIsTotal(more);
    QuotientNext(SumWire(sizes), n);
  }

  lemma QuotientNext(sum: nat, n: nat)
    requires n > 0
    ensures (sum + n) / n == sum / n + 1
  {
    var q := sum / n;
    assert n * (q + 1) == n * q + n;
    DivModUnique(sum + n, n, q + 1, sum % n);
  }

  /** Rounded division: adding half the divisor first keeps the error within half of it. */
  lemma RoundedDivision(n: nat, p: nat)
    requires p > 0
    ensures var c := (p / 2 + n) / p; 2 * (c * p) <= 2 * n + p && 2 * n <= 2 * (c * p) + p
  {
    var c := (p / 2 + n) / p;
    assert c * p == p * c == (p / 2 + n) - (p / 2 + n) % p;
  }

  /** The cycles that one burst of every queue, `round` packets, may take at `pps` packets a second,
      rounded and formed in 64 bits. */
  function StepFor(pps: nat, round: nat, hz: nat): nat
    requires pps > 0
  {
    (pps / 2 + round * hz) % TWO_64 / pps
  }

  /** A port's rate settings and the two values pktgen_packet_rate derives from them. */
  class RatePort {
    var linkSpeed: nat       // megabits per second
    var txRate: real         // percent
    var txBurst: nat
    var traffic: Traffic
    var txCycles: nat
    var txPps: nat

    /** The rate before truncation. */
    ghost function ExactPps(txcnt: nat): real
      requires txcnt > 0
      reads this
    {
      ExactRate(linkSpeed, txRate, txcnt, WireBits(traffic))
    }

    /** The configured percentage of the link's bits in a second, a hundredfold. */
    function ShareBits(): real
      reads this
    {
      (linkSpeed * MILLION) as real * txRate
    }

    /** The rate is the exact one truncated, or 1 when that truncates to 0; the step is the
        product of queues, burst and clock rate divided by it, the product formed in 64 bits
        after half the rate is added for rounding. */
    ghost predicate Derived(txcnt: nat, hz: nat)
      requires txcnt > 0
      reads this
    {
      && txPps >= 1
      && (txPps as real <= ExactPps(txcnt) || (txPps == 1 && ExactPps(txcnt) < 1.0))
      && ExactPps(txcnt) < txPps as real + 1.0
      && txCycles == StepFor(txPps, txcnt * txBurst, hz)
    }

    method WireSize() returns (bits: nat)
      requires traffic.Templates? ==> |traffic.seqSizes| <= NUM_SEQ_PKTS
      ensures bits == WireBits(traffic)
      ensures traffic.Pcap? ==> bits == 8 * (traffic.avgPktSize + 24)
      ensures traffic.Templates? && traffic.seqSizes == [] ==> bits == 8 * (traffic.singleSize + 24)
      ensures traffic.Templates? && traffic.seqSizes != [] ==>
        var n := |traffic.seqSizes|;
        bits % 8 == 0 && bits / 8 * n <= Total(traffic.seqSizes) + 24 * n < bits / 8 * n + n
    {
      var size: nat := 0;
      match traffic {
      case Pcap(avg) => size := avg + PKT_OVERHEAD_SIZE;
      case Templates(sizes, single) =>
        if |sizes| > 0 {
          var i := 0;
          while i < |sizes|
            invariant 0 <= i <= |sizes|
            invariant size == SumWire(sizes[..i])
          {
            assert sizes[..i + 1][..i] == sizes[..i];
            size := size + sizes[i] + PKT_OVERHEAD_SIZE;
            i := i + 1;
          }
          assert sizes[..i] == sizes;
          size := size / |sizes|;
        } else {
          size := single + PKT_OVERHEAD_SIZE;
        }
      }
      bits := size * 8;
      if traffic.Templates? && traffic.seqSizes != [] {
        AverageWithinOne(traffic.seqSizes, traffic.singleSize, bits);
      }
    }

    /** pktgen_packet_rate. */
    method SetPacketRate(txcnt: nat, hz: nat)
      requires txcnt > 0
      requires traffic.Templates? ==> |traffic.seqSizes| <= NUM_SEQ_PKTS
      modifies this`txCycles, this`txPps
      ensures linkSpeed == 0 || txRate == 0.0 ==> txCycles == 0 && txPps == 0
      ensures linkSpeed != 0 && txRate != 0.0 ==> Derived(txcnt, hz)
    {
      if linkSpeed == 0 || txRate == 0.0 {
        txCycles, txPps := 0, 0;
        return;
      }
      var bits := WireSize();
      var pps := Truncated(ExactRate(linkSpeed, txRate, txcnt, bits));
      txCycles := (pps / 2 + txcnt * txBurst * hz) % TWO_64 / pps;
      txPps := pps;
    }
  }

  /** (link / wire) * (rate / queues) / 100, the first quotient whole. */
  function ExactRate(link: nat, rate: real, txcnt: nat, wire: nat): real
    requires txcnt > 0 && wire > 0
  {
    ((link * MILLION) / wire) as real * (rate / txcnt as real) / 100.0
  }

  /** The cast to uint64_t of a rate, with 0 replaced by 1. A negative rate has no meaning. */
  function Truncated(exact: real): (pps: nat)
    ensures pps >= 1 && exact < pps as real + 1.0
    ensures pps as real <= exact || (pps == 1 && exact < 1.0)
  {
    if exact >= 1.0 then exact.Floor else 1
  }

  // --- one rate for all queues

  /** The queues' exact rates add up to the rate of a port with one queue. */
  lemma QueuesShare(link: nat, rate: real, txcnt: nat, wire: nat)
    requires txcnt > 0 && wire > 0
    ensures ExactRate(link, rate, txcnt, wire) * txcnt as real == ExactRate(link, rate, 1, wire)
  {
    var whole, q := ((link * MILLION) / wire) as real, txcnt as real;
    assert rate / 1.0 == rate;
    assert (rate / q) * q == rate;
    assert (whole * (rate / q) / 100.0) * q == whole * ((rate / q) * q) / 100.0;
  }

  lemma PartOf(whole: real, q: real, part: real)
    requires q > 0.0 && part * q == whole && whole >= 0.0
    ensures part >= 0.0
    ensures q >= 1.0 ==> part <= whole
    ensures q >= 2.0 ==> part <= whole / 2.0
  {
    if q >= 1.0 {
      ScaleReal(1.0, q, part);
    }
    if q >= 2.0 {
      ScaleReal(2.0, q, part);
    }
  }

  /** Half of a rate of 2 or more truncates to less. */
  lemma TruncatedHalf(exact: real, part: real)
    requires exact >= 2.0 && part <= exact / 2.0
    ensures Truncated(part) < Truncated(exact)
  {
    assert Truncated(exact) >= 2;
    assert Truncated(part) as real <= part || Truncated(part) == 1;
  }

  /** The rate derived for all queues is the one a single queue would get, the whole configured
      share, if and only if there is one queue or that share is below two packets a second. */
  lemma WholeShareIff(link: nat, rate: real, txcnt: nat, wire: nat)
    requires txcnt > 0 && wire > 0 && rate >= 0.0
    ensures Truncated(ExactRate(link, rate, txcnt, wire)) == Truncated(ExactRate(link, rate, 1, wire))
            <==> txcnt == 1 || ExactRate(link, rate, 1, wire) < 2.0
  {
    QueuesShare(link, rate, txcnt, wire);
    RateIsNatural(link, rate, wire);
    TruncatedPartIff(ExactRate(link, rate, 1, wire), txcnt, ExactRate(link, rate, txcnt, wire));
  }

  lemma RateIsNatural(link: nat, rate: real, wire: nat)
    requires wire > 0 && rate >= 0.0
    ensures ExactRate(link, rate, 1, wire) >= 0.0
  {
    ScaleReal(0.0, rate / 1.0, ((link * MILLION) / wire) as real);
  }

  lemma TruncatedPartIff(whole: real, q: nat, part: real)
    requires q > 0 && whole >= 0.0 && part * q as real == whole
    ensures Truncated(part) == Truncated(whole) <==> q == 1 || whole < 2.0
  {
    PartOf(whole, q as real, part);
    if q >= 2 && whole >= 2.0 {
      TruncatedHalf(whole, part);
    } else if q >= 2 {
      assert part < 2.0;
    } else {
      assert part * 1.0 == part;
    }
  }

  /** What pktgen_packet_rate leaves in tx_pps, which all queues of the port share. */
  lemma DerivedIsWholeIff(port: RatePort, txcnt: nat, hz: nat)
    requires txcnt > 0 && port.txRate >= 0.0 && port.Derived(txcnt, hz)
    ensures port.txPps == Truncated(port.ExactPps(txcnt))
    ensures port.txPps == Truncated(port.ExactPps(1)) <==> txcnt == 1 || port.ExactPps(1) < 2.0
  {
    WholeShareIff(port.linkSpeed, port.txRate, txcnt, WireBits(port.traffic));
  }

  /** 10 Gbit, 100 %, 60-byte templates: the link carries 14880952 packets a second, and two
      queues are given half of that between them. */
  lemma TwoQueuesGetHalf()
    ensures Truncated(ExactRate(10000, 100.0, 1, 8 * (60 + PKT_OVERHEAD_SIZE))) == 14880952
    ensures Truncated(ExactRate(10000, 100.0, 2, 8 * (60 + PKT_OVERHEAD_SIZE))) == 7440476
  {
    var whole := (10000 * MILLION) / (8 * (60 + PKT_OVERHEAD_SIZE));
    assert whole == 14880952;
    assert whole as real * (100.0 / 1 as real) / 100.0 == 14880952.0;
    assert whole as real * (100.0 / 2 as real) / 100.0 == 7440476.0;
  }

  /** q times `pps` packets of `wire` bits take at most `share` hundredths of a bit. */
  predicate FitsShare(pps: nat, wire: nat, q: nat, share: real) {
    (pps * wire * q * 100) as real <= share
  }

  /** Unless the rate was forced up to one packet a second, tx_pps packets take at most
      1/txcnt of the configured share of the link. */
  lemma DerivedRateIsWithinLink(port: RatePort, txcnt: nat, hz: nat)
    requires txcnt > 0 && port.txRate >= 0.0 && port.Derived(txcnt, hz)
    ensures port.txPps as real <= port.ExactPps(txcnt) ==>
      FitsShare(port.txPps, WireBits(port.traffic), txcnt, port.ShareBits())
    ensures port.txPps as real > port.ExactPps(txcnt) ==> port.txPps == 1
  {
    if port.txPps as real <= port.ExactPps(txcnt) {
      RateIsWithinLink(port.linkSpeed, port.txRate, txcnt, WireBits(port.traffic), port.txPps);
    }
  }

  /** One packet a second more, on a link of one packet's bits less, would not stay within it. */
  predicate FillsShare(pps: nat, wire: nat, q: nat, linkBits: nat, rate: real) {
    (linkBits - wire) as real * rate <= ((pps + 1) * wire * q * 100) as real
  }

  lemma DerivedRateFillsShare(port: RatePort, txcnt: nat, hz: nat)
    requires txcnt > 0 && port.txRate >= 0.0 && port.Derived(txcnt, hz)
    ensures FillsShare(port.txPps, WireBits(port.traffic), txcnt, port.linkSpeed * MILLION, port.txRate)
  {
    RateFillsShare(port.linkSpeed, port.txRate, txcnt, WireBits(port.traffic), port.txPps);
  }

  lemma RateFillsShare(link: nat, rate: real, txcnt: nat, wire: nat, pps: nat)
    requires txcnt > 0 && wire > 0 && rate >= 0.0
    requires ExactRate(link, rate, txcnt, wire) < pps as real + 1.0
    ensures FillsShare(pps, wire, txcnt, link * MILLION, rate)
  {
    var whole, share := (link * MILLION) / wire, rate / txcnt as real;
    WholeFills(link * MILLION, wire);
    assert share * txcnt as real == rate;
    FillChain((pps + 1) as real, whole as real, share, txcnt as real, wire as real,
              (link * MILLION - wire) as real, rate);
    ProductAsReal(pps + 1, wire, txcnt);
  }

  lemma WholeFills(bits: nat, wire: nat)
    requires wire > 0
    ensures (bits - wire) as real <= (bits / wire) as real * wire as real
  {
    QuotientParts(bits, wire);
    assert (bits / wire * wire) as real == (bits / wire) as real * wire as real;
  }

  lemma FillChain(p: real, whole: real, share: real, q: real, w: real, bits: real, rate: real)
    requires whole * share / 100.0 <= p && share * q == rate
    requires q > 0.0 && w >= 0.0 && rate >= 0.0 && bits <= whole * w
    ensures bits * rate <= p * w * q * 100.0
  {
    ScaleReal(whole * share, p * 100.0, w * q);
    assert (whole * share) * (w * q) == (whole * w) * (share * q);
    ScaleReal(bits, whole * w, rate);
    assert (p * 100.0) * (w * q) == p * w * q * 100.0;
  }

  /** Unless forced up to 1, the packets that a port with one template sends in a second, each with
      24 bytes of overhead, take at most 1/txcnt of the configured percentage of the link; and one
      packet more would take at least that of the link less one packet. */
  lemma SingleWithinLink(port: RatePort, size: nat, txcnt: nat, hz: nat)
    requires txcnt > 0 && port.txRate >= 0.0 && port.Derived(txcnt, hz)
    requires port.traffic == Templates([], size)
    ensures port.txPps > 1 ==>
      (port.txPps * (8 * (size + 24)) * txcnt * 100) as real <= (port.linkSpeed * 1_000_000) as real * port.txRate
    ensures (port.linkSpeed * 1_000_000 - 8 * (size + 24)) as real * port.txRate <=
            ((port.txPps + 1) * (8 * (size + 24)) * txcnt * 100) as real
  {
    DerivedRateIsWithinLink(port, txcnt, hz);
    DerivedRateFillsShare(port, txcnt, hz);
  }

  /** The same for a PCAP file, in its average packet size. */
  lemma PcapWithinLink(port: RatePort, avg: nat, txcnt: nat, hz: nat)
    requires txcnt > 0 && port.txRate >= 0.0 && port.Derived(txcnt, hz)
    requires port.traffic == Pcap(avg)
    ensures port.txPps > 1 ==>
      (port.txPps * (8 * (avg + 24)) * txcnt * 100) as real <= (port.linkSpeed * 1_000_000) as real * port.txRate
    ensures (port.linkSpeed * 1_000_000 - 8 * (avg + 24)) as real * port.txRate <=
            ((port.txPps + 1) * (8 * (avg + 24)) * txcnt * 100) as real
  {
    DerivedRateIsWithinLink(port, txcnt, hz);
    DerivedRateFillsShare(port, txcnt, hz);
  }

  lemma RateIsWithinLink(link: nat, rate: real, txcnt: nat, wire: nat, pps: nat)
    requires txcnt > 0 && wire > 0 && rate >= 0.0
    requires pps as real <= ExactRate(link, rate, txcnt, wire)
    ensures FitsShare(pps, wire, txcnt, (link * MILLION) as real * rate)
  {
    var whole, share := (link * MILLION) / wire, rate / txcnt as real;
    WholeFits(link * MILLION, wire);
    assert share * txcnt as real == rate;
    ShareChain(pps as real, whole as real, share, txcnt as real, wire as real, (link * MILLION) as real, rate);
    ProductAsReal(pps, wire, txcnt);
  }

  lemma WholeFits(bits: nat, wire: nat)
    requires wire > 0
    ensures (bits / wire) as real * wire as real <= bits as real
  {
    assert bits / wire * wire <= bits;
    assert (bits / wire * wire) as real == (bits / wire) as real * wire as real;
  }

  lemma ShareChain(p: real, whole: real, share: real, q: real, w: real, bits: real, rate: real)
    requires p <= whole * share / 100.0 && share * q == rate
    requires q > 0.0 && w >= 0.0 && rate >= 0.0 && whole * w <= bits
    ensures p * w * q * 100.0 <= bits * rate
  {
    ScaleReal(p * 100.0, whole * share, w * q);
    assert (whole * share) * (w * q) == (whole * w) * (share * q);
    ScaleReal(whole * w, bits, rate);
    assert (p * 100.0) * (w * q) == p * w * q * 100.0;
  }

  lemma ProductAsReal(a: nat, b: nat, c: nat)
    ensures (a * b * c * 100) as real == a as real * b as real * c as real * 100.0
  {
    assert (a * b) as real == a as real * b as real;
    assert (a * b * c) as real == (a * b) as real * c as real;
  }

  lemma ScaleReal(a: real, b: real, k: real)
    requires a <= b && k >= 0.0
    ensures a * k <= b * k
  {
  }
}
