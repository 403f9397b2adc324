/** Whole runs of range mode: when the joint tuple of all swept fields comes back. */
module RangeSweep {
  import opened Arithmetic
  import opened RangeCycle
  import opened RangeMode

  // --- least common multiples

  ghost predicate CommonMultiple(periods: seq<nat>, n: nat)
    requires forall i :: 0 <= i < |periods| ==> periods[i] > 0
  {
    forall i :: 0 <= i < |periods| ==> n % periods[i] == 0
  }

  /** n is the least positive number that every period divides. */
  ghost predicate IsLcm(periods: seq<nat>, n: nat)
    requires forall i :: 0 <= i < |periods| ==> periods[i] > 0
  {
    n > 0 && CommonMultiple(periods, n) && forall m: nat :: 0 < m < n ==> !CommonMultiple(periods, m)
  }

  lemma MultipleOf(p: nat, q: int)
    requires p > 0 && p * q >= 0
    ensures p * q % p == 0
  {
    if q >= 0 {
      DivModUnique(p * q, p, q, 0);
    }
  }

  lemma RemainderDivides(p: nat, n: nat, k: nat)
    requires p > 0 && n > 0 && n % p == 0
    ensures k % p == 0 <==> k % n % p == 0
  {
    var a, q, r := n / p, k / n, k % n;
    assert n == p * a && k == n * q + r;
    assert k == p * (a * q) + r by { assert n * q == p * (a * q); }
    if r % p == 0 {
      var b := r / p;
      assert k == p * (a * q + b);
      MultipleOf(p, a * q + b);
    }
    if k % p == 0 {
      var c := k / p;
      assert r == p * (c - a * q);
      MultipleOf(p, c - a * q);
    }
  }

  /** The common multiples are the multiples of the least one. */
  lemma MultiplesOfLcm(periods: seq<nat>, n: nat, k: nat)
    requires forall i :: 0 <= i < |periods| ==> periods[i] > 0
    requires IsLcm(periods, n)
    ensures CommonMultiple(periods, k) <==> k % n == 0
  {
    forall i | 0 <= i < |periods|
      ensures k % periods[i] == 0 <==> k % n % periods[i] == 0
    {
      RemainderDivides(periods[i], n, k);
    }
    assert CommonMultiple(periods, k) <==> CommonMultiple(periods, k % n);
  }

  function Product(s: seq<nat>): nat {
    if s == [] then 1 else s[0] * Product(s[1..])
  }

  lemma MultipleOfMultiple(a: nat, r: nat, p: nat)
    requires p > 0 && r % p == 0
    ensures a * r % p == 0
  {
    var q := r / p;
    assert r == p * q;
    assert a * r == p * (a * q);
    MultipleOf(p, a * q);
  }

  lemma {:induction false} ProductIsCommon(s: seq<nat>)
    requires forall i :: 0 <= i < |s| ==> s[i] > 0
    ensures Product(s) > 0 && CommonMultiple(s, Product(s))
  {
    if s != [] {
      ProductIsCommon(s[1..]);
      var rest := Product(s[1..]);
      MultipleOf(s[0], rest);
      forall i | 1 <= i < |s|
        ensures s[0] * rest % s[i] == 0
      {
        assert s[i] == s[1..][i - 1];
        MultipleOfMultiple(s[0], rest, s[i]);
      }
    }
  }

  lemma LcmExists(periods: seq<nat>) returns (n: nat)
    requires forall i :: 0 <= i < |periods| ==> periods[i] > 0
    ensures IsLcm(periods, n)
  {
    ProductIsCommon(periods);
    n := 1;
    while !CommonMultiple(periods, n)
      invariant 0 < n <= Product(periods)
      invariant forall m: nat :: 0 < m < n ==> !CommonMultiple(periods, m)
      decreases Product(periods) - n
    {
      n := n + 1;
    }
  }

  // --- runs of the packet constructor

  /** The template after k packets, the VLAN latch already taken. */
  ghost function After(r: RangeInfo, ipProto: nat, v: Values, k: nat): Values {
    if k == 0 then v else Stepped(r, ipProto, After(r, ipProto, v, k - 1), true)
  }

  lemma SteppedField(r: RangeInfo, ipProto: nat, v: Values, f: Field)
    ensures Stepped(r, ipProto, v, true).Of(f) ==
            if Active(f, ipProto) then Next(r.Of(f), Modulus(f), v.Of(f)) else v.Of(f)
  {
    match f
    case TcpSeq =>
    case TcpAck =>
    case SrcPort =>
    case DstPort =>
    case Ttl =>
    case SrcIp =>
    case DstIp =>
    case VlanId =>
    case Cos =>
    case Tos =>
    case PktSize =>
    case SrcMac =>
    case DstMac =>
  }

  /** Before the latch is taken a sweep by 1 from identifier 1 sends 1 first, and takes the latch;
      after that it goes on to 2. */
  lemma FirstVlanStep(r: RangeInfo, ipProto: nat, v: Values)
    requires ipProto == 6 || ipProto == 17
    requires v.vlanId == 1 && r.vlanId.inc == 1 && r.vlanId.min <= 1 && 2 <= r.vlanId.max
    ensures Stepped(r, ipProto, v, false).vlanId == 1 && LatchAfter(r, ipProto, v.vlanId, false)
    ensures Stepped(r, ipProto, v, true).vlanId == 2
  {
  }

  /** Any other identifier steps alike before and after. */
  lemma OtherVlanSteps(r: RangeInfo, ipProto: nat, v: Values)
    requires v.vlanId != 1
    ensures Stepped(r, ipProto, v, false) == Stepped(r, ipProto, v, true)
    ensures !LatchAfter(r, ipProto, v.vlanId, false)
  {
  }

  /** A UDP packet keeps the TCP fields, and a packet of any other protocol everything. */
  lemma OtherProtocols(r: RangeInfo, ipProto: nat, v: Values, latch: bool)
    requires ipProto != 6
    ensures Stepped(r, ipProto, v, latch).tcpSeq == v.tcpSeq && Stepped(r, ipProto, v, latch).tcpAck == v.tcpAck
    ensures ipProto != 17 ==> Stepped(r, ipProto, v, latch) == v
  {
  }

  /** Over any run, every stepped field moves as if it were alone. */
  lemma {:induction false} FieldsAreIndependent(r: RangeInfo, ipProto: nat, v: Values, f: Field, k: nat)
    ensures After(r, ipProto, v, k).Of(f) ==
            if Active(f, ipProto) then Run(r.Of(f), Modulus(f), v.Of(f), k) else v.Of(f)
  {
    if k > 0 {
      FieldsAreIndependent(r, ipProto, v, f, k - 1);
      SteppedField(r, ipProto, After(r, ipProto, v, k - 1), f);
    }
  }

  ghost predicate OnGrid(s: Span, v: nat) {
    exists j: nat :: j < Period(s) && v == Grid(s, j)
  }

  /** The field is not stepped, or is fixed, or is on its grid and cycles through it. */
  ghost predicate OnCycle(r: RangeInfo, ipProto: nat, f: Field, v: nat) {
    var s := r.Of(f);
    || !Active(f, ipProto)
    || (s.inc == 0 && v == s.start)
    || (Swept(s, Modulus(f)) && NoHarmfulWrap(s, Modulus(f)) && OnGrid(s, v))
  }

  function PeriodOf(r: RangeInfo, ipProto: nat, f: Field): (p: nat)
    ensures p > 0
  {
    if Active(f, ipProto) then Period(r.Of(f)) else 1
  }

  function Periods(r: RangeInfo, ipProto: nat): (p: seq<nat>)
    ensures forall i :: 0 <= i < |p| ==> p[i] > 0
  {
    seq(|FIELDS|, i requires 0 <= i < |FIELDS| => PeriodOf(r, ipProto, FIELDS[i]))
  }

  lemma {:induction false} FixedStays(s: Span, modulus: nat, k: nat)
    requires modulus > 0 && s.inc == 0
    ensures Run(s, modulus, s.start, k) == s.start
  {
    if k > 0 {
      FixedStays(s, modulus, k - 1);
    }
  }

  lemma FieldRepeatsIff(r: RangeInfo, ipProto: nat, v: Values, f: Field, k: nat)
    requires OnCycle(r, ipProto, f, v.Of(f))
    ensures After(r, ipProto, v, k).Of(f) == v.Of(f) <==> k % PeriodOf(r, ipProto, f) == 0
  {
    var s := r.Of(f);
    FieldsAreIndependent(r, ipProto, v, f, k);
    if Active(f, ipProto) {
      if s.inc == 0 {
        FixedStays(s, Modulus(f), k);
      } else {
        var j: nat :| j < Period(s) && v.Of(f) == Grid(s, j);
        RepeatsIff(s, Modulus(f), j, k);
      }
    }
  }

  lemma FieldIsListed(f: Field) returns (i: nat)
    ensures i < |FIELDS| && FIELDS[i] == f
  {
    match f
    case TcpSeq => i := 0;
    case TcpAck => i := 1;
    case SrcPort => i := 2;
    case DstPort => i := 3;
    case Ttl => i := 4;
    case SrcIp => i := 5;
    case DstIp => i := 6;
    case VlanId => i := 7;
    case Cos => i := 8;
    case Tos => i := 9;
    case PktSize => i := 10;
    case SrcMac => i := 11;
    case DstMac => i := 12;
  }

  lemma SameValues(v: Values, w: Values)
    requires forall f: Field :: v.Of(f) == w.Of(f)
    ensures v == w
  {
    assert v.Of(TcpSeq) == w.Of(TcpSeq) && v.Of(TcpAck) == w.Of(TcpAck);
    assert v.Of(SrcPort) == w.Of(SrcPort) && v.Of(DstPort) == w.Of(DstPort) && v.Of(Ttl) == w.Of(Ttl);
    assert v.Of(SrcIp) == w.Of(SrcIp) && v.Of(DstIp) == w.Of(DstIp) && v.Of(VlanId) == w.Of(VlanId);
    assert v.Of(Cos) == w.Of(Cos) && v.Of(Tos) == w.Of(Tos) && v.Of(PktSize) == w.Of(PktSize);
    assert v.Of(SrcMac) == w.Of(SrcMac) && v.Of(DstMac) == w.Of(DstMac);
  }

  /** The tuple of all fields is back where it started exactly after the common multiples of the
      periods. */
  lemma TupleRepeatsIff(r: RangeInfo, ipProto: nat, v: Values, k: nat)
    requires forall f: Field :: OnCycle(r, ipProto, f, v.Of(f))
    ensures After(r, ipProto, v, k) == v <==> CommonMultiple(Periods(r, ipProto), k)
  {
    var ps := Periods(r, ipProto);
    forall f: Field
      ensures After(r, ipProto, v, k).Of(f) == v.Of(f) <==> k % PeriodOf(r, ipProto, f) == 0
    {
      FieldRepeatsIff(r, ipProto, v, f, k);
    }
    if CommonMultiple(ps, k) {
      forall f: Field
        ensures After(r, ipProto, v, k).Of(f) == v.Of(f)
      {
        var i := FieldIsListed(f);
        assert k % ps[i] == 0;
      }
      SameValues(After(r, ipProto, v, k), v);
    }
  }

  /** The joint tuple first repeats after exactly the least common multiple of the periods, and
      then at its multiples and nowhere else. */
  lemma TupleRepeatsAtLcm(r: RangeInfo, ipProto: nat, v: Values, n: nat, k: nat)
    requires forall f: Field :: OnCycle(r, ipProto, f, v.Of(f))
    requires IsLcm(Periods(r, ipProto), n)
    ensures After(r, ipProto, v, k) == v <==> k % n == 0
  {
    TupleRepeatsIff(r, ipProto, v, k);
    MultiplesOfLcm(Periods(r, ipProto), n, k);
  }

  /** Over any run, latch or no latch and whatever wraps, every stepped field with ordered bounds
      is within them from the first packet on. */
  lemma FieldsStayInBounds(r: RangeInfo, ipProto: nat, v: Values, minVlanSet: bool, f: Field)
    requires Active(f, ipProto) && Swept(r.Of(f), Modulus(f))
    ensures r.Of(f).min <= Stepped(r, ipProto, v, minVlanSet).Of(f) <= r.Of(f).max
  {
    match f
    case TcpSeq =>
    case TcpAck =>
    case SrcPort =>
    case DstPort =>
    case Ttl =>
    case SrcIp =>
    case DstIp =>
    case VlanId =>
    case Cos =>
    case Tos =>
    case PktSize =>
    case SrcMac =>
    case DstMac =>
  }

  /** The fields narrower than their temporary never wrap: past max they go to min. */
  lemma NarrowFieldsDoNotWrap(s: Span, f: Field, v: nat)
    requires f != TcpSeq && f != TcpAck && f != SrcIp && f != DstIp && s.inc > 0
    requires if f == SrcMac || f == DstMac then v < 0x1_0000_0000_0000 && s.inc < 0x1_0000_0000_0000
             else if f == Ttl then v < 0x100 && s.inc < 0x100 else v < 0x1_0000 && s.inc < 0x1_0000
    ensures Next(s, Modulus(f), v) ==
            if v + s.inc < s.min then s.max else if v + s.inc > s.max then s.min else v + s.inc
  {
    DivModUnique(v + s.inc, Modulus(f), 0, v + s.inc);
  }

  /** Sequence numbers and addresses do: what is compared with the bounds is the sum modulo 2^32. */
  lemma WordFieldsWrap(s: Span, f: Field, v: nat, p: nat)
    requires f == TcpSeq || f == TcpAck || f == SrcIp || f == DstIp
    requires v < 0x1_0000_0000 && 0 < s.inc < 0x1_0000_0000
    requires p == if v + s.inc >= 0x1_0000_0000 then v + s.inc - 0x1_0000_0000 else v + s.inc
    ensures Next(s, Modulus(f), v) == if p < s.min then s.max else if p > s.max then s.min else p
  {
    DivModUnique(v + s.inc, Modulus(f), if v + s.inc >= 0x1_0000_0000 then 1 else 0, p);
  }

  /** Source addresses whose last step wraps past 2^32. */
  const WRAPPING := Span(1, 1, 0xFFFF_FFFF, 12)

  lemma WrappingGrid(j: nat)
    ensures Grid(WRAPPING, j) == 1 + 12 * j
  {
  }

  /** That step lands at 9, off the grid 1, 13, 25, ... followed so far. */
  lemma WrapLeavesTheGrid(j: nat)
    ensures !Cycles(WRAPPING, Modulus(SrcIp))
    ensures Next(WRAPPING, Modulus(SrcIp), Grid(WRAPPING, Period(WRAPPING) - 1)) == 9 != Grid(WRAPPING, j)
  {
    assert Period(WRAPPING) == 357913942;
    WrappingGrid(357913941);
    WrappingGrid(357913942);
    WrappingGrid(j);
    CyclesIff(WRAPPING, Modulus(SrcIp));
    DivModUnique(4294967305, Modulus(SrcIp), 1, 9);
  }
}
