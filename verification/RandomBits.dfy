/** The random bitfield engine (app/pktgen-random.c) and the printer of its masks
    (convert_bitfield of app/pktgen-cmds.c). */
module RandomBits {
  import opened Arithmetic
  import opened Words
  import opened Wrappers

  const MAX_RND_BITFIELDS := 32
  const MAX_BITFIELD_SIZE := 32

  /** One slot: byte offset in the packet and three words in network order. */
  datatype BfSpec = BfSpec(offset: nat, andMask: Word, orMask: Word, rndMask: Word)

  // --- the mask text

  predicate MaskChar(c: char) { c == '0' || c == '1' || c == '.' || c == 'x' || c == 'X' }

  predicate GoodMask(mask: string) {
    0 < |mask| <= MAX_BITFIELD_SIZE && forall k :: 0 <= k < |mask| ==> MaskChar(mask[k])
  }

  /** Character k of a mask: 'x' is 'X', and a short mask ignores the remaining bits. */
  function CharAt(mask: string, k: nat): char {
    if k < |mask| then (if mask[k] == 'x' then 'X' else mask[k]) else '.'
  }

  function Normalised(mask: string): (t: string)
    ensures |t| == 32 && forall k :: 0 <= k < 32 ==> t[k] == CharAt(mask, k)
  {
    seq(32, k requires 0 <= k < 32 => CharAt(mask, k))
  }

  /** The slot holds the three words that the mask dictates, bit by bit in memory order. */
  ghost predicate Holds(o: HostOrder, spec: BfSpec, mask: string) {
    forall k :: 0 <= k < 32 ==>
      var c := CharAt(mask, k);
      && spec.andMask[Place(o, k)] == (c != '0' && c != 'X')
      && spec.orMask[Place(o, k)] == (c == '1')
      && spec.rndMask[Place(o, k)] == (c == 'X')
  }

  /** A call of pktgen_set_random_bitfield. */
  datatype Setting = Setting(idx: nat, offset: nat, mask: string)

  /** A good mask, or the empty one that disables the slot. */
  predicate Accepted(c: Setting) { c.mask == "" || GoodMask(c.mask) }

  /** The last accepted call for slot k; a slot that no call was accepted for is disabled. */
  function Last(calls: seq<Setting>, k: nat): (c: Setting)
    ensures c.idx == k && Accepted(c)
  {
    if calls == [] then Setting(k, 0, "")
    else
      var c := calls[|calls| - 1];
      if c.idx == k && Accepted(c) then c else Last(calls[..|calls| - 1], k)
  }

  lemma LastNext(calls: seq<Setting>, c: Setting, k: nat)
    ensures Last(calls + [c], k) == if c.idx == k && Accepted(c) then c else Last(calls, k)
  {
    assert (calls + [c])[..|calls|] == calls;
  }

  /** The masks after the first i characters, which stand in their low bits. */
  ghost predicate Collected(mask: string, i: nat, mask0: Word, mask1: Word, maskRnd: Word)
    requires i <= |mask| <= MAX_BITFIELD_SIZE
  {
    && (forall b :: 0 <= b < 32 - i ==> !mask0[b] && !mask1[b] && !maskRnd[b])
    && (forall b :: 32 - i <= b < 32 ==>
          var c := mask[b - (32 - i)];
          mask0[b] == (c == '0') && mask1[b] == (c == '1') && maskRnd[b] == (c == 'x' || c == 'X'))
  }

  /** The slot stored once the masks are read: shifted up to start at the offset, in network order. */
  function Compiled(o: HostOrder, offset: nat, padLen: nat, mask0: Word, mask1: Word, maskRnd: Word): BfSpec
    requires padLen <= 32
  {
    var m0, m1, mr := Shl(mask0, padLen), Shl(mask1, padLen), Shl(maskRnd, padLen);
    BfSpec(offset, Htonl(o, Not(Or(m0, mr))), Htonl(o, m1), Htonl(o, mr))
  }

  lemma CompiledHolds(o: HostOrder, offset: nat, mask: string, mask0: Word, mask1: Word, maskRnd: Word)
    requires GoodMask(mask) && Collected(mask, |mask|, mask0, mask1, maskRnd)
    ensures Holds(o, Compiled(o, offset, MAX_BITFIELD_SIZE - |mask|, mask0, mask1, maskRnd), mask)
  {
    var spec := Compiled(o, offset, MAX_BITFIELD_SIZE - |mask|, mask0, mask1, maskRnd);
    forall k | 0 <= k < 32
      ensures var c := CharAt(mask, k);
        && spec.andMask[Place(o, k)] == (c != '0' && c != 'X')
        && spec.orMask[Place(o, k)] == (c == '1') && spec.rndMask[Place(o, k)] == (c == 'X')
    {
      PlaceIsInvolutive(o, k);
    }
  }

  /** One turn of that loop: every mask is shifted up, and the one that the character names gets a
      1 at the end. */
  method ReadChar(mask: string, i: nat, mask0: Word, mask1: Word, maskRnd: Word)
    returns (ok: bool, m0: Word, m1: Word, mr: Word)
    requires i < |mask| <= MAX_BITFIELD_SIZE && Collected(mask, i, mask0, mask1, maskRnd)
    ensures ok <==> MaskChar(mask[i])
    ensures ok ==> Collected(mask, i + 1, m0, m1, mr)
  {
    m0, m1, mr := Shl(mask0, 1), Shl(mask1, 1), Shl(maskRnd, 1);
    ok := true;
    match mask[i] {
      case '0' => m0 := AddOne(m0);
      case '1' => m1 := AddOne(m1);
      case '.' =>
      case 'x' => mr := AddOne(mr);
      case 'X' => mr := AddOne(mr);
      case _ => ok := false;
    }
  }

  /** The loop of pktgen_set_random_bitfield and the words it compiles the mask to. */
  method CompileMask(o: HostOrder, offset: nat, mask: string) returns (r: Option<BfSpec>)
    requires 0 < |mask| <= MAX_BITFIELD_SIZE
    ensures r.Some? <==> GoodMask(mask)
    ensures r.Some? ==> r.value.offset == offset && Holds(o, r.value, mask)
  {
    var mask0, mask1, maskRnd := ZERO, ZERO, ZERO;
    var i := 0;
    while i < |mask|
      invariant 0 <= i <= |mask|
      invariant forall k :: 0 <= k < i ==> MaskChar(mask[k])
      invariant Collected(mask, i, mask0, mask1, maskRnd)
    {
      var ok;
      ok, mask0, mask1, maskRnd := ReadChar(mask, i, mask0, mask1, maskRnd);
      if !ok {
        return None;
      }
      i := i + 1;
    }
    CompiledHolds(o, offset, mask, mask0, mask1, maskRnd);
    return Some(Compiled(o, offset, MAX_BITFIELD_SIZE - |mask|, mask0, mask1, maskRnd));
  }

  /** The slot is as call c left it. */
  ghost predicate AsSet(o: HostOrder, spec: BfSpec, on: bool, c: Setting) {
    && (on <==> c.mask != "")
    && (on ==> spec.offset == c.offset && Holds(o, spec, c.mask))
  }

  class RndBits {
    const order: HostOrder         // the machine's
    var activeSpecs: Word          // slot k is bit k, the least significant first
    var specs: seq<BfSpec>
    ghost var calls: seq<Setting>  // since the structure was zeroed

    ghost predicate Valid()
      reads this
    {
      |specs| == MAX_RND_BITFIELDS &&
      forall k :: 0 <= k < MAX_RND_BITFIELDS ==>
        AsSet(order, specs[k], Active(activeSpecs, k), Last(calls, k))
    }

    /** A zeroed structure, as allocated. */
    constructor (order: HostOrder)
      ensures Valid() && activeSpecs == ZERO && calls == [] && this.order == order
      ensures forall k :: 0 <= k < MAX_RND_BITFIELDS ==> specs[k] == BfSpec(0, ZERO, ZERO, ZERO)
    {
      this.order := order;
      activeSpecs := ZERO;
      specs := seq(MAX_RND_BITFIELDS, _ => BfSpec(0, ZERO, ZERO, ZERO));
      calls := [];
    }

    /** pktgen_set_random_bitfield: an empty mask disables the slot; a slot number, length or
        character that is out of range changes nothing; a good mask is compiled and enabled. */
    method SetRandomBitfield(idx: nat, offset: nat, mask: string) returns (active: Word)
      requires Valid() && offset < 256
      modifies this
      ensures Valid() && calls == old(calls) + [Setting(idx, offset, mask)]
      ensures active == activeSpecs
      ensures idx >= MAX_RND_BITFIELDS || (mask != "" && !GoodMask(mask)) ==>
        activeSpecs == old(activeSpecs) && specs == old(specs)
      ensures idx < MAX_RND_BITFIELDS && mask == "" ==>
        activeSpecs == old(activeSpecs)[31 - idx := false] && specs == old(specs)
      ensures idx < MAX_RND_BITFIELDS && GoodMask(mask) ==>
        && activeSpecs == old(activeSpecs)[31 - idx := true]
        && specs == old(specs)[idx := specs[idx]]
        && specs[idx].offset == offset && Holds(order, specs[idx], mask)
    {
      ghost var c := Setting(idx, offset, mask);
      if idx < MAX_RND_BITFIELDS && |mask| <= MAX_BITFIELD_SIZE {
        if |mask| == 0 {
          activeSpecs := activeSpecs[31 - idx := false];
        } else {
          var spec := CompileMask(order, offset, mask);
          if spec.Some? {
            activeSpecs := activeSpecs[31 - idx := true];
            specs := specs[idx := spec.value];
          }
        }
      }
      forall k | 0 <= k < MAX_RND_BITFIELDS
        ensures AsSet(order, specs[k], Active(activeSpecs, k), Last(calls + [c], k))
      {
        LastNext(calls, c, k);
      }
      calls := calls + [c];
      active := activeSpecs;
    }

    /** The structure as pktgen_rnd_bits_apply reads it: whatever calls were made, each active slot
        holds the mask of its last accepted one. */
    ghost function Configured(rnd: nat -> Word): (e: Engine)
      requires Valid()
      reads this
      ensures AllHold(e, Masks(calls))
      ensures forall k :: 0 <= k < |e.specs| ==> (Active(e.active, k) <==> Last(calls, k).mask != "")
    {
      Engine(order, specs, activeSpecs, rnd)
    }
  }

  /** The masks of the slots after `calls`, slot by slot. */
  function Masks(calls: seq<Setting>): (masks: seq<string>)
    ensures |masks| == MAX_RND_BITFIELDS
    ensures forall k :: 0 <= k < |masks| ==> masks[k] == Last(calls, k).mask
  {
    seq(MAX_RND_BITFIELDS, k requires 0 <= k < MAX_RND_BITFIELDS => Last(calls, k).mask)
  }

  /** The three source masks of a compiled slot are pairwise disjoint at every position, and one
      of them has the bit exactly where the mask character is not '.': the bits to clear are those
      that neither keep their value nor take a random one. */
  lemma MasksAreDisjoint(o: HostOrder, spec: BfSpec, mask: string, k: nat)
    requires GoodMask(mask) && Holds(o, spec, mask) && k < 32
    ensures var p := Place(o, k);
            var zero, one, random := !spec.andMask[p] && !spec.rndMask[p], spec.orMask[p], spec.rndMask[p];
            && !(zero && one) && !(zero && random) && !(one && random)
            && (zero || one || random <==> CharAt(mask, k) != '.')
  {
    assert k < |mask| ==> MaskChar(mask[k]);
  }

  // --- the printer

  /** convert_bitfield. */
  method ConvertBitfield(o: HostOrder, spec: BfSpec) returns (text: string)
    ensures text == Printed(o, spec)
  {
    text := [];
    var i := 0;
    while i < MAX_BITFIELD_SIZE
      invariant 0 <= i <= MAX_BITFIELD_SIZE
      invariant text == Printed(o, spec)[..i]
    {
      var c := if Htonl(o, spec.rndMask)[i] then 'X'
               else if !Htonl(o, spec.andMask)[i] then '0'
               else if Htonl(o, spec.orMask)[i] then '1'
               else '.';
      text := text + [c];
      i := i + 1;
    }
  }

  function Printed(o: HostOrder, spec: BfSpec): (text: string)
    ensures |text| == 32
  {
    seq(32, i requires 0 <= i < 32 =>
      if spec.rndMask[Place(o, i)] then 'X'
      else if !spec.andMask[Place(o, i)] then '0'
      else if spec.orMask[Place(o, i)] then '1' else '.')
  }

  /** Printing a compiled mask gives the mask back, upper-cased and padded to 32 characters. */
  lemma PrintRoundTrip(o: HostOrder, spec: BfSpec, mask: string)
    requires GoodMask(mask) && Holds(o, spec, mask)
    ensures Printed(o, spec) == Normalised(mask) && GoodMask(Printed(o, spec))
  {
    forall k | 0 <= k < 32 ensures Printed(o, spec)[k] == CharAt(mask, k) {
      assert k < |mask| ==> MaskChar(mask[k]);
    }
  }

  /** A mask's words are determined by the mask, and recompiling the printed text gives
      identical words. */
  lemma RecompileIsIdentical(o: HostOrder, a: BfSpec, b: BfSpec, mask: string)
    requires GoodMask(mask) && Holds(o, a, mask) && Holds(o, b, Printed(o, a))
    ensures a.andMask == b.andMask && a.orMask == b.orMask && a.rndMask == b.rndMask
  {
    PrintRoundTrip(o, a, mask);
    forall p | 0 <= p < 32
      ensures a.andMask[p] == b.andMask[p] && a.orMask[p] == b.orMask[p] && a.rndMask[p] == b.rndMask[p]
    {
      var k := Place(o, p);
      PlaceIsInvolutive(o, p);
      assert CharAt(Printed(o, a), k) == CharAt(mask, k) by { assert Printed(o, a)[k] == CharAt(mask, k); }
    }
  }

  /** What pktgen_rnd_bits_init leaves: its all-'?' mask is rejected, so an untouched slot still
      holds zero words, which print as 32 '0' characters and not as 32 ignored bits. */
  lemma UntouchedSlotPrintsZeros(o: HostOrder)
    ensures !GoodMask("????????????????????????????????")
    ensures Printed(o, BfSpec(0, ZERO, ZERO, ZERO)) == seq(32, _ => '0')
  {
    assert "????????????????????????????????"[0] == '?';
  }

  // --- applying the slots to packets

  type Packet = seq<Octet>

  function Bit(p: Packet, n: nat): bool
    requires n < 8 * |p|
  {
    p[n / 8][n % 8]
  }

  /** One slot applied with the random word r: and, or, and the random bits merged in. */
  function SlotWord(spec: BfSpec, w: Word, r: Word): Word {
    var fixed := Or(And(w, spec.andMask), spec.orMask);
    if IsZero(spec.rndMask) then fixed else Or(fixed, And(r, spec.rndMask))
  }

  function ApplySlot(o: HostOrder, p: Packet, spec: BfSpec, r: Word): (q: Packet)
    requires spec.offset + 4 <= |p|
    ensures |q| == |p|
  {
    p[..spec.offset] + Store(o, SlotWord(spec, Load(o, p[spec.offset..spec.offset + 4]), r)) + p[spec.offset + 4..]
  }

  lemma BitIndex(off: nat, n: nat)
    requires 8 * off <= n
    ensures n / 8 == off + (n - 8 * off) / 8 && n % 8 == (n - 8 * off) % 8
  {
  }

  lemma ByteOutside(off: nat, n: nat)
    requires n < 8 * off || 8 * off + 32 <= n
    ensures n / 8 < off || off + 4 <= n / 8
  {
  }

  lemma LoadBit(o: HostOrder, bs: seq<Octet>, b: nat, c: nat)
    requires |bs| == 4 && b < 4 && c < 8
    ensures Load(o, bs)[Place(o, 8 * b + c)] == bs[b][c]
  {
    var i := 8 * b + c;
    assert i / 8 == b && i % 8 == c;
  }

  lemma StoreBit(o: HostOrder, w: Word, b: nat, c: nat)
    requires b < 4 && c < 8
    ensures Store(o, w)[b][c] == w[Place(o, 8 * b + c)]
  {
    var i := 8 * b + c;
    assert i / 8 == b && i % 8 == c;
  }

  lemma CoveredBit(o: HostOrder, p: Packet, spec: BfSpec, r: Word, b: nat, c: nat)
    requires spec.offset + 4 <= |p| && b < 4 && c < 8
    ensures var q, j, at := ApplySlot(o, p, spec, r), spec.offset + b, Place(o, 8 * b + c);
            q[j][c] == ((p[j][c] && spec.andMask[at]) || spec.orMask[at] || (spec.rndMask[at] && r[at]))
  {
    var bs := p[spec.offset..spec.offset + 4];
    var word := SlotWord(spec, Load(o, bs), r);
    LoadBit(o, bs, b, c);
    StoreBit(o, word, b, c);
    StoredByte(p, spec.offset, Store(o, word), b);
    assert bs[b] == p[spec.offset + b];
  }

  lemma StoredByte(p: Packet, off: nat, bs: seq<Octet>, b: nat)
    requires off + 4 <= |p| && |bs| == 4 && b < 4
    ensures (p[..off] + bs + p[off + 4..])[off + b] == bs[b]
  {
  }

  lemma OutsideByte(o: HostOrder, p: Packet, spec: BfSpec, r: Word, j: nat)
    requires spec.offset + 4 <= |p| && j < |p| && (j < spec.offset || spec.offset + 4 <= j)
    ensures ApplySlot(o, p, spec, r)[j] == p[j]
  {
  }

  /** Bit n of the packet under one slot. */
  lemma SlotBit(o: HostOrder, p: Packet, spec: BfSpec, r: Word, n: nat)
    requires spec.offset + 4 <= |p| && n < 8 * |p|
    ensures var q := ApplySlot(o, p, spec, r);
      if Covers(spec, n) then
        var at := Place(o, n - 8 * spec.offset);
        Bit(q, n) == ((Bit(p, n) && spec.andMask[at]) || spec.orMask[at] || (spec.rndMask[at] && r[at]))
      else Bit(q, n) == Bit(p, n)
  {
    if Covers(spec, n) {
      var i := n - 8 * spec.offset;
      BitIndex(spec.offset, n);
      assert i == 8 * (i / 8) + i % 8;
      CoveredBit(o, p, spec, r, i / 8, i % 8);
    } else {
      ByteOutside(spec.offset, n);
      OutsideByte(o, p, spec, r, n / 8);
    }
  }

  predicate Covers(spec: BfSpec, n: nat) {
    8 * spec.offset <= n < 8 * spec.offset + 32
  }

  /** The state of the loop over the slots: the packet and how many random words were drawn. */
  datatype Applied = Applied(p: Packet, drawn: nat)

  predicate Active(active: Word, k: nat)
    requires k < 32
  {
    active[31 - k]
  }

  /** Every active slot's word lies in the packet. */
  ghost predicate Reaches(specs: seq<BfSpec>, active: Word, len: nat) {
    |specs| == 32 && forall k :: 0 <= k < 32 && Active(active, k) ==> specs[k].offset + 4 <= len
  }

  /** One configuration of the engine, with the stream of random words it draws from. */
  datatype Engine = Engine(order: HostOrder, specs: seq<BfSpec>, active: Word, rnd: nat -> Word)

  ghost predicate Fits(e: Engine, len: nat) { Reaches(e.specs, e.active, len) }

  /** Slot k applied to a state, if it is active. */
  ghost function Step(e: Engine, a: Applied, k: nat): (b: Applied)
    requires k < 32 && Fits(e, |a.p|)
    ensures |b.p| == |a.p|
  {
    if !Active(e.active, k) then a
    else Applied(ApplySlot(e.order, a.p, e.specs[k], e.rnd(a.drawn)),
                 if IsZero(e.specs[k].rndMask) then a.drawn else a.drawn + 1)
  }

  /** The first k slots applied in order. */
  ghost function AfterSlots(e: Engine, p: Packet, drawn: nat, k: nat): (a: Applied)
    requires k <= 32 && Fits(e, |p|)
    ensures |a.p| == |p|
  {
    if k == 0 then Applied(p, drawn) else Step(e, AfterSlots(e, p, drawn, k - 1), k - 1)
  }

  /** The random word that slot k merges in. */
  ghost function DrawOf(e: Engine, p: Packet, drawn: nat, k: nat): Word
    requires k < 32 && Fits(e, |p|)
  {
    e.rnd(AfterSlots(e, p, drawn, k).drawn)
  }

  lemma {:induction false} InactiveTail(e: Engine, p: Packet, drawn: nat, k: nat, m: nat)
    requires k <= m <= 32 && Fits(e, |p|)
    requires forall j :: k <= j < m ==> !Active(e.active, j)
    ensures AfterSlots(e, p, drawn, m) == AfterSlots(e, p, drawn, k)
    decreases m
  {
    if k < m {
      InactiveTail(e, p, drawn, k, m - 1);
    }
  }

  lemma FourReplaced(p: Packet, off: nat, bs: seq<Octet>, q: Packet)
    requires off + 4 <= |p| == |q| && |bs| == 4
    requires q[off] == bs[0] && q[off + 1] == bs[1] && q[off + 2] == bs[2] && q[off + 3] == bs[3]
    requires forall k :: 0 <= k < |p| && !(off <= k < off + 4) ==> q[k] == p[k]
    ensures q == p[..off] + bs + p[off + 4..]
  {
  }

  /** One slot on the packet's memory. */
  method ApplyInPlace(o: HostOrder, pkt: array<Octet>, spec: BfSpec, drawn0: nat, rnd: nat -> Word) returns (drawn: nat)
    requires spec.offset + 4 <= pkt.Length
    modifies pkt
    ensures pkt[..] == ApplySlot(o, old(pkt[..]), spec, rnd(drawn0))
    ensures drawn == if IsZero(spec.rndMask) then drawn0 else drawn0 + 1
  {
    ghost var p := pkt[..];
    var off := spec.offset;
    assert pkt[off..off + 4] == p[off..off + 4];
    var w := Load(o, pkt[off..off + 4]);
    w := And(w, spec.andMask);
    w := Or(w, spec.orMask);
    drawn := drawn0;
    if !IsZero(spec.rndMask) {
      w := Or(w, And(rnd(drawn), spec.rndMask));
      drawn := drawn + 1;
    }
    var bs := Store(o, w);
    pkt[off], pkt[off + 1], pkt[off + 2], pkt[off + 3] := bs[0], bs[1], bs[2], bs[3];
    FourReplaced(p, off, bs, pkt[..]);
  }

  /** `bits` is the active word after k right shifts. */
  ghost predicate Shifted(bits: Word, active: Word, k: nat) {
    forall b :: 0 <= b < 32 ==> bits[b] == (b >= k && active[b - k])
  }

  lemma ShiftedLowBit(bits: Word, active: Word, k: nat)
    requires k < 32 && Shifted(bits, active, k)
    ensures bits[31] == Active(active, k) && Shifted(Shr1(bits), active, k + 1)
  {
  }

  lemma ShiftedOut(bits: Word, active: Word, k: nat)
    requires k <= 32 && Shifted(bits, active, k) && IsZero(bits)
    ensures forall j :: k <= j < 32 ==> !Active(active, j)
  {
    forall j | k <= j < 32 ensures !Active(active, j) {
      assert !bits[31 - j + k];
    }
  }

  /** The inner loop of pktgen_rnd_bits_apply, on one packet. */
  method ApplyToPacket(e: Engine, pkt: array<Octet>, drawn0: nat) returns (drawn: nat)
    requires Fits(e, pkt.Length)
    modifies pkt
    ensures Applied(pkt[..], drawn) == AfterSlots(e, old(pkt[..]), drawn0, |e.specs|)
  {
    drawn := drawn0;
    var bits, k := e.active, 0;
    ghost var p0 := pkt[..];
    while !IsZero(bits)
      invariant 0 <= k <= 32 && Shifted(bits, e.active, k)
      invariant Applied(pkt[..], drawn) == AfterSlots(e, p0, drawn0, k)
      decreases 32 - k
    {
      ShiftedLowBit(bits, e.active, k);
      if bits[31] {
        drawn := ApplyInPlace(e.order, pkt, e.specs[k], drawn, e.rnd);
      }
      k, bits := k + 1, Shr1(bits);
    }
    ShiftedOut(bits, e.active, k);
    InactiveTail(e, p0, drawn0, k, |e.specs|);
  }

  // --- what the packet bits become

  /** Slot k is active, covers packet bit n, and its mask character there is not '.'. */
  ghost predicate Names(e: Engine, masks: seq<string>, k: nat, n: nat)
    requires |e.specs| == |masks| == 32 && k < 32
  {
    Active(e.active, k) && Covers(e.specs[k], n) && CharAt(masks[k], n - 8 * e.specs[k].offset) != '.'
  }

  /** Each active slot holds its mask. */
  ghost predicate AllHold(e: Engine, masks: seq<string>) {
    |e.specs| == |masks| == 32 &&
    forall k :: 0 <= k < 32 && Active(e.active, k) ==> GoodMask(masks[k]) && Holds(e.order, e.specs[k], masks[k])
  }

  /** What slot k's mask character makes of packet bit n, given the slot's random word. */
  ghost function Dictated(e: Engine, masks: seq<string>, k: nat, n: nat, random: Word): bool
    requires |e.specs| == |masks| == 32 && k < 32 && Covers(e.specs[k], n)
  {
    var i := n - 8 * e.specs[k].offset;
    var c := CharAt(masks[k], i);
    if c == '0' then false else if c == '1' then true else random[Place(e.order, i)]
  }

  /** The three words of a slot at the place of mask character i. */
  lemma WordsAt(o: HostOrder, spec: BfSpec, mask: string, i: nat)
    requires GoodMask(mask) && Holds(o, spec, mask) && i < 32
    ensures var c, at := CharAt(mask, i), Place(o, i);
            && (c == '0' || c == '1' || c == 'X' || c == '.')
            && spec.andMask[at] == (c != '0' && c != 'X')
            && spec.orMask[at] == (c == '1') && spec.rndMask[at] == (c == 'X')
  {
    assert i < |mask| ==> MaskChar(mask[i]);
  }

  lemma StepBit(e: Engine, a: Applied, masks: seq<string>, k: nat, n: nat)
    requires k < 32 && Fits(e, |a.p|) && AllHold(e, masks) && n < 8 * |a.p|
    ensures Bit(Step(e, a, k).p, n) ==
            if Names(e, masks, k, n) then Dictated(e, masks, k, n, e.rnd(a.drawn)) else Bit(a.p, n)
  {
    if Active(e.active, k) {
      SlotBit(e.order, a.p, e.specs[k], e.rnd(a.drawn), n);
      if Covers(e.specs[k], n) {
        WordsAt(e.order, e.specs[k], masks[k], n - 8 * e.specs[k].offset);
      }
    }
  }

  /** Slot k is the highest-numbered of the first m to name packet bit n. */
  ghost predicate Decides(e: Engine, masks: seq<string>, k: nat, n: nat, m: nat)
    requires |e.specs| == |masks| == 32 && m <= 32
  {
    k < m && Names(e, masks, k, n) && forall j :: k < j < m ==> !Names(e, masks, j, n)
  }

  ghost predicate Unnamed(e: Engine, masks: seq<string>, n: nat, m: nat)
    requires |e.specs| == |masks| == 32 && m <= 32
  {
    forall k :: 0 <= k < m ==> !Names(e, masks, k, n)
  }

  lemma {:induction false} UnnamedKept(e: Engine, p: Packet, drawn: nat, masks: seq<string>, n: nat, m: nat)
    requires m <= 32 && n < 8 * |p| && Fits(e, |p|) && AllHold(e, masks) && Unnamed(e, masks, n, m)
    ensures Bit(AfterSlots(e, p, drawn, m).p, n) == Bit(p, n)
  {
    if m > 0 {
      UnnamedKept(e, p, drawn, masks, n, m - 1);
      StepBit(e, AfterSlots(e, p, drawn, m - 1), masks, m - 1, n);
      assert !Names(e, masks, m - 1, n);
    }
  }

  lemma {:induction false} DecidedBit(e: Engine, p: Packet, drawn: nat, masks: seq<string>, k: nat, n: nat, m: nat)
    requires m <= 32 && n < 8 * |p| && Fits(e, |p|) && AllHold(e, masks) && Decides(e, masks, k, n, m)
    ensures Bit(AfterSlots(e, p, drawn, m).p, n) == Dictated(e, masks, k, n, DrawOf(e, p, drawn, k))
    decreases m
  {
    StepBit(e, AfterSlots(e, p, drawn, m - 1), masks, m - 1, n);
    if k < m - 1 {
      assert !Names(e, masks, m - 1, n);
      DecidedBit(e, p, drawn, masks, k, n, m - 1);
    }
  }

  /** Applying the first m slots, on either host byte order: each packet bit takes the value
      dictated by the highest-numbered of them that is active, covers it and has a mask character
      other than '.' there; a bit that no slot names is unchanged. */
  lemma ApplyRefinesBits(e: Engine, p: Packet, drawn: nat, masks: seq<string>, n: nat, m: nat)
    requires m <= 32 && n < 8 * |p| && Fits(e, |p|) && AllHold(e, masks)
    ensures Unnamed(e, masks, n, m) ==> Bit(AfterSlots(e, p, drawn, m).p, n) == Bit(p, n)
    ensures forall k: nat :: Decides(e, masks, k, n, m) ==>
      Bit(AfterSlots(e, p, drawn, m).p, n) == Dictated(e, masks, k, n, DrawOf(e, p, drawn, k))
  {
    if Unnamed(e, masks, n, m) {
      UnnamedKept(e, p, drawn, masks, n, m);
    }
    forall k: nat | Decides(e, masks, k, n, m)
      ensures Bit(AfterSlots(e, p, drawn, m).p, n) == Dictated(e, masks, k, n, DrawOf(e, p, drawn, k))
    {
      DecidedBit(e, p, drawn, masks, k, n, m);
    }
  }

  // --- which random word a slot merges in

  /** The mask has a random bit. */
  ghost predicate HasRandom(mask: string) {
    exists i :: 0 <= i < 32 && CharAt(mask, i) == 'X'
  }

  /** How many of the slots below k are active and have a random bit. */
  ghost function RandomBelow(active: Word, masks: seq<string>, k: nat): (c: nat)
    requires k <= |masks| == 32
  {
    if k == 0 then 0
    else RandomBelow(active, masks, k - 1) + if Active(active, k - 1) && HasRandom(masks[k - 1]) then 1 else 0
  }

  lemma ZeroRandomIff(o: HostOrder, spec: BfSpec, mask: string)
    requires Holds(o, spec, mask)
    ensures IsZero(spec.rndMask) <==> !HasRandom(mask)
  {
    if HasRandom(mask) {
      var i :| 0 <= i < 32 && CharAt(mask, i) == 'X';
      assert spec.rndMask[Place(o, i)];
    } else {
      forall p | 0 <= p < 32 ensures !spec.rndMask[p] {
        PlaceIsInvolutive(o, p);
        assert CharAt(mask, Place(o, p)) != 'X';
      }
    }
  }

  /** The stream position after the first k slots of a packet. */
  lemma {:induction false} DrawnAfterSlots(e: Engine, p: Packet, drawn: nat, masks: seq<string>, k: nat)
    requires k <= 32 && Fits(e, |p|) && AllHold(e, masks)
    ensures AfterSlots(e, p, drawn, k).drawn == drawn + RandomBelow(e.active, masks, k)
  {
    if k > 0 {
      DrawnAfterSlots(e, p, drawn, masks, k - 1);
      if Active(e.active, k - 1) {
        ZeroRandomIff(e.order, e.specs[k - 1], masks[k - 1]);
      }
    }
  }

  lemma {:induction false} RandomBelowGrows(active: Word, masks: seq<string>, j: nat, k: nat)
    requires j <= k <= |masks| == 32
    ensures RandomBelow(active, masks, j) <= RandomBelow(active, masks, k)
    ensures j < k && Active(active, j) && HasRandom(masks[j]) ==>
      RandomBelow(active, masks, j) < RandomBelow(active, masks, k)
    decreases k
  {
    if j < k {
      RandomBelowGrows(active, masks, j, k - 1);
    }
  }

  /** Where in the stream slot k of packet j finds its word, `all` words being drawn a packet. */
  ghost function StreamAt(active: Word, masks: seq<string>, all: nat, j: nat, k: nat): nat
    requires k <= |masks| == 32
  {
    j * all + RandomBelow(active, masks, k)
  }

  lemma PacketsApart(all: nat, j: nat, c: nat, j': nat, c': nat)
    requires c < all && c' < all && j < j'
    ensures j * all + c < j' * all + c'
  {
    ScaleNat(j + 1, j', all);
    assert (j + 1) * all == j * all + all;
  }

  /** No two slots with random bits, of one packet or of two, share a word of the stream. */
  lemma StreamWordsAreDistinct(active: Word, masks: seq<string>, all: nat, j: nat, k: nat, j': nat, k': nat)
    requires |masks| == 32 && all == RandomBelow(active, masks, |masks|) && k < 32 && k' < 32
    requires Active(active, k) && HasRandom(masks[k]) && Active(active, k') && HasRandom(masks[k'])
    ensures StreamAt(active, masks, all, j, k) == StreamAt(active, masks, all, j', k') ==> j == j' && k == k'
  {
    RandomBelowGrows(active, masks, k, |masks|);
    RandomBelowGrows(active, masks, k', |masks|);
    if k < k' {
      RandomBelowGrows(active, masks, k, k');
    } else if k' < k {
      RandomBelowGrows(active, masks, k', k);
    }
    if j < j' {
      PacketsApart(all, j, RandomBelow(active, masks, k), j', RandomBelow(active, masks, k'));
    } else if j' < j {
      PacketsApart(all, j', RandomBelow(active, masks, k'), j, RandomBelow(active, masks, k));
    }
  }

  // --- the burst

  ghost predicate AllFit(e: Engine, pkts: seq<Packet>) {
    forall p :: p in pkts ==> Fits(e, |p|)
  }

  /** How many words the first k packets of a burst have drawn. */
  ghost function DrawnBy(e: Engine, pkts: seq<Packet>, k: nat): nat
    requires k <= |pkts| && AllFit(e, pkts)
  {
    if k == 0 then 0 else AfterSlots(e, pkts[k - 1], DrawnBy(e, pkts, k - 1), |e.specs|).drawn
  }

  /** Packet j of a burst once every active slot has been applied to it. */
  ghost function Randomised(e: Engine, pkts: seq<Packet>, j: nat): Packet
    requires j < |pkts| && AllFit(e, pkts)
  {
    AfterSlots(e, pkts[j], DrawnBy(e, pkts, j), |e.specs|).p
  }

  /** The burst after it. */
  ghost function AllRandomised(e: Engine, pkts: seq<Packet>): (done: seq<Packet>)
    requires AllFit(e, pkts)
    ensures |done| == |pkts| && forall j :: 0 <= j < |pkts| ==> done[j] == Randomised(e, pkts, j)
  {
    seq(|pkts|, j requires 0 <= j < |pkts| => Randomised(e, pkts, j))
  }

  /** The arrays hold the first k packets of `done` and the rest of `before`. */
  ghost predicate Hold(pkts: seq<array<Octet>>, done: seq<Packet>, before: seq<Packet>, k: nat)
    reads pkts
  {
    && |pkts| == |done| == |before| && k <= |pkts|
    && (forall j :: 0 <= j < k ==> pkts[j][..] == done[j])
    && (forall j :: k <= j < |pkts| ==> pkts[j][..] == before[j])
  }

  predicate Distinct(pkts: seq<array<Octet>>) {
    forall i, j :: 0 <= i < j < |pkts| ==> pkts[i] != pkts[j]
  }

  lemma NoSlotNoChange(e: Engine, p: Packet, drawn: nat)
    requires Fits(e, |p|) && IsZero(e.active)
    ensures AfterSlots(e, p, drawn, |e.specs|).p == p
  {
    InactiveTail(e, p, drawn, 0, |e.specs|);
  }

  lemma NoSlotsNoWork(e: Engine, before: seq<Packet>)
    requires AllFit(e, before)
    requires IsZero(e.active)
    ensures AllRandomised(e, before) == before
  {
    forall j | 0 <= j < |before|
      ensures before[j] == Randomised(e, before, j)
    {
      NoSlotNoChange(e, before[j], DrawnBy(e, before, j));
    }
  }

  /** A packet that starts as p with d words drawn ends as q with d1 words drawn. */
  ghost predicate Becomes(e: Engine, p: Packet, d: nat, q: Packet, d1: nat) {
    Fits(e, |p|) && Applied(q, d1) == AfterSlots(e, p, d, |e.specs|)
  }

  ghost predicate InTurn(e: Engine, before: seq<Packet>, done: seq<Packet>, draws: seq<nat>) {
    && |done| == |before| && |draws| == |before| + 1 && draws[0] == 0
    && forall j :: 0 <= j < |before| ==> Becomes(e, before[j], draws[j], done[j], draws[j + 1])
  }

  /** The words drawn before each packet of a burst and after the last. */
  ghost function Draws(e: Engine, pkts: seq<Packet>): (ds: seq<nat>)
    requires AllFit(e, pkts)
    ensures |ds| == |pkts| + 1 && forall k :: 0 <= k <= |pkts| ==> ds[k] == DrawnBy(e, pkts, k)
  {
    seq(|pkts| + 1, k requires 0 <= k <= |pkts| => DrawnBy(e, pkts, k))
  }

  lemma RandomisedInTurn(e: Engine, pkts: seq<Packet>)
    requires AllFit(e, pkts)
    ensures InTurn(e, pkts, AllRandomised(e, pkts), Draws(e, pkts))
  {
    var done, draws := AllRandomised(e, pkts), Draws(e, pkts);
    forall j | 0 <= j < |pkts| ensures Becomes(e, pkts[j], draws[j], done[j], draws[j + 1]) {
      assert pkts[j] in pkts;
      assert done[j] == Randomised(e, pkts, j) && draws[j + 1] == DrawnBy(e, pkts, j + 1);
    }
  }

  /** Packet i of a burst whose first i packets are done. */
  method ApplyToOne(e: Engine, pkts: seq<array<Octet>>, i: nat, drawn0: nat,
                    ghost before: seq<Packet>, ghost done: seq<Packet>, ghost drawn1: nat)
    returns (drawn: nat)
    requires i < |pkts| && Hold(pkts, done, before, i)
    requires Becomes(e, before[i], drawn0, done[i], drawn1)
    requires Distinct(pkts)
    modifies pkts[i]
    ensures Hold(pkts, done, before, i + 1)
    ensures drawn == drawn1
  {
    assert pkts[i][..] == before[i];
    drawn := ApplyToPacket(e, pkts[i], drawn0);
    forall j | 0 <= j < |pkts| && j != i
      ensures pkts[j][..] == old(pkts[j][..])
    {
    }
  }

  /** The outer loop of pktgen_rnd_bits_apply. */
  method ApplyToAll(e: Engine, pkts: seq<array<Octet>>, ghost before: seq<Packet>, ghost done: seq<Packet>,
                    ghost draws: seq<nat>)
    requires InTurn(e, before, done, draws)
    requires Hold(pkts, done, before, 0)
    requires Distinct(pkts)
    modifies pkts
    ensures Hold(pkts, done, before, |pkts|)
  {
    var drawn, i := 0, 0;
    while i < |pkts|
      invariant 0 <= i <= |pkts|
      invariant drawn == draws[i] && Hold(pkts, done, before, i)
    {
      drawn := ApplyToOne(e, pkts, i, drawn, before, done, draws[i + 1]);
      i := i + 1;
    }
  }

  /** pktgen_rnd_bits_apply: every packet of the burst gets every active slot, each packet with
      words of its own from the stream. `before` is the burst's contents on entry. */
  method RndBitsApply(e: Engine, pkts: seq<array<Octet>>, ghost before: seq<Packet>)
    requires AllFit(e, before)
    requires Hold(pkts, before, before, 0)
    requires Distinct(pkts)
    modifies pkts
    ensures Hold(pkts, AllRandomised(e, before), before, |pkts|)
  {
    if IsZero(e.active) {
      NoSlotsNoWork(e, before);
    } else {
      RandomisedInTurn(e, before);
      ApplyToAll(e, pkts, before, AllRandomised(e, before), Draws(e, before));
    }
  }

  // --- what the bits of a burst become

  /** What the first j packets draw. */
  lemma OneMorePacket(e: Engine, pkts: seq<Packet>, masks: seq<string>, j: nat)
    requires AllFit(e, pkts) && AllHold(e, masks) && j < |pkts|
    ensures DrawnBy(e, pkts, j + 1) == DrawnBy(e, pkts, j) + RandomBelow(e.active, masks, |masks|)
  {
    assert pkts[j] in pkts;
    DrawnAfterSlots(e, pkts[j], DrawnBy(e, pkts, j), masks, |masks|);
  }

  /** `draws` grows by `all` from one entry to the next. */
  ghost predicate Steady(draws: seq<nat>, all: nat) {
    draws != [] && draws[0] == 0 && forall j :: 0 <= j < |draws| - 1 ==> draws[j + 1] == draws[j] + all
  }

  lemma {:induction false} SteadyAt(draws: seq<nat>, all: nat, j: nat)
    requires Steady(draws, all) && j < |draws|
    ensures draws[j] == j * all
  {
    if j > 0 {
      SteadyAt(draws, all, j - 1);
      assert draws[(j - 1) + 1] == draws[j - 1] + all;
      assert j * all == (j - 1) * all + all;
    }
  }

  lemma DrawsAreSteady(e: Engine, pkts: seq<Packet>, masks: seq<string>)
    requires AllFit(e, pkts) && AllHold(e, masks)
    ensures Steady(Draws(e, pkts), RandomBelow(e.active, masks, |masks|))
  {
    var draws := Draws(e, pkts);
    forall j | 0 <= j < |draws| - 1
      ensures draws[j + 1] == draws[j] + RandomBelow(e.active, masks, |masks|)
    {
      OneMorePacket(e, pkts, masks, j);
    }
  }

  /** The word that slot k merges into a packet. */
  lemma WordOfSlot(e: Engine, p: Packet, drawn: nat, masks: seq<string>, k: nat, at: nat)
    requires Fits(e, |p|) && AllHold(e, masks) && k < |masks|
    requires at == drawn + RandomBelow(e.active, masks, k)
    ensures DrawOf(e, p, drawn, k) == e.rnd(at)
  {
    DrawnAfterSlots(e, p, drawn, masks, k);
    var d := AfterSlots(e, p, drawn, k).drawn;
    assert d == at;
  }

  lemma DecidedBy(e: Engine, p: Packet, drawn: nat, masks: seq<string>, n: nat, k: nat, at: nat)
    requires n < 8 * |p| && Fits(e, |p|) && AllHold(e, masks) && Decides(e, masks, k, n, |e.specs|)
    requires at == drawn + RandomBelow(e.active, masks, k)
    ensures Bit(AfterSlots(e, p, drawn, |e.specs|).p, n) == Dictated(e, masks, k, n, e.rnd(at))
  {
    WordOfSlot(e, p, drawn, masks, k, at);
    DecidedBit(e, p, drawn, masks, k, n, |e.specs|);
  }

  lemma BurstStream(e: Engine, pkts: seq<Packet>, masks: seq<string>, all: nat, j: nat, k: nat)
    requires AllFit(e, pkts) && AllHold(e, masks) && j < |pkts| && k < |e.specs|
    requires all == RandomBelow(e.active, masks, |masks|)
    ensures DrawnBy(e, pkts, j) + RandomBelow(e.active, masks, k) == StreamAt(e.active, masks, all, j, k)
  {
    DrawsAreSteady(e, pkts, masks);
    SteadyAt(Draws(e, pkts), all, j);
    assert Draws(e, pkts)[j] == DrawnBy(e, pkts, j);
  }

  /** Bit n of packet j after a burst, where slot k is the highest-numbered to name it: 0, 1, or its
      bit of the stream's word j * R + c, where R slots have random bits and c of them come before k. */
  lemma BurstBitDecided(e: Engine, pkts: seq<Packet>, masks: seq<string>, all: nat, j: nat, n: nat, k: nat)
    requires AllFit(e, pkts) && AllHold(e, masks) && j < |pkts| && n < 8 * |pkts[j]|
    requires all == RandomBelow(e.active, masks, |masks|) && Decides(e, masks, k, n, |e.specs|)
    ensures |Randomised(e, pkts, j)| == |pkts[j]|
    ensures Bit(Randomised(e, pkts, j), n) == Dictated(e, masks, k, n, e.rnd(StreamAt(e.active, masks, all, j, k)))
  {
    assert pkts[j] in pkts;
    BurstStream(e, pkts, masks, all, j, k);
    DecidedBy(e, pkts[j], DrawnBy(e, pkts, j), masks, n, k, StreamAt(e.active, masks, all, j, k));
  }

  /** A bit that no slot names is as it was. */
  lemma BurstBitUnnamed(e: Engine, pkts: seq<Packet>, masks: seq<string>, j: nat, n: nat)
    requires AllFit(e, pkts) && AllHold(e, masks) && j < |pkts| && n < 8 * |pkts[j]|
    requires Unnamed(e, masks, n, |e.specs|)
    ensures |Randomised(e, pkts, j)| == |pkts[j]|
    ensures Bit(Randomised(e, pkts, j), n) == Bit(pkts[j], n)
  {
    assert pkts[j] in pkts;
    UnnamedKept(e, pkts[j], DrawnBy(e, pkts, j), masks, n, |e.specs|);
  }
}
