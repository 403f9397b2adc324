/** 32-bit words as their bits, most significant first, and the four octets they occupy in
    memory on a host of either byte order. */
module Words {

  type Word = w: seq<bool> | |w| == 32 witness seq(32, _ => false)
  type Octet = b: seq<bool> | |b| == 8 witness seq(8, _ => false)

  datatype HostOrder = BigEndian | LittleEndian

  const ZERO: Word := seq(32, _ => false)

  function Not(a: Word): (r: Word)
    ensures forall i :: 0 <= i < 32 ==> r[i] == !a[i]
  {
    seq(32, i requires 0 <= i < 32 => !a[i])
  }

  function And(a: Word, b: Word): (r: Word)
    ensures forall i :: 0 <= i < 32 ==> r[i] == (a[i] && b[i])
  {
    seq(32, i requires 0 <= i < 32 => a[i] && b[i])
  }

  function Or(a: Word, b: Word): (r: Word)
    ensures forall i :: 0 <= i < 32 ==> r[i] == (a[i] || b[i])
  {
    seq(32, i requires 0 <= i < 32 => a[i] || b[i])
  }

  function Shl(a: Word, n: nat): (r: Word)
    requires n <= 32
    ensures forall i :: 0 <= i < 32 ==> r[i] == (i + n < 32 && a[i + n])
  {
    a[n..] + seq(n, _ => false)
  }

  function Shr1(a: Word): (r: Word)
    ensures !r[0] && forall i :: 0 < i < 32 ==> r[i] == a[i - 1]
  {
    [false] + a[..31]
  }

  /** Adding 1 to a word whose lowest bit is 0. */
  function AddOne(a: Word): (r: Word)
    requires !a[31]
    ensures r[31] && forall i :: 0 <= i < 31 ==> r[i] == a[i]
  {
    a[31 := true]
  }

  predicate IsZero(a: Word) {
    forall i :: 0 <= i < 32 ==> !a[i]
  }

  /** Where the i-th bit in memory order (first octet first, most significant bit first) of a
      stored word sits in the word itself. */
  function Place(o: HostOrder, i: nat): (p: nat)
    requires i < 32
    ensures p < 32
  {
    if o == BigEndian then i else (3 - i / 8) * 8 + i % 8
  }

  lemma PlaceIsInvolutive(o: HostOrder, i: nat)
    requires i < 32
    ensures Place(o, Place(o, i)) == i
  {
  }

  /** htonl, and ntohl, which is the same function. */
  function Htonl(o: HostOrder, w: Word): (r: Word)
    ensures forall i :: 0 <= i < 32 ==> r[i] == w[Place(o, i)]
  {
    seq(32, i requires 0 <= i < 32 => w[Place(o, i)])
  }

  /** Reading four octets as a word of the host. */
  function Load(o: HostOrder, bs: seq<Octet>): (w: Word)
    requires |bs| == 4
    ensures forall i :: 0 <= i < 32 ==> w[Place(o, i)] == bs[i / 8][i % 8]
  {
    var b0: seq<bool>, b1: seq<bool>, b2: seq<bool>, b3: seq<bool> := bs[0], bs[1], bs[2], bs[3];
    var w: Word := if o == BigEndian then b0 + b1 + b2 + b3 else b3 + b2 + b1 + b0;
    assert forall i :: 0 <= i < 32 ==> w[Place(o, i)] == bs[i / 8][i % 8] by {
      forall i | 0 <= i < 32 ensures w[Place(o, i)] == bs[i / 8][i % 8] {
        assert i / 8 == 0 || i / 8 == 1 || i / 8 == 2 || i / 8 == 3;
      }
    }
    w
  }

  function OctetOf(o: HostOrder, w: Word, j: nat): (b: Octet)
    requires j < 4
    ensures forall i :: 0 <= i < 8 ==> b[i] == w[Place(o, 8 * j + i)]
  {
    seq(8, i requires 0 <= i < 8 => w[Place(o, 8 * j + i)])
  }

  /** Writing a word of the host over four octets. */
  function Store(o: HostOrder, w: Word): (bs: seq<Octet>)
    ensures |bs| == 4 && forall i :: 0 <= i < 32 ==> bs[i / 8][i % 8] == w[Place(o, i)]
  {
    [OctetOf(o, w, 0), OctetOf(o, w, 1), OctetOf(o, w, 2), OctetOf(o, w, 3)]
  }
}
