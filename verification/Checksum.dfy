/** The Internet checksum (section 1 of RFC 1071), as the DPDK helpers that the header
    constructors call compute it and as a receiver checks it. */
module Checksum {
  import opened Arithmetic
  import opened Bytes
  import opened Constants

  /** Sum of the 16-bit big-endian words, an odd last byte padded with zero. */
  function WordSum(bs: seq<byte>): (n: nat)
  {
    if |bs| == 0 then 0
    else if |bs| == 1 then (bs[0] as int) * 256
    else (bs[0] as int) * 256 + (bs[1] as int) + WordSum(bs[2..])
  }

  /** An odd number of bytes is summed as if a zero byte followed. */
  lemma {:induction false} PaddedWithZero(bs: seq<byte>)
    requires |bs| % 2 == 1
    ensures WordSum(bs) == WordSum(bs + [0])
  {
    if |bs| == 1 {
      assert (bs + [0])[2..] == [];
    } else {
      assert (bs + [0])[2..] == bs[2..] + [0];
      PaddedWithZero(bs[2..]);
    }
  }

  /** End-around carries folded back in until 16 bits remain. */
  function Fold(n: nat): (f: nat)
    ensures f < TWO_16
  {
    if n < TWO_16 then n else Fold(n / TWO_16 + n % TWO_16)
  }

  /** A receiver accepts when the sum over everything, checksum included, folds to all ones. */
  predicate Accepted(sum: nat) {
    Fold(sum) == 0xFFFF
  }

  /** The checksum of data that sums to `sum` with its checksum field zero. */
  function ChecksumOf(sum: nat): (c: nat)
    ensures c < TWO_16
  {
    0xFFFF - Fold(sum)
  }

  /** Folding computes the sum modulo 65535, with all ones standing for a non-zero multiple. */
  lemma {:induction false} FoldIsResidue(n: nat)
    ensures Fold(n) % 0xFFFF == n % 0xFFFF
    ensures Fold(n) == 0 <==> n == 0
  {
    if n >= TWO_16 {
      var m := n / TWO_16 + n % TWO_16;
      FoldIsResidue(m);
      var q := n / TWO_16;
      assert n == 0xFFFF * q + m;
      var k, r := m / 0xFFFF, m % 0xFFFF;
      assert m == 0xFFFF * k + r;
      assert n == 0xFFFF * (q + k) + r;
      DivModUnique(n, 0xFFFF, q + k, r);
    }
  }

  lemma AcceptedIff(sum: nat)
    ensures Accepted(sum) <==> sum > 0 && sum % 0xFFFF == 0
  {
    FoldIsResidue(sum);
  }

  /** The sum over data that folded to all ones, with a zero checksum or all ones in its place. */
  lemma AcceptedAsIs(sum: nat, c: nat)
    requires Accepted(sum) && (c == 0 || c == 0xFFFF)
    ensures Accepted(sum + c)
  {
    AcceptedIff(sum);
    var q := sum / 0xFFFF;
    DivModUnique(sum + c, 0xFFFF, if c == 0 then q else q + 1, 0);
    AcceptedIff(sum + c);
  }

  /** The complement of a sum that folded to less than all ones completes it. */
  lemma AcceptedComplement(sum: nat)
    requires sum > 0 && !Accepted(sum)
    ensures Accepted(sum + ChecksumOf(sum))
  {
    FoldIsResidue(sum);
    var q, f := sum / 0xFFFF, Fold(sum);
    assert f % 0xFFFF == f;
    assert sum + ChecksumOf(sum) == 0xFFFF * (q + 1);
    DivModUnique(sum + ChecksumOf(sum), 0xFFFF, q + 1, 0);
    AcceptedIff(sum + ChecksumOf(sum));
  }

  /** Adding the checksum of a sum makes the receiver accept, also when a zero checksum has been
      replaced by all ones, unless there was nothing to sum. */
  lemma ChecksumIsAccepted(sum: nat, c: nat)
    requires sum > 0
    requires c == ChecksumOf(sum) || (ChecksumOf(sum) == 0 && c == 0xFFFF)
    ensures Accepted(sum + c)
  {
    if Accepted(sum) {
      AcceptedAsIs(sum, c);
    } else {
      AcceptedComplement(sum);
    }
  }

  /** The example of section 3 of RFC 1071. */
  lemma Rfc1071Example(bs: seq<byte>)
    requires bs == [0x00, 0x01, 0xf2, 0x03, 0xf4, 0xf5, 0xf6, 0xf7]
    ensures WordSum(bs) == 0x2ddf0 && Fold(0x2ddf0) == 0xddf2
  {
    assert bs[2..] == [0xf2, 0x03, 0xf4, 0xf5, 0xf6, 0xf7];
    assert bs[2..][2..] == [0xf4, 0xf5, 0xf6, 0xf7];
    assert bs[2..][2..][2..] == [0xf6, 0xf7];
    assert bs[2..][2..][2..][2..] == [];
    assert WordSum(bs[2..][2..][2..]) == 0xf6f7;
    assert WordSum(bs[2..][2..]) == 0x1_ebec;
    assert WordSum(bs[2..]) == 0x2_ddef;
    assert 0x2ddf0 / TWO_16 + 0x2ddf0 % TWO_16 == 0xddf2;
  }

  lemma {:induction false} WordSumConcat(a: seq<byte>, b: seq<byte>)
    requires |a| % 2 == 0
    ensures WordSum(a + b) == WordSum(a) + WordSum(b)
    decreases |a|
  {
    if a == [] {
      assert a + b == b;
    } else {
      assert (a + b)[2..] == a[2..] + b;
      WordSumConcat(a[2..], b);
    }
  }

  lemma SumAround(front: seq<byte>, word: seq<byte>, back: seq<byte>)
    requires |front| % 2 == 0 && |word| == 2
    ensures WordSum(front + word + back) == WordSum(front) + WordSum(word) + WordSum(back)
  {
    WordSumConcat(front, word);
    WordSumConcat(front + word, back);
  }

  lemma SwapWord(front: seq<byte>, back: seq<byte>, c: nat, d: nat)
    requires |front| % 2 == 0 && c < TWO_16 && d < TWO_16
    ensures WordSum(front + Be16(d) + back) - d == WordSum(front + Be16(c) + back) - c
  {
    SumAround(front, Be16(c), back);
    SumAround(front, Be16(d), back);
    WordOf(c);
    WordOf(d);
  }

  lemma AroundWord(seg: seq<byte>, off: nat, word: seq<byte>, stored: seq<byte>)
    requires |word| == |stored| == 2 && off + 2 <= |seg| && seg[off..off + 2] == word
    ensures seg == seg[..off] + word + seg[off + 2..]
    ensures Stored(seg, off, stored) == seg[..off] + stored + seg[off + 2..]
  {
  }

  /** Filling in a zero checksum field adds the checksum to the sum. */
  lemma FillChecksum(seg: seq<byte>, off: nat, c: nat)
    requires off % 2 == 0 && off + 2 <= |seg| && c < TWO_16 && seg[off..off + 2] == Be16(0)
    ensures WordSum(Stored(seg, off, Be16(c))) == WordSum(seg) + c
  {
    AroundWord(seg, off, Be16(0), Be16(c));
    SwapWord(seg[..off], seg[off + 2..], 0, c);
  }

  lemma WordOf(c: nat)
    requires c < TWO_16
    ensures WordSum(Be16(c)) == c
  {
    assert Be16(c)[2..] == [];
  }
}
