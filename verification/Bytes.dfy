/** Bytes, fixed-width integers stored in them, and writing a run of bytes into a buffer. */
module Bytes {
  import opened Arithmetic
  import opened Constants

  type byte = x: int | 0 <= x < 256

  // --- little-endian fields

  function Le16(n: nat): (bs: seq<byte>)
    ensures |bs| == 2
  {
    [n % 256, n / 256 % 256]
  }

  function Le32(n: nat): (bs: seq<byte>)
    ensures |bs| == 4
  {
    Le16(n % TWO_16) + Le16(n / TWO_16)
  }

  function Le64(n: nat): (bs: seq<byte>)
    ensures |bs| == 8
  {
    Le32(n % TWO_32) + Le32(n / TWO_32)
  }

  function ReadLe16(mem: seq<byte>, off: nat): (n: nat)
    requires off + 2 <= |mem|
    ensures n < TWO_16
  {
    (mem[off] as int) + 256 * (mem[off + 1] as int)
  }

  function ReadLe32(mem: seq<byte>, off: nat): (n: nat)
    requires off + 4 <= |mem|
    ensures n < TWO_32
  {
    ReadLe16(mem, off) + TWO_16 * ReadLe16(mem, off + 2)
  }

  // --- network-order fields

  function Be16(n: nat): (bs: seq<byte>)
    ensures |bs| == 2
  {
    [n / 256 % 256, n % 256]
  }

  function Be32(n: nat): (bs: seq<byte>)
    ensures |bs| == 4
  {
    Be16(n / TWO_16) + Be16(n % TWO_16)
  }

  function ReadBe16(mem: seq<byte>, off: nat): (n: nat)
    requires off + 2 <= |mem|
    ensures n < TWO_16
  {
    (mem[off] as int) * 256 + (mem[off + 1] as int)
  }

  /** Reading back a stored field gives the value modulo its width. */
  lemma ReadBack16(mem: seq<byte>, off: nat, n: nat)
    requires off + 2 <= |mem| && mem[off..off + 2] == Le16(n)
    ensures ReadLe16(mem, off) == n % TWO_16
  {
    assert mem[off] == Le16(n)[0] && mem[off + 1] == Le16(n)[1];
  }

  lemma TwoHalves(n: nat)
    ensures n % TWO_16 + TWO_16 * (n / TWO_16 % TWO_16) == n % TWO_32
  {
    var q, lo := n / TWO_16, n % TWO_16;
    DivModUnique(n, TWO_32, q / TWO_16, lo + TWO_16 * (q % TWO_16));
  }

  lemma ReadBack32(mem: seq<byte>, off: nat, n: nat)
    requires off + 4 <= |mem| && mem[off..off + 4] == Le32(n)
    ensures ReadLe32(mem, off) == n % TWO_32
  {
    assert mem[off..off + 2] == Le32(n)[..2] == Le16(n % TWO_16);
    assert mem[off + 2..off + 4] == Le32(n)[2..] == Le16(n / TWO_16);
    ReadBack16(mem, off, n % TWO_16);
    ReadBack16(mem, off + 2, n / TWO_16);
    TwoHalves(n);
  }

  /** Reading inside a slice is reading at the shifted offset. */
  lemma ReadShift16(mem: seq<byte>, a: nat, b: nat, off: nat)
    requires a <= b <= |mem| && off + 2 <= b - a
    ensures ReadLe16(mem[a..b], off) == ReadLe16(mem, a + off)
  {
  }

  lemma SubSlice(s: seq<byte>, a: nat, b: nat, i: nat, j: nat)
    requires a <= b <= |s| && i <= j <= b - a
    ensures s[a..b][i..j] == s[a + i..a + j]
  {
    var l, r := s[a..b][i..j], s[a + i..a + j];
    assert |l| == |r| && forall k :: 0 <= k < |l| ==> l[k] == r[k];
  }

  /** memcpy of `bs` to offset `off` of a buffer. */
  method WriteBytes(a: array<byte>, off: nat, bs: seq<byte>)
    requires off + |bs| <= a.Length
    modifies a
    ensures a[..] == Stored(old(a[..]), off, bs)
  {
    var i := 0;
    while i < |bs|
      invariant 0 <= i <= |bs|
      invariant a[..] == Stored(old(a[..]), off, bs[..i])
    {
      a[off + i] := bs[i];
      i := i + 1;
    }
    assert bs[..i] == bs;
  }

  /** `s` with the bytes from `off` on replaced by `bs`. */
  function Stored(s: seq<byte>, off: nat, bs: seq<byte>): (t: seq<byte>)
    requires off + |bs| <= |s|
    ensures |t| == |s|
    ensures forall k :: 0 <= k < |s| ==> t[k] == if off <= k < off + |bs| then bs[k - off] else s[k]
  {
    s[..off] + bs + s[off + |bs|..]
  }
}
