/** The xorshift64* generator (app/xorshift64star.h), on the 64 bits of its state, most
    significant first. */
module Xorshift {
  import opened Constants

  type State = w: seq<bool> | |w| == 64 witness seq(64, _ => false)

  const MULTIPLIER := 0x2545F4914F6CDD1D
  const INVERSE := 0x59071D96D81ECD35      // of the multiplier, modulo 2^64

  /** x ^ (x >> n). */
  function XorShr(x: State, n: nat): (r: State)
    ensures forall i :: 0 <= i < 64 ==> r[i] == (x[i] != (i >= n && x[i - n]))
  {
    seq(64, i requires 0 <= i < 64 => x[i] != (i >= n && x[i - n]))
  }

  /** x ^ (x << n). */
  function XorShl(x: State, n: nat): (r: State)
    ensures forall i :: 0 <= i < 64 ==> r[i] == (x[i] != (i + n < 64 && x[i + n]))
  {
    seq(64, i requires 0 <= i < 64 => x[i] != (i + n < 64 && x[i + n]))
  }

  function Value(bits: seq<bool>): (v: nat)
  {
    if bits == [] then 0 else 2 * Value(bits[..|bits| - 1]) + if bits[|bits| - 1] then 1 else 0
  }

  function NextState(x: State): State {
    XorShr(XorShl(XorShr(x, 12), 25), 27)
  }

  function Output(state: State): nat {
    Value(state) * MULTIPLIER % TWO_64
  }

  /** The generator's word of state. */
  class Generator {
    var state: State

    method Next() returns (r: nat)
      modifies this
      ensures state == NextState(old(state)) && r == Output(state)
    {
      var x := state;
      x := XorShr(x, 12);
      x := XorShl(x, 25);
      x := XorShr(x, 27);
      state := x;
      r := Value(x) * MULTIPLIER % TWO_64;
    }
  }

  // --- each xor-shift can be undone

  lemma ShrTwice(x: State, n: nat)
    ensures XorShr(XorShr(x, n), n) == XorShr(x, 2 * n)
  {
  }

  lemma ShlTwice(x: State, n: nat)
    ensures XorShl(XorShl(x, n), n) == XorShl(x, 2 * n)
  {
  }

  lemma ShrCommute(x: State, m: nat, n: nat)
    ensures XorShr(XorShr(x, m), n) == XorShr(XorShr(x, n), m)
  {
  }

  lemma ShlCommute(x: State, m: nat, n: nat)
    ensures XorShl(XorShl(x, m), n) == XorShl(XorShl(x, n), m)
  {
  }

  lemma ShiftedOut(x: State, n: nat)
    requires n >= 64
    ensures XorShr(x, n) == x && XorShl(x, n) == x
  {
  }

  function Undo12(y: State): State { XorShr(XorShr(XorShr(y, 12), 24), 48) }
  function Undo25(y: State): State { XorShl(XorShl(y, 25), 50) }
  function Undo27(y: State): State { XorShr(XorShr(y, 27), 54) }

  lemma Undoes12(x: State)
    ensures Undo12(XorShr(x, 12)) == x && XorShr(Undo12(x), 12) == x
  {
    ShrTwice(x, 12);
    ShrTwice(x, 24);
    ShrTwice(x, 48);
    ShiftedOut(x, 96);
    ShrCommute(XorShr(XorShr(x, 12), 24), 48, 12);
    ShrCommute(XorShr(x, 12), 24, 12);
  }

  lemma Undoes25(x: State)
    ensures Undo25(XorShl(x, 25)) == x && XorShl(Undo25(x), 25) == x
  {
    ShlTwice(x, 25);
    ShlTwice(x, 50);
    ShiftedOut(x, 100);
    ShlCommute(XorShl(x, 25), 50, 25);
  }

  lemma Undoes27(x: State)
    ensures Undo27(XorShr(x, 27)) == x && XorShr(Undo27(x), 27) == x
  {
    ShrTwice(x, 27);
    ShrTwice(x, 54);
    ShiftedOut(x, 108);
    ShrCommute(XorShr(x, 27), 54, 27);
  }

  /** The state that is followed by y. */
  function PreviousState(y: State): State {
    Undo12(Undo25(Undo27(y)))
  }

  /** The state update is a bijection on 64-bit words. */
  lemma UpdateIsBijection(x: State)
    ensures PreviousState(NextState(x)) == x && NextState(PreviousState(x)) == x
  {
    Undoes12(x);
    Undoes25(XorShr(x, 12));
    Undoes27(XorShl(XorShr(x, 12), 25));
    Undoes27(x);
    Undoes25(Undo27(x));
    Undoes12(Undo25(Undo27(x)));
  }

  // --- the output determines the state

  function Pow2(n: nat): (p: nat)
    ensures p > 0
  {
    if n == 0 then 1 else 2 * Pow2(n - 1)
  }

  lemma {:induction false} ValueBound(bits: seq<bool>)
    ensures Value(bits) < Pow2(|bits|)
  {
    if bits != [] {
      ValueBound(bits[..|bits| - 1]);
    }
  }

  lemma {:induction false} ValueIsInjective(a: seq<bool>, b: seq<bool>)
    requires |a| == |b| && Value(a) == Value(b)
    ensures a == b
  {
    if a != [] {
      var n := |a| - 1;
      ValueIsInjective(a[..n], b[..n]);
      assert a == a[..n] + [a[n]] && b == b[..n] + [b[n]];
    }
  }

  lemma Pow64()
    ensures Pow2(64) == TWO_64
  {
    assert Pow2(4) == 16;
    PowAdd(4, 4);
    PowAdd(8, 8);
    PowAdd(16, 16);
    PowAdd(32, 32);
  }

  lemma {:induction false} PowAdd(m: nat, n: nat)
    ensures Pow2(m + n) == Pow2(m) * Pow2(n)
    decreases n
  {
    if n > 0 {
      PowAdd(m, n - 1);
    }
  }

  /** Multiplying an output by the inverse of the multiplier gives the state back. */
  lemma OutputDeterminesState(s: State)
    ensures Output(s) * INVERSE % TWO_64 == Value(s)
  {
    ValueBound(s);
    Pow64();
    var v := Value(s);
    var q := v * MULTIPLIER / TWO_64;
    var k := (MULTIPLIER * INVERSE - 1) / TWO_64;
    assert MULTIPLIER * INVERSE == k * TWO_64 + 1;
    assert v * MULTIPLIER == q * TWO_64 + Output(s);
    var turns := v * k - q * INVERSE;
    assert Output(s) * INVERSE == turns * TWO_64 + v;
    Residue(Output(s) * INVERSE, turns, v);
  }

  lemma Residue(n: nat, turns: int, r: nat)
    requires n == turns * TWO_64 + r && r < TWO_64
    ensures n % TWO_64 == r
  {
  }

  // --- runs

  function Iterate<T>(f: T -> T, x: T, n: nat): T {
    if n == 0 then x else f(Iterate(f, x, n - 1))
  }

  /** The state after n calls. */
  function StateAfter(seed: State, n: nat): State {
    Iterate(NextState, seed, n)
  }

  ghost predicate Injective<T(!new)>(f: T -> T) {
    forall x, y :: x != y ==> f(x) != f(y)
  }

  lemma {:induction false} IterateIsInjective<T(!new)>(f: T -> T, a: T, b: T, n: nat)
    requires Injective(f) && a != b
    ensures Iterate(f, a, n) != Iterate(f, b, n)
  {
    if n > 0 {
      IterateIsInjective(f, a, b, n - 1);
    }
  }

  lemma {:induction false} IterateFixed<T>(f: T -> T, x: T, n: nat)
    requires f(x) == x
    ensures Iterate(f, x, n) == x
  {
    if n > 0 {
      IterateFixed(f, x, n - 1);
    }
  }

  lemma UpdateIsInjective()
    ensures Injective(NextState)
  {
    forall x: State, y: State | x != y
      ensures NextState(x) != NextState(y)
    {
      UpdateIsBijection(x);
      UpdateIsBijection(y);
    }
  }

  lemma OutputsDiffer(x: State, y: State)
    requires x != y
    ensures Output(x) != Output(y)
  {
    OutputDeterminesState(x);
    OutputDeterminesState(y);
    if Value(x) == Value(y) {
      ValueIsInjective(x, y);
    }
  }

  const ZERO_STATE: State := seq(64, _ => false)

  lemma ZeroIsFixed()
    ensures NextState(ZERO_STATE) == ZERO_STATE
  {
  }

  /** Over every run: distinct seeds give distinct states and distinct 64-bit outputs at every
      step. */
  lemma RunsNeverCollide(a: State, b: State, n: nat)
    requires a != b
    ensures StateAfter(a, n) != StateAfter(b, n)
    ensures Output(StateAfter(a, n)) != Output(StateAfter(b, n))
  {
    UpdateIsInjective();
    IterateIsInjective(NextState, a, b, n);
    OutputsDiffer(StateAfter(a, n), StateAfter(b, n));
  }

  /** A run reaches the all-zero state only when it was seeded with it. */
  lemma ZeroOnlyFromZero(seed: State, n: nat)
    ensures StateAfter(seed, n) == ZERO_STATE <==> seed == ZERO_STATE
  {
    ZeroIsFixed();
    IterateFixed(NextState, ZERO_STATE, n);
    if seed != ZERO_STATE {
      RunsNeverCollide(seed, ZERO_STATE, n);
    }
  }

  // --- known values

  lemma {:induction false} ValueOfZeros(bits: seq<bool>)
    requires forall i :: 0 <= i < |bits| ==> !bits[i]
    ensures Value(bits) == 0
  {
    if bits != [] {
      ValueOfZeros(bits[..|bits| - 1]);
    }
  }

  function Power(n: nat): nat {
    if n == 0 then 1 else 2 * Power(n - 1)
  }

  lemma {:induction false} ValueThenZeros(bits: seq<bool>, n: nat)
    requires n <= |bits| && forall i :: n <= i < |bits| ==> !bits[i]
    ensures Value(bits) == Value(bits[..n]) * Power(|bits| - n)
    decreases |bits|
  {
    if n < |bits| {
      var front := bits[..|bits| - 1];
      ValueThenZeros(front, n);
      assert front[..n] == bits[..n];
      assert Power(|bits| - n) == 2 * Power(|front| - n);
    } else {
      assert bits[..n] == bits;
    }
  }

  lemma PowerOf25()
    ensures Power(25) == 0x200_0000
  {
    assert Power(5) == 32;
    assert Power(10) == 1024;
    assert Power(15) == 0x8000;
    assert Power(20) == 0x10_0000;
  }

  /** Only bits 38 and 63 are set, of weight 2^25 and 1. */
  lemma ValueOfTwoBits(x: State)
    requires forall i :: 0 <= i < 64 ==> x[i] == (i == 38 || i == 63)
    ensures Value(x) == 0x200_0001
  {
    var bits: seq<bool> := x;
    var top, one := bits[..63], bits[..63][..39];
    ValueThenZeros(top, 39);
    ValueOfZeros(one[..38]);
    assert one[38];
    assert Value(one) == 1;
    PowerOf25();
    assert Power(24) * 2 == Power(25);
  }

  /** From the seed 1 the state is 0x2000001 and the first output 0x47E4CE4B896CDD1D. */
  lemma FirstOfSeedOne(seed: State)
    requires forall i :: 0 <= i < 64 ==> seed[i] == (i == 63)
    ensures Value(NextState(seed)) == 0x200_0001
    ensures Output(NextState(seed)) == 0x47E4_CE4B_896C_DD1D
  {
    ValueOfTwoBits(NextState(seed));
    assert 0x200_0001 * MULTIPLIER % TWO_64 == 0x47E4_CE4B_896C_DD1D;
  }

  /** The highest bit alone comes back at each of the two right shifts. */
  lemma NextOfHighestBit(seed: State)
    requires forall i :: 0 <= i < 64 ==> seed[i] == (i == 0)
    ensures forall i :: 0 <= i < 64 ==> NextState(seed)[i] == (i == 0 || i == 12 || i == 27 || i == 39)
  {
    var x := XorShr(seed, 12);
    assert forall i :: 0 <= i < 64 ==> x[i] == (i == 0 || i == 12);
    assert XorShl(x, 25) == x;
  }
}
