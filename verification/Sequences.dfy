/** Facts about concatenations and slices of any sequences. */
module Sequences {

  lemma Regroup<T>(a: seq<T>, b: seq<T>, c: seq<T>)
    ensures (a + b) + c == a + (b + c)
  {
  }

  lemma SliceOfPrefix<T>(s: seq<T>, whole: seq<T>, from: nat, to: nat)
    requires s <= whole && from <= to <= |s|
    ensures whole[from..to] == s[from..to]
  {
  }
}
