/** Small shared types. */
module Wrappers {

  datatype Option<+T> = None | Some(value: T)

  function Min(a: nat, b: nat): (least: nat)
    ensures least <= a && least <= b && (least == a || least == b)
  {
    if a <= b then a else b
  }

  /** An 8-bit unsigned quantity, as Go's `byte` and `uint8`. */
  type uint8 = x: int | 0 <= x < 256

  // ---------- Sequences ----------

  lemma Assoc<T>(a: seq<T>, b: seq<T>, c: seq<T>)
    ensures a + b + c == a + (b + c)
  {}

  lemma SliceOfPrefix<T>(s: seq<T>, n: nat, i: nat, j: nat)
    requires i <= j <= n <= |s|
    ensures s[..n][i..j] == s[i..j]
  {}

  lemma NothingBefore<T>(s: seq<T>)
    ensures [] + s == s
  {}

  lemma HeadAndTail<T>(before: seq<T>, s: seq<T>)
    requires s != []
    ensures before + [s[0]] + s[1..] == before + s
  {}
}
