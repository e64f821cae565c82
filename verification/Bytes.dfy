/**
  Byte strings as big-endian numbers, and the bitwise masks of CIDR prefixes.
 */
module Bytes {
  import opened Wrappers

  function Pow2(n: nat): (p: nat)
    ensures p >= 1
  {
    if n == 0 then 1 else 2 * Pow2(n - 1)
  }

  lemma {:induction false} Pow2Add(a: nat, b: nat)
    ensures Pow2(a + b) == Pow2(a) * Pow2(b)
    decreases a
  {
    if a > 0 {
      Pow2Add(a - 1, b);
    }
  }

  lemma Pow2Byte(n: nat)
    ensures Pow2(n + 8) == 256 * Pow2(n)
  {
    assert Pow2(n + 4) == 2 * Pow2(n + 3) == 4 * Pow2(n + 2) == 8 * Pow2(n + 1) == 16 * Pow2(n);
    assert Pow2(n + 8) == 2 * Pow2(n + 7) == 4 * Pow2(n + 6) == 8 * Pow2(n + 5) == 16 * Pow2(n + 4);
  }

  lemma Pow2Of8()
    ensures Pow2(8) == 256
  {
    Pow2Byte(0);
  }

  lemma Pow2Of32()
    ensures Pow2(32) == 0x1_0000_0000
  {
    Pow2Of8();
    Pow2Byte(8);
    Pow2Byte(16);
    Pow2Byte(24);
  }

  /** The number that `s` spells, most significant byte first. */
  function Value(s: seq<uint8>): (v: nat)
    decreases |s|
  {
    if s == [] then 0 else 256 * Value(s[..|s| - 1]) + s[|s| - 1]
  }

  lemma {:induction false} ValueBound(s: seq<uint8>)
    ensures Value(s) < Pow2(8 * |s|)
    decreases |s|
  {
    if s != [] {
      ValueBound(s[..|s| - 1]);
      Pow2Byte(8 * (|s| - 1));
    }
  }

  lemma {:induction false} ValueInjective(s: seq<uint8>, t: seq<uint8>)
    requires |s| == |t| && Value(s) == Value(t)
    ensures s == t
    decreases |s|
  {
    if s != [] {
      var s', t' := s[..|s| - 1], t[..|t| - 1];
      ValueInjective(s', t');
      assert s == s' + [s[|s| - 1]] && t == t' + [t[|t| - 1]];
    }
  }

  // ---------- Bitwise and ----------

  function And(x: nat, y: nat): (r: nat)
    ensures r <= x
    decreases x
  {
    if x == 0 then 0 else 2 * And(x / 2, y / 2) + (x % 2) * (y % 2)
  }

  lemma AndZero(x: nat)
    ensures And(x, 0) == 0
    decreases x
  {
    if x > 0 {
      AndZero(x / 2);
    }
  }

  lemma MulGap(a: int, b: int, m: int)
    requires a < b && m > 0
    ensures a * m + m <= b * m
  {
    var d := b - a - 1;
    assert b * m == a * m + m + d * m;
    assert d * m >= 0;
  }

  lemma AndOdd(x: nat, y: nat)
    ensures And(x, 2 * y + 1) == 2 * And(x / 2, y) + x % 2
  {
    assert (2 * y + 1) / 2 == y && (2 * y + 1) % 2 == 1;
  }

  lemma AndEven(x: nat, y: nat)
    ensures And(x, 2 * y) == 2 * And(x / 2, y)
  {
    assert (2 * y) / 2 == y && (2 * y) % 2 == 0;
  }

  lemma {:induction false} Pow2Monotone(a: nat, b: nat)
    requires a <= b
    ensures Pow2(a) <= Pow2(b)
    decreases b
  {
    if a < b {
      Pow2Monotone(a, b - 1);
    }
  }

  /** The `k` leading ones of `n` bits. */
  function LeadingOnes(n: nat, k: nat): nat
    requires k <= n
  {
    Pow2Monotone(n - k, n);
    Pow2(n) - Pow2(n - k)
  }

  lemma {:induction false} AndAllOnes(x: nat, n: nat)
    requires x < Pow2(n)
    ensures And(x, Pow2(n) - 1) == x
    decreases n
  {
    if n > 0 {
      AndAllOnes(x / 2, n - 1);
      AndOdd(x, Pow2(n - 1) - 1);
    }
  }

  /** `r` is `x` rounded down to a multiple of `m`. */
  ghost predicate IsFloor(r: nat, x: nat, m: nat) {
    (exists t: nat :: r == t * m) && r <= x < r + m
  }

  lemma Scale(r: nat, m: nat, c: nat)
    requires exists t: nat :: r == t * m
    ensures exists t: nat :: c * r == t * (c * m)
  {
    var t: nat :| r == t * m;
    assert c * r == t * (c * m);
  }

  /** Masking with the `k` leading ones of `n` bits clears the other bits. */
  lemma {:induction false} AndLeadingOnes(x: nat, n: nat, k: nat)
    requires k <= n && x < Pow2(n)
    ensures IsFloor(And(x, LeadingOnes(n, k)), x, Pow2(n - k))
    decreases n
  {
    if k == 0 {
      AndZero(x);
      assert 0 == 0 * Pow2(n);
    } else if k == n {
      AndAllOnes(x, n);
      assert x == x * 1;
    } else {
      AndLeadingOnes(x / 2, n - 1, k);
      AndEven(x, LeadingOnes(n - 1, k));
      Scale(And(x / 2, LeadingOnes(n - 1, k)), Pow2(n - 1 - k), 2);
    }
  }

  /** Numbers with the same floor are those within one step above it. */
  lemma SameFloor(r: nat, x: nat, r': nat, y: nat, m: nat)
    requires IsFloor(r, x, m) && IsFloor(r', y, m)
    ensures r == r' <==> r <= y < r + m
  {
    var t: nat, t': nat :| r == t * m && r' == t' * m;
    if t < t' {
      MulGap(t, t', m);
    } else if t' < t {
      MulGap(t', t, m);
    }
  }
}
