/**
  CIDR blocks (RFC 4632, section 3.1): the byte-wise masks of net.IPNet against intervals of
  addresses.
 */
module Subnet {
  import opened Wrappers
  import opened Bytes

  function Clamp(k: int): nat {
    if k < 0 then 0 else if k > 8 then 8 else k
  }

  /** Byte `i` of the mask for a prefix of `p` bits. */
  function MaskByte(p: nat, i: nat): nat {
    LeadingOnes(8, Clamp(p - 8 * i))
  }

  /** net.IP.Mask. */
  function ApplyMask(xs: seq<uint8>, p: nat): (ys: seq<uint8>)
    ensures |ys| == |xs|
  {
    seq(|xs|, i requires 0 <= i < |xs| => And(xs[i], MaskByte(p, i)))
  }

  /** net.IPNet.Contains: both addresses agree under the mask, byte by byte. */
  predicate SameUnderMask(xs: seq<uint8>, ys: seq<uint8>, p: nat) {
    |xs| == |ys| && forall i :: 0 <= i < |xs| ==> And(xs[i], MaskByte(p, i)) == And(ys[i], MaskByte(p, i))
  }

  lemma MaskPastPrefix(xs: seq<uint8>, p: nat)
    requires |xs| > 0 && p <= 8 * (|xs| - 1)
    ensures Value(ApplyMask(xs, p)) == 256 * Value(ApplyMask(xs[..|xs| - 1], p))
  {
    var n, ys := |xs| - 1, ApplyMask(xs, p);
    assert MaskByte(p, n) == 0;
    AndZero(xs[n]);
    assert ys[..n] == ApplyMask(xs[..n], p);
  }

  lemma MaskWithinByte(xs: seq<uint8>, p: nat)
    requires |xs| > 0 && 8 * (|xs| - 1) < p <= 8 * |xs|
    ensures var n := |xs| - 1;
            Value(ApplyMask(xs, p)) == 256 * Value(xs[..n]) + And(xs[n], MaskByte(p, n))
  {
    var n, ys := |xs| - 1, ApplyMask(xs, p);
    forall i | 0 <= i < n ensures ys[i] == xs[i] {
      assert MaskByte(p, i) == Pow2(8) - 1;
      Pow2Of8();
      AndAllOnes(xs[i], 8);
    }
    assert ys[..n] == xs[..n];
  }

  lemma FloorWithinByte(v: nat, x: uint8, r: nat, k: nat)
    requires k <= 8 && IsFloor(r, x, Pow2(8 - k))
    ensures IsFloor(256 * v + r, 256 * v + x, Pow2(8 - k))
  {
    var m := Pow2(8 - k);
    var t: nat :| r == t * m;
    Pow2Of8();
    Pow2Add(k, 8 - k);
    assert 256 * v + r == (v * Pow2(k) + t) * m;
  }

  /** Masking an address rounds it down to a multiple of the size of its block. */
  lemma {:induction false} MaskIsFloor(xs: seq<uint8>, p: nat)
    requires p <= 8 * |xs|
    ensures IsFloor(Value(ApplyMask(xs, p)), Value(xs), Pow2(8 * |xs| - p))
    decreases |xs|
  {
    if |xs| == 0 {
      assert 0 == 0 * Pow2(0);
    } else {
      var n := |xs| - 1;
      if p <= 8 * n {
        MaskIsFloor(xs[..n], p);
        MaskPastPrefix(xs, p);
        Pow2Byte(8 * n - p);
        Scale(Value(ApplyMask(xs[..n], p)), Pow2(8 * n - p), 256);
      } else {
        Pow2Of8();
        AndLeadingOnes(xs[n], 8, p - 8 * n);
        MaskWithinByte(xs, p);
        FloorWithinByte(Value(xs[..n]), xs[n], And(xs[n], MaskByte(p, n)), p - 8 * n);
      }
    }
  }

  lemma SameUnderMaskIsSameNetwork(xs: seq<uint8>, ys: seq<uint8>, p: nat)
    requires |xs| == |ys|
    ensures SameUnderMask(xs, ys, p) <==> Value(ApplyMask(xs, p)) == Value(ApplyMask(ys, p))
  {
    var a, b := ApplyMask(xs, p), ApplyMask(ys, p);
    assert forall i :: 0 <= i < |xs| ==>
        a[i] == And(xs[i], MaskByte(p, i)) && b[i] == And(ys[i], MaskByte(p, i));
    if Value(a) == Value(b) {
      ValueInjective(a, b);
    }
    assert SameUnderMask(xs, ys, p) ==> a == b;
  }

  const SPACE := 0x1_0000_0000

  /** The number of addresses in an IPv4 block. */
  function Size(p: nat): (size: nat)
    requires p <= 32
    ensures 1 <= size <= SPACE
  {
    Pow2Of32();
    Pow2Monotone(32 - p, 32);
    Pow2(32 - p)
  }

  /** The first address of a block. */
  function Network(base: seq<uint8>, p: nat): nat {
    Value(ApplyMask(base, p))
  }

  lemma SameNetworkIsInterval(base: seq<uint8>, ip: seq<uint8>, p: nat, m: nat)
    requires |base| == |ip| && p <= 8 * |base| && m == Pow2(8 * |base| - p)
    ensures Network(base, p) == Network(ip, p) <==> Network(base, p) <= Value(ip) < Network(base, p) + m
  {
    MaskIsFloor(base, p);
    MaskIsFloor(ip, p);
    SameFloor(Network(base, p), Value(base), Network(ip, p), Value(ip), m);
  }

  /** The byte-wise test holds of the addresses of an interval. */
  lemma ContainmentIsInterval(base: seq<uint8>, ip: seq<uint8>, p: nat)
    requires |base| == |ip| == 4 && p <= 32
    ensures SameUnderMask(base, ip, p) <==> Network(base, p) <= Value(ip) < Network(base, p) + Size(p)
  {
    SameNetworkIsInterval(base, ip, p, Size(p));
    SameUnderMaskIsSameNetwork(base, ip, p);
  }

  /** The interval starts at a multiple of its size and holds the address it came from. */
  lemma NetworkIsAligned(base: seq<uint8>, p: nat)
    requires |base| == 4 && p <= 32
    ensures IsFloor(Network(base, p), Value(base), Size(p))
  {
    MaskIsFloor(base, p);
  }

  lemma FloorFits(r: nat, x: nat, m: nat, c: nat)
    requires IsFloor(r, x, m) && x < c * m
    ensures r + m <= c * m
  {
    var t: nat :| r == t * m;
    if t >= c {
      MulGap(c - 1, t, m);
    } else {
      MulGap(t, c, m);
    }
  }

  /** A block does not reach beyond the last address. */
  lemma BlockFits(base: seq<uint8>, p: nat)
    requires |base| == 4 && p <= 32
    ensures Network(base, p) + Size(p) <= SPACE
    ensures p == 0 ==> Network(base, p) == 0 && Size(p) == SPACE
    ensures p > 0 ==> Size(p) < SPACE
  {
    Pow2Of32();
    ValueBound(base);
    MaskIsFloor(base, p);
    Pow2Add(p, 32 - p);
    FloorFits(Network(base, p), Value(base), Pow2(32 - p), Pow2(p));
    if p > 0 {
      assert SPACE == 2 * Pow2(31);
      Pow2Monotone(32 - p, 31);
    }
  }
}
