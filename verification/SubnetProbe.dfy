/**
  The address generator of the subnet prober, on byte arrays.
 */
module SubnetProbe {
  import opened Wrappers
  import opened Bytes
  import opened Subnet
  import opened SubnetHosts

  // ---------- inc ----------

  /** The next address, as a byte string. */
  function Next(s: seq<uint8>): (t: seq<uint8>)
    ensures |t| == |s|
    decreases |s|
  {
    if s == [] then []
    else
      var front, last := s[..|s| - 1], s[|s| - 1];
      if last < 255 then front + [last + 1] else Next(front) + [0]
  }

  /** The carry goes as far as it must, and out of the first byte if it gets there. */
  lemma {:induction false} NextIsSuccessor(s: seq<uint8>)
    ensures Value(Next(s)) == if Value(s) + 1 < Pow2(8 * |s|) then Value(s) + 1 else 0
    decreases |s|
  {
    if s != [] {
      var front, last := s[..|s| - 1], s[|s| - 1];
      NextIsSuccessor(front);
      ValueBound(front);
      Pow2Byte(8 * |front|);
      if last < 255 {
        assert Next(s)[..|front|] == front;
      } else {
        assert Next(s)[..|front|] == Next(front);
      }
    }
  }

  lemma NextCarries(a: seq<uint8>, n: nat)
    requires |a| > n && forall i :: |a| - n <= i < |a| ==> a[i] == 255
    ensures Next(a) == Next(a[..|a| - n]) + seq(n, i => 0)
    decreases n
  {
    if n == 0 {
      assert a[..|a|] == a;
    } else {
      var front := a[..|a| - 1];
      NextCarries(front, n - 1);
      assert front[..|front| - (n - 1)] == a[..|a| - n];
      assert seq(n, i => 0) == seq(n - 1, i => 0) + [0];
    }
  }

  /** inc, in place. */
  method Inc(ip: array<uint8>)
    modifies ip
    ensures ip[..] == Next(old(ip[..]))
  {
    var j := ip.Length - 1;
    while j >= 0
      invariant -1 <= j < ip.Length
      invariant forall i :: 0 <= i <= j ==> ip[i] == old(ip[i])
      invariant forall i :: j < i < ip.Length ==> ip[i] == 0 && old(ip[i]) == 255
    {
      ip[j] := (ip[j] as int + 1) % 256;
      if ip[j] > 0 {
        break;
      }
      j := j - 1;
    }
    ghost var was := old(ip[..]);
    if j >= 0 {
      NextCarries(was, |was| - 1 - j);
      assert ip[..] == Next(was);
    } else if |was| > 0 {
      NextCarries(was, |was| - 1);
      assert ip[..] == Next(was);
    }
  }

  // ---------- generateIPs ----------

  /** At least one address is appended before the bound is looked at. */
  function Limit(maxHosts: int): (limit: nat)
    ensures limit >= 1
  {
    if maxHosts < 1 then 1 else maxHosts
  }

  /** What the walk stands for when the loop ends. */
  ghost predicate Outcome(p: nat, lo: nat, limit: nat, addresses: seq<nat>)
    requires p <= 32
  {
    if p > 0 || limit <= ALL_HOSTS then addresses == FirstHosts(lo, Size(p), limit)
    else |addresses| == limit && addresses[0] == addresses[ALL_HOSTS]
  }

  lemma WalkOutcome(base: seq<uint8>, p: nat, limit: nat, k: nat)
    requires |base| == 4 && p <= 32 && limit >= 1
    requires var n := |Walk(Network(base, p), k)|; n <= limit && (n == limit || (p > 0 && k == Size(p) - 1))
    requires p > 0 ==> k < Size(p)
    ensures Outcome(p, Network(base, p), limit, Walk(Network(base, p), k))
  {
    var lo := Network(base, p);
    BlockFits(base, p);
    if p > 0 {
      WalkIsPrefix(lo, k, Size(p) - 1);
      WalkIsFirstHosts(lo, Size(p), limit, k);
    } else {
      WholeSpace();
      if limit <= ALL_HOSTS {
        WalkIsFirstHosts(lo, SPACE, limit, k);
      } else {
        WalkWrapsAround(k);
      }
    }
  }

  lemma LastByte(s: seq<uint8>)
    requires s != []
    ensures Value(s) % 256 == s[|s| - 1]
  {}

  /** One increment moves the walk on by one. */
  lemma NextMovesWalk(s: seq<uint8>, lo: nat, k: nat)
    requires |s| == 4 && Value(s) == At(lo, k)
    ensures Value(Next(s)) == At(lo, k + 1)
  {
    NextIsSuccessor(s);
    ValueBound(s);
    Pow2Of32();
  }

  /** The mask test holds of the `size` addresses from `lo`. */
  ghost predicate IsBlock(base: seq<uint8>, p: nat, lo: nat, size: nat) {
    |base| == 4 &&
    forall ip: seq<uint8> {:trigger SameUnderMask(base, ip, p)} ::
      |ip| == 4 ==> (SameUnderMask(base, ip, p) <==> lo <= Value(ip) < lo + size)
  }

  lemma NetworkIsBlock(base: seq<uint8>, p: nat)
    requires |base| == 4 && p <= 32
    ensures IsBlock(base, p, Network(base, p), Size(p))
  {
    forall ip: seq<uint8> | |ip| == 4
      ensures SameUnderMask(base, ip, p) <==> Network(base, p) <= Value(ip) < Network(base, p) + Size(p)
    {
      ContainmentIsInterval(base, ip, p);
    }
  }

  /** The increment leaves a block exactly after its last address, and never leaves the
      block of all addresses. */
  lemma LeavesAtEnd(lo: nat, size: nat, k: nat)
    requires 1 <= size <= SPACE - lo && (size == SPACE || k < size)
    ensures lo <= At(lo, k + 1) < lo + size <==> size == SPACE || k + 1 < size
  {
    AtIsMod(lo, k + 1);
  }

  /** net.IPNet.Contains. */
  method Contains(base: seq<uint8>, p: nat, ip: array<uint8>, ghost lo: nat, ghost size: nat) returns (inside: bool)
    requires ip.Length == 4 && IsBlock(base, p, lo, size)
    ensures inside == (lo <= Value(ip[..]) < lo + size)
  {
    ghost var same := SameUnderMask(base, ip[..], p);
    for i := 0 to ip.Length
      invariant forall j :: 0 <= j < i ==> And(base[j], MaskByte(p, j)) == And(ip[..][j], MaskByte(p, j))
    {
      if And(base[i], MaskByte(p, i)) != And(ip[i], MaskByte(p, i)) {
        return false;
      }
    }
    return true;
  }

  /** The arrays hold the addresses `vs`. */
  ghost predicate Hold(ips: seq<array<uint8>>, vs: seq<nat>)
    reads ips
  {
    |ips| == |vs| && forall i :: 0 <= i < |ips| ==> Value(ips[i][..]) == vs[i]
  }

  /** The lists built so far are copies, none of which is another or the walking address. */
  ghost predicate Copies(ips: seq<array<uint8>>, ip: array<uint8>) {
    && ip !in ips
    && (forall i, j :: 0 <= i < j < |ips| ==> ips[i] != ips[j])
  }

  method Copy(ip: array<uint8>) returns (dup: array<uint8>)
    ensures fresh(dup) && dup[..] == ip[..]
  {
    dup := new uint8[ip.Length](i requires 0 <= i < ip.Length reads ip => ip[i]);
  }

  method NetworkArray(base: seq<uint8>, p: nat) returns (ip: array<uint8>)
    ensures fresh(ip) && ip[..] == ApplyMask(base, p)
  {
    var masked := ApplyMask(base, p);
    ip := new uint8[|masked|](i requires 0 <= i < |masked| => masked[i]);
  }

  /** The last byte of the next address. */
  lemma NextLastByte(s: seq<uint8>)
    requires s != []
    ensures Next(s)[|s| - 1] == if s[|s| - 1] == 255 then 0 else s[|s| - 1] + 1
  {}

  /** One increment of the walking address. */
  method Advance(ip: array<uint8>, ghost lo: nat, ghost k: nat)
    requires ip.Length == 4 && Value(ip[..]) == At(lo, k)
    modifies ip
    ensures Value(ip[..]) == At(lo, k + 1)
    ensures ip[3] == if old(ip[3]) == 255 then 0 else old(ip[3]) + 1
  {
    NextMovesWalk(ip[..], lo, k);
    NextLastByte(ip[..]);
    Inc(ip);
    assert ip[3] == ip[..][3];
  }

  /** The walk meets a host when the last byte is neither 0 nor 255. */
  lemma WalkMeets(lo: nat, k: nat, s: seq<uint8>)
    requires |s| == 4 && Value(s) == At(lo, k + 1)
    ensures Walk(lo, k + 1) == Walk(lo, k) + if s[3] == 0 || s[3] == 255 then [] else [Value(s)]
  {
    LastByte(s);
  }

  /** Nothing is added to the list, or one new array. */
  twostate predicate Extends(ips: seq<array<uint8>>, new longer: seq<array<uint8>>) {
    && |ips| <= |longer| <= |ips| + 1 && longer[..|ips|] == ips
    && (|longer| > |ips| ==> fresh(longer[|ips|]) && longer[|ips|].Length == 4)
  }

  method AppendCopy(ips: seq<array<uint8>>, ip: array<uint8>, ghost vs: seq<nat>) returns (longer: seq<array<uint8>>)
    requires ip.Length == 4 && Copies(ips, ip) && Hold(ips, vs)
    ensures |longer| == |ips| + 1 && Extends(ips, longer)
    ensures Copies(longer, ip) && Hold(longer, vs + [Value(ip[..])])
  {
    var dup := Copy(ip);
    longer := ips + [dup];
  }

  /** How far the last byte is from leaving the addresses that are skipped. */
  ghost function Rank(last: uint8): nat {
    if last == 254 then 2 else if last == 255 then 1 else 0
  }

  lemma RankDrops(last: uint8, next: uint8)
    requires next == (if last == 255 then 0 else last + 1) && (next == 0 || next == 255)
    ensures Rank(next) < Rank(last)
  {}

  /** The walking address moves on, and is copied if it is a host inside the block. */
  method MoveOn(base: seq<uint8>, p: nat, ghost lo: nat, ghost size: nat, ghost k: nat, ip: array<uint8>,
                ghost ips: seq<array<uint8>>)
    returns (inside: bool)
    requires ip !in ips && Hold(ips, Walk(lo, k))
    requires ip.Length == 4 && IsBlock(base, p, lo, size) && 1 <= size <= SPACE - lo
    requires size == SPACE || k < size
    requires Value(ip[..]) == At(lo, k)
    modifies ip
    ensures Hold(ips, Walk(lo, k))
    ensures Value(ip[..]) == At(lo, k + 1) && (inside <==> size == SPACE || k + 1 < size)
    ensures ip[3] == if old(ip[3]) == 255 then 0 else old(ip[3]) + 1
  {
    LeavesAtEnd(lo, size, k);
    Advance(ip, lo, k);
    inside := Contains(base, p, ip, lo, size);
  }

  /** The rest of the loop body, for an address inside the block. */
  method Collect(ips: seq<array<uint8>>, ip: array<uint8>, maxHosts: int, ghost lo: nat, ghost k: nat)
    returns (goOn: bool, longer: seq<array<uint8>>)
    requires ip.Length == 4 && Value(ip[..]) == At(lo, k + 1)
    requires Copies(ips, ip) && Hold(ips, Walk(lo, k)) && |ips| < Limit(maxHosts)
    ensures Copies(longer, ip) && Hold(longer, Walk(lo, k + 1))
    ensures Extends(ips, longer)
    ensures |longer| <= Limit(maxHosts) && (goOn <==> |longer| < Limit(maxHosts))
    ensures |longer| == |ips| ==> ip[3] == 0 || ip[3] == 255
  {
    WalkMeets(lo, k, ip[..]);
    assert ip[3] == ip[..][3];
    if ip[ip.Length - 1] == 0 || ip[ip.Length - 1] == 255 {
      return true, ips;
    }
    longer := AppendCopy(ips, ip, Walk(lo, k));
    goOn := |longer| < maxHosts;
  }

  /** Where the walk has stopped. */
  predicate Stopped(limit: nat, size: nat, k: nat, count: nat) {
    count == limit || (size < SPACE && k == size - 1 && count <= limit)
  }

  /** The body of the loop of generateIPs. */
  method TakeTurn(base: seq<uint8>, p: nat, maxHosts: int, ip: array<uint8>, ips: seq<array<uint8>>,
                  ghost lo: nat, ghost size: nat, ghost k: nat)
    returns (goOn: bool, longer: seq<array<uint8>>, ghost steps: nat)
    requires ip.Length == 4 && IsBlock(base, p, lo, size) && 1 <= size <= SPACE - lo
    requires (size == SPACE || k < size) && Value(ip[..]) == At(lo, k)
    requires Copies(ips, ip) && Hold(ips, Walk(lo, k)) && |ips| < Limit(maxHosts)
    modifies ip
    ensures (size == SPACE || steps < size) && Hold(longer, Walk(lo, steps))
    ensures Copies(longer, ip) && Extends(ips, longer)
    ensures if goOn then Value(ip[..]) == At(lo, steps) && |longer| < Limit(maxHosts)
            else Stopped(Limit(maxHosts), size, steps, |longer|)
    ensures goOn && |ips| == |longer| ==> Rank(ip[3]) < Rank(old(ip[3]))
  {
    ghost var last := ip[3];
    goOn := MoveOn(base, p, lo, size, k, ip, ips);
    if !goOn {
      return false, ips, k;
    }
    goOn, longer := Collect(ips, ip, maxHosts, lo, k);
    steps := k + 1;
    if |longer| == |ips| {
      RankDrops(last, ip[3]);
    }
  }

  /** The loop of generateIPs, from the first address of the block. */
  method WalkBlock(base: seq<uint8>, p: nat, maxHosts: int, ip: array<uint8>, ghost lo: nat, ghost size: nat)
    returns (ips: seq<array<uint8>>, ghost k: nat)
    requires ip.Length == 4 && IsBlock(base, p, lo, size) && 1 <= size <= SPACE - lo
    requires Value(ip[..]) == At(lo, 0)
    modifies ip
    ensures forall a <- ips :: fresh(a) && a.Length == 4
    ensures forall i, j :: 0 <= i < j < |ips| ==> ips[i] != ips[j]
    ensures Hold(ips, Walk(lo, k)) && |ips| <= Limit(maxHosts)
    ensures |ips| == Limit(maxHosts) || (size < SPACE && k == size - 1)
    ensures size == SPACE || k < size
  {
    ips, k := [], 0;
    var inside := Contains(base, p, ip, lo, size);
    while inside
      invariant Copies(ips, ip) && (size == SPACE || k < size) && Hold(ips, Walk(lo, k))
      invariant forall a <- ips :: fresh(a) && a.Length == 4
      invariant inside ==> Value(ip[..]) == At(lo, k) && |ips| < Limit(maxHosts)
      invariant !inside ==> Stopped(Limit(maxHosts), size, k, |ips|)
      decreases inside, Limit(maxHosts) - |ips|, Rank(ip[3])
    {
      inside, ips, k := TakeTurn(base, p, maxHosts, ip, ips, lo, size, k);
    }
  }

  /** generateIPs for the block of `base` with a prefix of `p` bits.  The result holds
      copies of the walking address: the first hosts of the block, as many as there are and
      the bound allows, where a bound below 1 counts as 1.  Only in the block of all
      addresses can the bound exceed the hosts there are, and then the walk wraps around and
      repeats them. */
  method GenerateIPs(base: seq<uint8>, p: nat, maxHosts: int) returns (ips: seq<array<uint8>>, ghost k: nat)
    requires |base| == 4 && p <= 32
    ensures forall a <- ips :: fresh(a) && a.Length == 4
    ensures forall i, j :: 0 <= i < j < |ips| ==> ips[i] != ips[j]
    ensures Hold(ips, Walk(Network(base, p), k))
    ensures p > 0 || maxHosts <= 254 * 0x100_0000 ==>
              && Hold(ips, FirstHosts(Network(base, p), Size(p), if maxHosts < 1 then 1 else maxHosts))
              && |ips| == Min(if maxHosts < 1 then 1 else maxHosts, HostsIn(Network(base, p), Size(p)))
    ensures p == 0 && maxHosts > 254 * 0x100_0000 ==>
              |ips| == maxHosts && Value(ips[0][..]) == Value(ips[254 * 0x100_0000][..])
  {
    BlockFits(base, p);
    NetworkIsBlock(base, p);
    var ip := NetworkArray(base, p);
    ips, k := WalkBlock(base, p, maxHosts, ip, Network(base, p), Size(p));
    WalkOutcome(base, p, Limit(maxHosts), k);
    FirstHostsOfBlock(base, p, if maxHosts < 1 then 1 else maxHosts);
  }
}
