/**
  The host addresses of a block, in the order in which the prober walks through them.
 */
module SubnetHosts {
  import opened Wrappers
  import opened Subnet

  /** Addresses that end in .0 or .255 are skipped. */
  predicate IsHost(v: nat) {
    v % 256 != 0 && v % 256 != 255
  }

  /** The address after `k` increments from `lo`; that of the last address gives the first. */
  function At(lo: nat, k: nat): nat {
    if k == 0 then lo
    else
      var v := At(lo, k - 1);
      if v + 1 < SPACE then v + 1 else 0
  }

  /** The hosts met in `k` increments from `lo`. */
  function Walk(lo: nat, k: nat): seq<nat> {
    if k == 0 then [] else Walk(lo, k - 1) + if IsHost(At(lo, k)) then [At(lo, k)] else []
  }

  /** The hosts of the block of `size` addresses that starts at `lo`. */
  function AllHosts(lo: nat, size: nat): seq<nat>
    requires size >= 1
  {
    Walk(lo, size - 1)
  }

  function FirstOf(vs: seq<nat>, limit: nat): seq<nat> {
    if |vs| <= limit then vs else vs[..limit]
  }

  function FirstHosts(lo: nat, size: nat, limit: nat): seq<nat>
    requires size >= 1
  {
    FirstOf(AllHosts(lo, size), limit)
  }

  /** The number of hosts up to `x`. */
  function HostsUpTo(x: nat): nat {
    x - x / 256 - (x + 1) / 256
  }

  /** The number of hosts in the block of `size` addresses that starts at `lo`, other than its
      first. */
  function HostsIn(lo: nat, size: nat): nat
    requires size >= 1
  {
    HostsGrow(lo, lo + size - 1);
    HostsUpTo(lo + size - 1) - HostsUpTo(lo)
  }

  lemma {:induction false} HostsGrow(x: nat, y: nat)
    requires x <= y
    ensures HostsUpTo(x) <= HostsUpTo(y)
    decreases y
  {
    if x < y {
      HostsGrow(x, y - 1);
      CountStep(y - 1);
    }
  }

  /** The hosts of the whole address space. */
  const ALL_HOSTS := 254 * 0x100_0000

  /** In closed form the increments count modulo the size of the address space. */
  lemma {:induction false} AtIsMod(lo: nat, k: nat)
    requires lo < SPACE
    ensures At(lo, k) == (lo + k) % SPACE
    decreases k
  {
    if k > 0 {
      AtIsMod(lo, k - 1);
    }
  }

  lemma LastByteSurvives(x: nat)
    ensures (x % SPACE) % 256 == x % 256
  {
    assert x == SPACE * (x / SPACE) + x % SPACE;
    assert SPACE * (x / SPACE) == 256 * (0x100_0000 * (x / SPACE));
  }

  lemma CountStep(x: nat)
    ensures HostsUpTo(x + 1) == HostsUpTo(x) + if IsHost(x + 1) then 1 else 0
  {
    var q, r := x / 256, x % 256;
    assert x == 256 * q + r;
    assert (x + 1) / 256 == if r == 255 then q + 1 else q;
    assert (x + 2) / 256 == if r >= 254 then q + 1 else q;
    assert (x + 1) % 256 == if r == 255 then 0 else r + 1;
  }

  /** How many hosts a walk meets, in closed form. */
  lemma {:induction false} WalkLength(lo: nat, k: nat)
    requires lo < SPACE
    ensures |Walk(lo, k)| == HostsUpTo(lo + k) - HostsUpTo(lo)
    decreases k
  {
    if k > 0 {
      WalkLength(lo, k - 1);
      AtIsMod(lo, k);
      LastByteSurvives(lo + k);
      CountStep(lo + k - 1);
    }
  }

  /** Before it wraps around, a walk meets exactly the hosts above its start, ascending. */
  lemma {:induction false} WalkMeetsHosts(lo: nat, k: nat)
    requires lo + k < SPACE
    ensures forall v: nat :: v in Walk(lo, k) <==> lo < v <= lo + k && IsHost(v)
    ensures forall i, j :: 0 <= i < j < |Walk(lo, k)| ==> Walk(lo, k)[i] < Walk(lo, k)[j]
    decreases k
  {
    if k > 0 {
      WalkMeetsHosts(lo, k - 1);
      AtIsMod(lo, k);
      var front := Walk(lo, k - 1);
      forall i | 0 <= i < |front| ensures front[i] <= lo + k - 1 {
        assert front[i] in front;
      }
    }
  }

  /** The hosts of a block that fits the address space, and their number. */
  lemma BlockHosts(lo: nat, size: nat)
    requires 1 <= size <= SPACE - lo
    ensures forall v: nat :: v in AllHosts(lo, size) <==> lo < v < lo + size && IsHost(v)
    ensures forall i, j :: 0 <= i < j < |AllHosts(lo, size)| ==> AllHosts(lo, size)[i] < AllHosts(lo, size)[j]
    ensures |AllHosts(lo, size)| == HostsIn(lo, size)
  {
    WalkMeetsHosts(lo, size - 1);
    WalkLength(lo, size - 1);
  }

  /** A host of the block that starts at `lo`. */
  predicate IsBlockHost(lo: nat, size: nat, v: nat) {
    lo < v < lo + size && IsHost(v)
  }

  ghost predicate Ascending(vs: seq<nat>) {
    forall i, j :: 0 <= i < j < |vs| ==> vs[i] < vs[j]
  }

  lemma LeftOutIsGreater(all: seq<nat>, first: seq<nat>, limit: nat, v: nat)
    requires Ascending(all) && first == FirstOf(all, limit)
    requires v in all && v !in first
    ensures |first| == limit && forall u <- first :: u < v
  {
    var k :| 0 <= k < |all| && all[k] == v;
    assert forall i :: 0 <= i < |first| ==> first[i] == all[i];
  }

  /** Nothing but hosts of the block, and those left out are above the others. */
  ghost predicate FirstHostsAre(first: seq<nat>, lo: nat, size: nat, limit: nat) {
    && Ascending(first) && (forall v <- first :: IsBlockHost(lo, size, v))
    && (forall v: nat :: IsBlockHost(lo, size, v) && v !in first ==> |first| == limit && forall u <- first :: u < v)
  }

  lemma FirstOfHosts(all: seq<nat>, first: seq<nat>, lo: nat, size: nat, limit: nat)
    requires Ascending(all) && first == FirstOf(all, limit)
    requires forall v: nat :: v in all <==> IsBlockHost(lo, size, v)
    ensures |first| == Min(limit, |all|) && FirstHostsAre(first, lo, size, limit)
  {
    forall v: nat | IsBlockHost(lo, size, v) && v !in first
      ensures |first| == limit && forall u <- first :: u < v
    {
      LeftOutIsGreater(all, first, limit, v);
    }
  }

  /** The first hosts of a CIDR block, up to a bound: as many as there are and the bound
      allows, all of them hosts of the block, ascending, and none left out before the last. */
  lemma FirstHostsOfBlock(base: seq<uint8>, p: nat, limit: nat)
    requires |base| == 4 && p <= 32
    ensures |FirstHosts(Network(base, p), Size(p), limit)| == Min(limit, HostsIn(Network(base, p), Size(p)))
    ensures FirstHostsAre(FirstHosts(Network(base, p), Size(p), limit), Network(base, p), Size(p), limit)
  {
    BlockEnds(base, p);
    FirstHostsOfInterval(Network(base, p), Size(p), limit);
  }

  lemma BlockEnds(base: seq<uint8>, p: nat)
    requires |base| == 4 && p <= 32
    ensures Size(p) <= SPACE - Network(base, p)
  {
    BlockFits(base, p);
  }

  lemma FirstHostsOfInterval(lo: nat, size: nat, limit: nat)
    requires 1 <= size <= SPACE - lo
    ensures |FirstHosts(lo, size, limit)| == Min(limit, HostsIn(lo, size))
    ensures FirstHostsAre(FirstHosts(lo, size, limit), lo, size, limit)
  {
    BlockHosts(lo, size);
    FirstOfHosts(AllHosts(lo, size), FirstHosts(lo, size, limit), lo, size, limit);
  }

  lemma {:induction false} WalkIsPrefix(lo: nat, k: nat, k': nat)
    requires k <= k'
    ensures Walk(lo, k) <= Walk(lo, k')
    decreases k'
  {
    if k < k' {
      WalkIsPrefix(lo, k, k' - 1);
    }
  }

  /** A walk that has met `limit` hosts, or that has covered the block, has met the first
      hosts of the block. */
  lemma WalkIsFirstHosts(lo: nat, size: nat, limit: nat, k: nat)
    requires size >= 1 && |Walk(lo, k)| <= limit
    requires k == size - 1 || |Walk(lo, k)| == limit <= |AllHosts(lo, size)|
    ensures Walk(lo, k) == FirstHosts(lo, size, limit)
  {
    if k <= size - 1 {
      WalkIsPrefix(lo, k, size - 1);
    } else {
      WalkIsPrefix(lo, size - 1, k);
    }
  }

  lemma WholeSpace()
    ensures |AllHosts(0, SPACE)| == ALL_HOSTS
  {
    WalkLength(0, SPACE - 1);
  }

  lemma WalkFromOne()
    ensures Walk(0, 1) == [1]
  {
    assert Walk(0, 0) == [];
  }

  /** The step after the last brings the first host again. */
  lemma WalkPastEnd(k: nat)
    requires k == SPACE
    ensures |Walk(0, k)| == ALL_HOSTS && Walk(0, k + 1) == Walk(0, k) + [1]
  {
    WalkLength(0, k);
    AtPastEnd(k);
    WalkGrows(0, k, 1);
  }

  lemma AtPastEnd(k: nat)
    requires k == SPACE
    ensures At(0, k + 1) == 1
  {
    AtIsMod(0, k + 1);
  }

  lemma WalkGrows(lo: nat, k: nat, v: nat)
    requires At(lo, k + 1) == v && IsHost(v)
    ensures Walk(lo, k + 1) == Walk(lo, k) + [v]
  {}

  /** A walk past the end of the address space meets the first hosts again. */
  lemma WalkWrapsAround(k: nat)
    requires |Walk(0, k)| > ALL_HOSTS
    ensures Walk(0, k)[0] == 1 == Walk(0, k)[ALL_HOSTS]
  {
    WalkFromOne();
    WalkPastEnd(SPACE);
    if k < SPACE + 1 {
      WalkIsPrefix(0, k, SPACE);
    } else {
      WalkIsPrefix(0, 1, k);
      WalkIsPrefix(0, SPACE + 1, k);
    }
  }
}
