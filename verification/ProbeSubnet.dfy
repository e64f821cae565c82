/**
  ProbeSubnet: the pool of workers on the addresses of the generator.
 */
module ProbeSubnet {
  import opened Wrappers
  import opened Bytes
  import opened Subnet
  import opened SubnetHosts
  import opened SubnetProbe
  import WorkerPool

  // ---------- No addresses ----------

  lemma Pow2Twice(n: nat)
    ensures Pow2(n + 2) == 4 * Pow2(n)
  {
    assert Pow2(n + 1) == 2 * Pow2(n);
  }

  lemma MultipleOfFour(p: nat) returns (u: nat)
    requires p <= 30
    ensures Size(p) == 4 * u && u >= 1
  {
    u := Pow2(30 - p);
    Pow2Twice(30 - p);
  }

  lemma FloorOfFour(r: nat, x: nat, u: nat)
    requires IsFloor(r, x, 4 * u)
    ensures r % 4 == 0
  {
    var t: nat :| r == t * (4 * u);
    ProductOfFour(t, u);
  }

  lemma ProductOfFour(t: nat, u: nat)
    ensures t * (4 * u) == 4 * (t * u)
  {}

  lemma AfterFour(v: nat)
    requires v % 4 == 0
    ensures IsHost(v + 1)
  {}

  /** A block of four addresses or more has a host next to its first. */
  lemma SecondIsHost(base: seq<uint8>, p: nat)
    requires |base| == 4 && p <= 30
    ensures IsBlockHost(Network(base, p), Size(p), Network(base, p) + 1)
  {
    NetworkIsAligned(base, p);
    var u := MultipleOfFour(p);
    FloorOfFour(Network(base, p), Value(base), u);
    AfterFour(Network(base, p));
  }

  lemma FloorOfTwo(r: nat, x: nat)
    requires IsFloor(r, x, 2)
    ensures r % 2 == 0
  {
    var t: nat :| r == t * 2;
  }

  lemma AfterTwo(v: nat)
    requires v % 2 == 0
    ensures IsHost(v + 1) <==> v % 256 != 254
  {}

  lemma PairHasHost(base: seq<uint8>)
    requires |base| == 4
    ensures Size(31) == 2
    ensures IsBlockHost(Network(base, 31), 2, Network(base, 31) + 1) <==> Network(base, 31) % 256 != 254
  {
    assert Pow2(1) == 2;
    NetworkIsAligned(base, 31);
    FloorOfTwo(Network(base, 31), Value(base));
    AfterTwo(Network(base, 31));
  }

  lemma SomeHostIff(base: seq<uint8>, p: nat)
    requires |base| == 4 && p <= 32
    ensures (exists v: nat :: IsBlockHost(Network(base, p), Size(p), v))
            <==> !(p == 32 || (p == 31 && Network(base, p) % 256 == 254))
  {
    if p <= 30 {
      SecondIsHost(base, p);
    } else if p == 31 {
      PairHasHost(base);
      forall v: nat | IsBlockHost(Network(base, p), Size(p), v) ensures v == Network(base, 31) + 1 {}
    } else {
      assert Pow2(0) == 1;
    }
  }

  /** The prober has nothing to do, and fails, exactly for a single address and for a pair
      that ends in .254 and .255. */
  lemma NoHostsIff(base: seq<uint8>, p: nat, bound: nat)
    requires |base| == 4 && p <= 32 && bound >= 1
    ensures FirstHosts(Network(base, p), Size(p), bound) == []
            <==> p == 32 || (p == 31 && Network(base, p) % 256 == 254)
  {
    FirstHostsOfBlock(base, p, bound);
    SomeHostIff(base, p);
    var hosts := FirstHosts(Network(base, p), Size(p), bound);
    if hosts != [] {
      assert hosts[0] in hosts;
    }
  }

  // ---------- The answers ----------

  /** The addresses that the workers numbered `found` were given. */
  function Answers(hosts: seq<nat>, found: seq<nat>): seq<nat>
    requires forall i :: 0 <= i < |found| ==> found[i] < |hosts|
  {
    seq(|found|, i requires 0 <= i < |found| => hosts[found[i]])
  }

  lemma InMultiset(ws: seq<nat>, i: nat)
    requires i < |ws|
    ensures multiset(ws)[ws[i]] > 0
  {
    assert ws[i] in multiset(ws);
  }

  lemma TwiceInMultiset(ws: seq<nat>, i: nat, j: nat)
    requires i < j < |ws| && ws[i] == ws[j]
    ensures multiset(ws)[ws[i]] >= 2
  {
    assert ws == ws[..j] + ws[j..];
    InMultiset(ws[..j], i);
    InMultiset(ws[j..], 0);
  }

  /** Every worker whose dial succeeded is there once, and no other. */
  ghost predicate FoundOnce(found: seq<nat>, es: seq<WorkerPool.Event>, n: nat) {
    && (forall i :: 0 <= i < |found| ==> found[i] < n && WorkerPool.DialSucceeds(found[i]) in es)
    && (forall i, j :: 0 <= i < j < |found| ==> found[i] != found[j])
    && (forall w: nat :: w < n && WorkerPool.DialSucceeds(w) in es ==> w in found)
  }

  lemma ReturnedFoundOnce(s: WorkerPool.State, es: seq<WorkerPool.Event>, n: nat)
    requires WorkerPool.Exec(n, WorkerPool.Init(), es) == Some(s) && s.pc.Returned?
    ensures FoundOnce(s.found, es, n)
  {
    WorkerPool.FoundAreDialed(n, es, s);
    forall i | 0 <= i < |s.found| ensures s.found[i] < n && WorkerPool.DialSucceeds(s.found[i]) in es {
      InMultiset(s.found, i);
      assert multiset(es)[WorkerPool.DialSucceeds(s.found[i])] > 0;
    }
    forall i, j | 0 <= i < j < |s.found| ensures s.found[i] != s.found[j] {
      if s.found[i] == s.found[j] {
        TwiceInMultiset(s.found, i, j);
      }
    }
    forall w: nat | w < n && WorkerPool.DialSucceeds(w) in es ensures w in s.found {
      assert multiset(s.found)[w] == 1;
      assert w in multiset(s.found);
    }
  }

  /** The answers are, once each, the hosts whose number has a successful dial. */
  ghost predicate AnswersAre(answers: seq<nat>, hosts: seq<nat>, es: seq<WorkerPool.Event>) {
    && (forall i, j :: 0 <= i < j < |answers| ==> answers[i] != answers[j])
    && (forall v <- answers :: exists w: nat :: w < |hosts| && hosts[w] == v && WorkerPool.DialSucceeds(w) in es)
    && (forall w: nat :: w < |hosts| && WorkerPool.DialSucceeds(w) in es ==> hosts[w] in answers)
  }

  lemma AnswersOf(hosts: seq<nat>, found: seq<nat>, es: seq<WorkerPool.Event>)
    requires Ascending(hosts) && FoundOnce(found, es, |hosts|)
    ensures AnswersAre(Answers(hosts, found), hosts, es)
  {
    var answers := Answers(hosts, found);
    forall v | v in answers
      ensures exists w: nat :: w < |hosts| && hosts[w] == v && WorkerPool.DialSucceeds(w) in es
    {
      var i :| 0 <= i < |answers| && answers[i] == v;
      assert hosts[found[i]] == v;
    }
    forall w: nat | w < |hosts| && WorkerPool.DialSucceeds(w) in es ensures hosts[w] in answers {
      var i :| 0 <= i < |found| && found[i] == w;
      assert answers[i] == hosts[w];
    }
  }

  /** For every block and bound for which the generator does not repeat itself, and under
      every schedule of the workers: the answers are, once each, exactly those of the first
      hosts of the block whose dial succeeded.  The hosts are as many as there are and the
      bound allows, where a bound below 1 counts as 1. */
  lemma AnswersAreReachedHosts(base: seq<uint8>, p: nat, maxHosts: int, hosts: seq<nat>,
                               es: seq<WorkerPool.Event>, s: WorkerPool.State)
    requires |base| == 4 && p <= 32 && (p > 0 || maxHosts <= 254 * 0x100_0000)
    requires hosts == FirstHosts(Network(base, p), Size(p), if maxHosts < 1 then 1 else maxHosts)
    requires WorkerPool.Exec(|hosts|, WorkerPool.Init(), es) == Some(s) && s.pc.Returned?
    ensures |hosts| == Min(if maxHosts < 1 then 1 else maxHosts, HostsIn(Network(base, p), Size(p)))
    ensures FoundOnce(s.found, es, |hosts|) && AnswersAre(Answers(hosts, s.found), hosts, es)
    ensures forall v <- Answers(hosts, s.found) :: IsBlockHost(Network(base, p), Size(p), v)
  {
    FirstHostsOfBlock(base, p, if maxHosts < 1 then 1 else maxHosts);
    ReturnedFoundOnce(s, es, |hosts|);
    AnswersOf(hosts, s.found, es);
  }
}
