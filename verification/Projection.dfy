/**
  The tracker keeps the systems apart: what it shows of one system does not depend on the
  events of the others.
 */
module Projection {
  import opened Wrappers
  import opened Metrics

  predicate Concerns(e: Event, system: uint8) {
    (e.FrameArrives? && e.frame.system == system) || (e.HeartbeatArrives? && e.key.system == system)
  }

  /** The events of one system, with their times. */
  function Project(es: seq<Event>, system: uint8): seq<Event> {
    if es == [] then []
    else Project(es[..|es| - 1], system) + if Concerns(es[|es| - 1], system) then [es[|es| - 1]] else []
  }

  /** Two trackers agree on a system: the same sources, with the same statistics, and the
      same state of its link. */
  ghost predicate Agree(a: Statistics, b: Statistics, system: uint8) {
    && Link(a, system) == Link(b, system)
    && forall c: uint8 :: var k := EndpointKey(system, c);
         Get(a.sources, k, NewSource(0)) == Get(b.sources, k, NewSource(0)) && (k in a.sources <==> k in b.sources)
  }

  lemma ConcernedKeepsAgreement(a: Statistics, b: Statistics, e: Event, system: uint8)
    requires Agree(a, b, system) && Concerns(e, system)
    ensures Agree(Apply(a, e), Apply(b, e), system)
  {
    var key := if e.FrameArrives? then e.frame.Key() else e.key;
    assert key == EndpointKey(system, key.component);
    assert SourceOf(a, key, e.at) == SourceOf(b, key, e.at);
  }

  lemma OtherKeepsAgreement(a: Statistics, b: Statistics, e: Event, system: uint8)
    requires Agree(a, b, system) && !Concerns(e, system)
    ensures Agree(Apply(a, e), b, system)
  {}

  /** For every interleaving of many systems, the drops, loss, jitter, rates and heartbeat
      statistics of one system are those of a tracker that saw that system alone, at the
      same times. */
  lemma {:induction false} SystemsAreIndependent(es: seq<Event>, system: uint8)
    ensures Agree(Run(es), Run(Project(es, system)), system)
    decreases |es|
  {
    if es != [] {
      var front, e := es[..|es| - 1], es[|es| - 1];
      var alone := Project(front, system);
      SystemsAreIndependent(front, system);
      if Concerns(e, system) {
        ConcernedKeepsAgreement(Run(front), Run(alone), e, system);
        assert (alone + [e])[..|alone|] == alone;
      } else {
        OtherKeepsAgreement(Run(front), Run(alone), e, system);
        assert alone + [] == alone;
      }
    }
  }
}
