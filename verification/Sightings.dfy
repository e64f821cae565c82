/**
  When the tracker saw a source.
 */
module Sightings {
  import opened Metrics

  /** The event that made the source known, and then the arrivals of its frames. */
  function Marks(es: seq<Event>, key: EndpointKey): seq<Time> {
    if es == [] then [] else MarksAfter(Marks(es[..|es| - 1], key), es[|es| - 1], key)
  }

  function MarksAfter(marks: seq<Time>, e: Event, key: EndpointKey): seq<Time> {
    if IsFrameOf(e, key) then marks + [e.at]
    else if e.HeartbeatArrives? && e.key == key && marks == [] then [e.at]
    else marks
  }

  ghost predicate Matches(m: Statistics, marks: seq<Time>, key: EndpointKey) {
    && (key in m.sources <==> marks != [])
    && (key in m.sources ==>
        && m.sources[key].firstSeen == marks[0]
        && m.sources[key].lastSeen == m.sources[key].lastArrivalTime == marks[|marks| - 1])
  }

  lemma EventKeepsMatch(m: Statistics, marks: seq<Time>, e: Event, key: EndpointKey)
    requires Matches(m, marks, key)
    ensures Matches(Apply(m, e), MarksAfter(marks, e, key), key)
  {}

  lemma {:induction false} MarksMatch(es: seq<Event>, key: EndpointKey)
    ensures Matches(Run(es), Marks(es, key), key)
    decreases |es|
  {
    if es != [] {
      MarksMatch(es[..|es| - 1], key);
      EventKeepsMatch(Run(es[..|es| - 1]), Marks(es[..|es| - 1], key), es[|es| - 1], key);
    }
  }

  /** A source was first seen at its first mark, and last seen at its last. */
  lemma {:induction false} SeenFromFirstToLast(es: seq<Event>, key: EndpointKey)
    ensures var marks := Marks(es, key);
            && (key in Run(es).sources <==> marks != [])
            && (marks != [] ==>
                && Run(es).sources[key].firstSeen == marks[0]
                && Run(es).sources[key].lastSeen == Run(es).sources[key].lastArrivalTime == marks[|marks| - 1])
  {
    MarksMatch(es, key);
  }
}
