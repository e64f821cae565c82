/**
  Every counter of the tracker against the events it counts.
 */
module Occurrences {
  import opened Metrics

  function FramesWith(es: seq<Event>, p: Event -> bool): nat {
    if es == [] then 0
    else FramesWith(es[..|es| - 1], p) + if es[|es| - 1].FrameArrives? && p(es[|es| - 1]) then 1 else 0
  }

  function BytesWith(es: seq<Event>, p: Event -> bool): nat {
    if es == [] then 0
    else BytesWith(es[..|es| - 1], p) + if es[|es| - 1].FrameArrives? && p(es[|es| - 1]) then es[|es| - 1].bytes else 0
  }

  function ParseErrors(es: seq<Event>): nat {
    if es == [] then 0 else ParseErrors(es[..|es| - 1]) + if es[|es| - 1].ParseErrorArrives? then 1 else 0
  }

  predicate HasVersion(version: string, e: Event) {
    e.FrameArrives? && e.version == version
  }

  predicate HasMessage(message: string, e: Event) {
    e.FrameArrives? && e.frame.message == message
  }

  /** In every run the frames counted for a version are those that have it. */
  lemma {:induction false} VersionsAreCounted(es: seq<Event>, version: string)
    ensures Get(Run(es).versionCounts, version, 0) == FramesWith(es, e => HasVersion(version, e))
    decreases |es|
  {
    if es != [] {
      VersionsAreCounted(es[..|es| - 1], version);
    }
  }

  /** The same for messages. */
  lemma {:induction false} MessagesAreCounted(es: seq<Event>, message: string)
    ensures Get(Run(es).messageCounts, message, 0) == FramesWith(es, e => HasMessage(message, e))
    decreases |es|
  {
    if es != [] {
      MessagesAreCounted(es[..|es| - 1], message);
    }
  }

  lemma EventCountsForSource(m: Statistics, e: Event, key: EndpointKey)
    ensures var s, t := Get(m.sources, key, NewSource(0)), Get(Apply(m, e).sources, key, NewSource(0));
            && t.totalFrames == s.totalFrames + (if IsFrameOf(e, key) then 1 else 0)
            && t.totalBytes == s.totalBytes + (if IsFrameOf(e, key) then e.bytes else 0)
  {}

  /** In every run the frames and bytes counted for a source are those of its frames. */
  lemma {:induction false} SourcesAreCounted(es: seq<Event>, key: EndpointKey)
    ensures Get(Run(es).sources, key, NewSource(0)).totalFrames == FramesWith(es, e => IsFrameOf(e, key))
    ensures Get(Run(es).sources, key, NewSource(0)).totalBytes == BytesWith(es, e => IsFrameOf(e, key))
    decreases |es|
  {
    if es != [] {
      SourcesAreCounted(es[..|es| - 1], key);
      EventCountsForSource(Run(es[..|es| - 1]), es[|es| - 1], key);
    }
  }

  lemma {:induction false} ParseErrorsAreCounted(es: seq<Event>)
    ensures Run(es).totalParseErrors == ParseErrors(es)
    decreases |es|
  {
    if es != [] {
      ParseErrorsAreCounted(es[..|es| - 1]);
    }
  }
}
