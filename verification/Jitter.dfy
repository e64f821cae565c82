/**
  The jitter of a source is a weighted average of the changes of its intervals, and stays
  within the longest of them.
 */
module Jitter {
  import opened Wrappers
  import opened Metrics

  function Weight(n: nat): real {
    if n == 0 then 1.0 else 0.8 * Weight(n - 1)
  }

  /** A fifth of every change, less the older it is. */
  function Recent(ds: seq<real>): real {
    if ds == [] then 0.0 else 0.2 * Weight(|ds| - 1) * ds[0] + Recent(ds[1..])
  }

  /** The first change that is not zero has full weight. */
  function Average(ds: seq<real>): real {
    if ds == [] then 0.0
    else if ds[0] == 0.0 then Average(ds[1..])
    else Weight(|ds| - 1) * ds[0] + Recent(ds[1..])
  }

  ghost predicate NonNegative(ds: seq<real>) {
    forall i :: 0 <= i < |ds| ==> 0.0 <= ds[i]
  }

  ghost predicate NoChange(ds: seq<real>) {
    forall i :: 0 <= i < |ds| ==> ds[i] == 0.0
  }

  lemma {:induction false} WeightPositive(n: nat)
    ensures Weight(n) > 0.0
  {
    if n > 0 {
      WeightPositive(n - 1);
    }
  }

  lemma Product(a: real, b: real)
    requires a > 0.0 && b >= 0.0
    ensures a * b >= 0.0 && (a * b == 0.0 <==> b == 0.0)
  {}

  lemma {:induction false} RecentNonNegative(ds: seq<real>)
    requires NonNegative(ds)
    ensures Recent(ds) >= 0.0
    decreases |ds|
  {
    if ds != [] {
      WeightPositive(|ds| - 1);
      Product(0.2 * Weight(|ds| - 1), ds[0]);
      RecentNonNegative(ds[1..]);
    }
  }

  /** The average is zero only while there has been no change: only then is it restarted. */
  lemma {:induction false} ZeroIffNoChange(ds: seq<real>)
    requires NonNegative(ds)
    ensures Average(ds) >= 0.0
    ensures Average(ds) == 0.0 <==> NoChange(ds)
    decreases |ds|
  {
    if ds != [] {
      if ds[0] == 0.0 {
        ZeroIffNoChange(ds[1..]);
        assert NoChange(ds[1..]) <==> NoChange(ds) by {
          assert forall i :: 0 < i < |ds| ==> ds[i] == ds[1..][i - 1];
        }
      } else {
        WeightPositive(|ds| - 1);
        Product(Weight(|ds| - 1), ds[0]);
        RecentNonNegative(ds[1..]);
      }
    }
  }

  lemma Fade(w: real, d: real, rest: real, last: real)
    ensures 0.8 * (w * d + rest) + last == (0.8 * w) * d + (0.8 * rest + last)
  {}

  lemma {:induction false} RecentSnoc(ds: seq<real>, d: real)
    ensures Recent(ds + [d]) == 0.8 * Recent(ds) + 0.2 * d
    decreases |ds|
  {
    if ds == [] {
      assert ([] + [d])[1..] == [];
    } else {
      RecentSnoc(ds[1..], d);
      assert (ds + [d])[1..] == ds[1..] + [d];
      Fade(0.2 * Weight(|ds| - 1), ds[0], Recent(ds[1..]), 0.2 * d);
    }
  }

  /** One more change moves the average as the tracker does. */
  lemma {:induction false} AverageSnoc(ds: seq<real>, d: real)
    requires NonNegative(ds)
    ensures Average(ds + [d]) == if Average(ds) == 0.0 then d else 0.8 * Average(ds) + 0.2 * d
    decreases |ds|
  {
    if ds == [] {
      assert ([] + [d])[1..] == [];
    } else {
      assert (ds + [d])[1..] == ds[1..] + [d];
      if ds[0] == 0.0 {
        AverageSnoc(ds[1..], d);
      } else {
        ZeroIffNoChange(ds);
        RecentSnoc(ds[1..], d);
        Fade(Weight(|ds| - 1), ds[0], Recent(ds[1..]), 0.2 * d);
      }
    }
  }

  // ---------- Runs ----------

  /** The intervals before the frames of a source: those of frames on a link that has been
      seen, from the arrival before, or from when the source became known. */
  datatype Arrivals = Arrivals(known: bool, last: Time, intervals: seq<int>, linked: bool)

  function ArrivalsAfter(a: Arrivals, e: Event, key: EndpointKey): Arrivals {
    if IsFrameOf(e, key) then
      Arrivals(true, e.at, if a.linked then a.intervals + [if a.known then e.at - a.last else 0] else a.intervals, true)
    else if e.FrameArrives? && e.frame.system == key.system then a.(linked := true)
    else if e.HeartbeatArrives? && e.key == key && !a.known then a.(known := true, last := e.at)
    else a
  }

  function ArrivalsOf(es: seq<Event>, key: EndpointKey): Arrivals {
    if es == [] then Arrivals(false, 0, [], false)
    else ArrivalsAfter(ArrivalsOf(es[..|es| - 1], key), es[|es| - 1], key)
  }

  /** The distance of two intervals, in milliseconds. */
  function Change(from: int, to: int): real {
    (if from <= to then to - from else from - to) as real / 1_000_000.0
  }

  lemma ChangeIsAbs(from: int, to: int)
    ensures Abs((to - from) as real / MILLISECOND as real) == Change(from, to)
  {}

  /** The changes, in milliseconds, from every interval that is not zero to the next. */
  function Changes(intervals: seq<int>): seq<real> {
    if |intervals| < 2 then []
    else
      var n := |intervals|;
      var front := Changes(intervals[..n - 1]);
      if intervals[n - 2] > 0 then front + [Change(intervals[n - 2], intervals[n - 1])]
      else front
  }

  lemma {:induction false} ChangesNonNegative(intervals: seq<int>)
    ensures NonNegative(Changes(intervals))
    decreases |intervals|
  {
    if |intervals| >= 2 {
      ChangesNonNegative(intervals[..|intervals| - 1]);
    }
  }

  ghost predicate Averaged(s: Source, intervals: seq<int>) {
    && s.jitterMs == Average(Changes(intervals))
    && s.lastInterval == if intervals == [] then 0 else intervals[|intervals| - 1]
  }

  ghost predicate Matches(m: Statistics, a: Arrivals, key: EndpointKey) {
    && (a.known <==> key in m.sources) && (a.linked <==> Link(m, key.system).Some?)
    && (!a.known ==> a.intervals == [])
    && (a.known ==> m.sources[key].lastArrivalTime == a.last && Averaged(m.sources[key], a.intervals))
  }

  lemma IntervalMovesAverage(s: Source, intervals: seq<int>, interval: int)
    requires Averaged(s, intervals)
    ensures NextJitter(s.jitterMs, s.lastInterval, interval) == Average(Changes(intervals + [interval]))
  {
    assert (intervals + [interval])[..|intervals|] == intervals;
    ChangesNonNegative(intervals);
    if intervals != [] && s.lastInterval > 0 {
      ChangeIsAbs(s.lastInterval, interval);
      AverageSnoc(Changes(intervals), Change(s.lastInterval, interval));
    }
  }

  lemma FrameKeepsAverage(s: Source, link: Option<uint8>, sequence: uint8, bytes: nat, now: Time, intervals: seq<int>)
    requires Averaged(s, intervals)
    ensures var intervals' := if link.Some? then intervals + [now - s.lastArrivalTime] else intervals;
            Averaged(SourceAfterFrame(s, link, sequence, bytes, now), intervals')
  {
    IntervalMovesAverage(s, intervals, now - s.lastArrivalTime);
  }

  lemma EventKeepsMatch(m: Statistics, a: Arrivals, e: Event, key: EndpointKey)
    requires Matches(m, a, key)
    ensures Matches(Apply(m, e), ArrivalsAfter(a, e, key), key)
  {
    if IsFrameOf(e, key) {
      FrameKeepsAverage(SourceOf(m, key, e.at), Link(m, key.system), e.frame.sequence, e.bytes, e.at, a.intervals);
    }
  }

  lemma {:induction false} ArrivalsMatch(es: seq<Event>, key: EndpointKey)
    ensures Matches(Run(es), ArrivalsOf(es, key), key)
    decreases |es|
  {
    if es != [] {
      ArrivalsMatch(es[..|es| - 1], key);
      EventKeepsMatch(Run(es[..|es| - 1]), ArrivalsOf(es[..|es| - 1], key), es[|es| - 1], key);
    }
  }

  /** In every run the jitter of a source is the weighted average of the changes of its
      intervals, and zero only while there was none. */
  lemma JitterIsAverage(es: seq<Event>, key: EndpointKey)
    requires key in Run(es).sources
    ensures var changes := Changes(ArrivalsOf(es, key).intervals);
            && Run(es).sources[key].jitterMs == Average(changes)
            && (Run(es).sources[key].jitterMs == 0.0 <==> NoChange(changes))
  {
    ArrivalsMatch(es, key);
    ChangesNonNegative(ArrivalsOf(es, key).intervals);
    ZeroIffNoChange(Changes(ArrivalsOf(es, key).intervals));
  }

  // ---------- The bound ----------

  /** The longest of the intervals, 0 if there is none. */
  function Longest(intervals: seq<int>): int {
    if intervals == [] then 0
    else
      var last, before := intervals[|intervals| - 1], Longest(intervals[..|intervals| - 1]);
      if last > before then last else before
  }

  ghost predicate Forward(intervals: seq<int>) {
    forall i :: 0 <= i < |intervals| ==> 0 <= intervals[i]
  }

  lemma {:induction false} LongestBounds(intervals: seq<int>, i: nat)
    requires i < |intervals|
    ensures intervals[i] <= Longest(intervals)
    decreases |intervals|
  {
    if i < |intervals| - 1 {
      LongestBounds(intervals[..|intervals| - 1], i);
    }
  }

  /** The change between two intervals is not longer than the longer of them, and the mean of
      two values below a bound is below it. */
  lemma MeanIsBounded(average: real, from: int, to: int, longest: int)
    requires 0 <= from <= longest && 0 <= to <= longest && average * MILLISECOND as real <= longest as real
    ensures var d := Change(from, to);
            d * MILLISECOND as real <= longest as real
            && (0.8 * average + 0.2 * d) * MILLISECOND as real <= longest as real
  {
    var distance := if from <= to then to - from else from - to;
    assert Change(from, to) * 1_000_000.0 == distance as real;
  }

  lemma {:induction false} AverageIsBounded(intervals: seq<int>)
    requires Forward(intervals)
    ensures Average(Changes(intervals)) * MILLISECOND as real <= Longest(intervals) as real
    decreases |intervals|
  {
    if |intervals| >= 2 {
      var n := |intervals| - 1;
      var front := intervals[..n];
      AverageIsBounded(front);
      LongestBounds(intervals, n);
      LongestBounds(intervals, n - 1);
      MeanIsBounded(Average(Changes(front)), intervals[n - 1], intervals[n], Longest(intervals));
      ChangesNonNegative(front);
      if intervals[n - 1] > 0 {
        AverageSnoc(Changes(front), Change(intervals[n - 1], intervals[n]));
      }
    }
  }

  lemma {:induction false} IntervalsGoForward(es: seq<Event>, key: EndpointKey)
    requires Monotone(es)
    ensures Forward(ArrivalsOf(es, key).intervals)
    ensures ArrivalsOf(es, key).known ==> es != [] && ArrivalsOf(es, key).last <= es[|es| - 1].at
    decreases |es|
  {
    if es != [] {
      var front := es[..|es| - 1];
      IntervalsGoForward(front, key);
      if front != [] {
        assert front[|front| - 1].at == es[|es| - 2].at <= es[|es| - 1].at;
      }
    }
  }

  /** Over every run the jitter of a source is not negative and not above the longest of the
      intervals recorded for it. */
  lemma JitterIsBounded(es: seq<Event>, key: EndpointKey)
    requires Monotone(es) && key in Run(es).sources
    ensures 0.0 <= Run(es).sources[key].jitterMs
    ensures Run(es).sources[key].jitterMs * MILLISECOND as real <= Longest(ArrivalsOf(es, key).intervals) as real
  {
    JitterIsAverage(es, key);
    ChangesNonNegative(ArrivalsOf(es, key).intervals);
    ZeroIffNoChange(Changes(ArrivalsOf(es, key).intervals));
    IntervalsGoForward(es, key);
    AverageIsBounded(ArrivalsOf(es, key).intervals);
  }
}
