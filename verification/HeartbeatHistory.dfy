/**
  The heartbeat statistics of a source against the times of its heartbeats.
 */
module HeartbeatHistory {
  import opened Wrappers
  import opened Metrics

  function Beats(es: seq<Event>, key: EndpointKey): seq<Time> {
    if es == [] then [] else BeatsAfter(Beats(es[..|es| - 1], key), es[|es| - 1], key)
  }

  function BeatsAfter(beats: seq<Time>, e: Event, key: EndpointKey): seq<Time> {
    if e.HeartbeatArrives? && e.key == key then beats + [e.at] else beats
  }

  ghost predicate Ascending(beats: seq<Time>) {
    forall i, j :: 0 <= i < j < |beats| ==> beats[i] <= beats[j]
  }

  /** The interval before beat `j`, cut to microseconds. */
  function IntervalMs(beats: seq<Time>, j: nat): real
    requires 0 < j < |beats|
  {
    Microseconds(beats[j] - beats[j - 1]) as real / 1000.0
  }

  function Elapsed(beats: seq<Time>): int
    requires beats != []
  {
    beats[|beats| - 1] - beats[0]
  }

  /** The least interval, under the initial value that stands for none. */
  ghost predicate IsMin(beats: seq<Time>, x: real) {
    && x <= 999999.0
    && (forall j: nat :: 0 < j < |beats| ==> x <= IntervalMs(beats, j))
    && (x == 999999.0 || exists j: nat :: 0 < j < |beats| && x == IntervalMs(beats, j))
  }

  ghost predicate IsMax(beats: seq<Time>, x: real) {
    && 0.0 <= x
    && (forall j: nat :: 0 < j < |beats| ==> IntervalMs(beats, j) <= x)
    && (x == 0.0 || exists j: nat :: 0 < j < |beats| && x == IntervalMs(beats, j))
  }

  /** The window of the health check: between 200 and 2500 milliseconds for each interval,
      on average. */
  ghost predicate InWindow(beats: seq<Time>) {
    && |beats| >= 2
    && 200 * MILLISECOND * (|beats| - 1) <= Elapsed(beats) <= 2500 * MILLISECOND * (|beats| - 1)
  }

  ghost predicate Counts(h: Heartbeats, beats: seq<Time>) {
    && beats != [] && Ascending(beats)
    && h.count == |beats| && h.firstArrival == beats[0] && h.lastArrival == beats[|beats| - 1]
  }

  /** The average and the rate, once time has passed between the beats, and zero before. */
  ghost predicate Averages(h: Heartbeats, beats: seq<Time>)
    requires beats != []
  {
    if |beats| >= 2 && Elapsed(beats) > 0 then
      && h.avgIntervalMs * (|beats| - 1) as real * MILLISECOND as real == Elapsed(beats) as real
      && h.rateHz * h.avgIntervalMs == 1000.0
    else h.avgIntervalMs == h.rateHz == 0.0
  }

  /** `k` intervals that take `elapsed` in all have an average between the two. */
  ghost predicate Between(least: real, greatest: real, k: nat, elapsed: int) {
    && least * k as real * MILLISECOND as real <= elapsed as real
    && elapsed as real < (greatest + 0.001) * k as real * MILLISECOND as real
  }

  /** The least and the greatest interval enclose the average. */
  ghost predicate Encloses(h: Heartbeats, beats: seq<Time>)
    requires beats != []
  {
    |beats| >= 2 ==> Between(h.minIntervalMs, h.maxIntervalMs, |beats| - 1, Elapsed(beats))
  }

  ghost predicate Describes(h: Heartbeats, beats: seq<Time>) {
    && Counts(h, beats)
    && IsMin(beats, h.minIntervalMs) && IsMax(beats, h.maxIntervalMs)
    && Averages(h, beats) && Encloses(h, beats)
    && (h.isHealthy <==> InWindow(beats))
  }

  // ---------- One heartbeat ----------

  lemma IntervalsOfLonger(beats: seq<Time>, at: Time, j: nat)
    requires 0 < j < |beats|
    ensures IntervalMs(beats + [at], j) == IntervalMs(beats, j)
  {}

  lemma MinExtends(beats: seq<Time>, at: Time, x: real, d: real)
    requires beats != [] && IsMin(beats, x) && d == IntervalMs(beats + [at], |beats|)
    ensures IsMin(beats + [at], if d < x then d else x)
  {
    var longer := beats + [at];
    forall j: nat | 0 < j < |longer| ensures (if d < x then d else x) <= IntervalMs(longer, j) {
      if j < |beats| { IntervalsOfLonger(beats, at, j); }
    }
    if x != NO_INTERVAL && x <= d {
      var j: nat :| 0 < j < |beats| && x == IntervalMs(beats, j);
      IntervalsOfLonger(beats, at, j);
    }
  }

  lemma MaxExtends(beats: seq<Time>, at: Time, x: real, d: real)
    requires beats != [] && IsMax(beats, x) && d == IntervalMs(beats + [at], |beats|)
    ensures IsMax(beats + [at], if d > x then d else x)
  {
    var longer := beats + [at];
    forall j: nat | 0 < j < |longer| ensures IntervalMs(longer, j) <= (if d > x then d else x) {
      if j < |beats| { IntervalsOfLonger(beats, at, j); }
    }
    if x != 0.0 && x >= d {
      var j: nat :| 0 < j < |beats| && x == IntervalMs(beats, j);
      IntervalsOfLonger(beats, at, j);
    }
  }

  /** Cutting an interval to microseconds loses less than one of them. */
  lemma Truncation(d: int)
    requires d >= 0
    ensures var ms := Microseconds(d) as real / 1000.0;
            ms * MILLISECOND as real <= d as real < (ms + 0.001) * MILLISECOND as real
  {
    var us := Microseconds(d);
    assert us * 1000 <= d < us * 1000 + 1000;
    assert (us as real / 1000.0) * 1000000.0 == us as real * 1000.0;
  }

  lemma MulOrder(a: real, b: real, k: real)
    requires k > 0.0
    ensures a <= b <==> a * k <= b * k
  {
    if a <= b {
      assert (b - a) * k >= 0.0;
    } else {
      assert (a - b) * k > 0.0;
    }
  }

  /** A value below two averages is below the average of both parts. */
  lemma LeastOfParts(least: real, part: real, value: real, k: real, elapsed: real, d: real)
    requires k >= 0.0 && value <= least && value <= part
    requires least * k * 1000000.0 <= elapsed && part * 1000000.0 <= d
    ensures value * (k + 1.0) * 1000000.0 <= elapsed + d
  {
    if k > 0.0 {
      MulOrder(value, least, k);
    }
    assert value * (k + 1.0) == value * k + value;
  }

  lemma GreatestOfParts(greatest: real, part: real, value: real, k: real, elapsed: real, d: real)
    requires k >= 0.0 && greatest <= value && part <= value
    requires elapsed <= greatest * k * 1000000.0 && d < part * 1000000.0
    ensures elapsed + d < value * (k + 1.0) * 1000000.0
  {
    if k > 0.0 {
      MulOrder(greatest, value, k);
    }
    assert value * (k + 1.0) == value * k + value;
  }

  lemma NextBetween(least: real, greatest: real, k: nat, elapsed: int, d: int)
    requires d >= 0 && if k == 0 then elapsed == 0 else Between(least, greatest, k, elapsed)
    ensures var ms := Microseconds(d) as real / 1000.0;
            Between(if ms < least then ms else least, if ms > greatest then ms else greatest, k + 1, elapsed + d)
  {
    var ms := Microseconds(d) as real / 1000.0;
    var least', greatest' := if ms < least then ms else least, if ms > greatest then ms else greatest;
    Truncation(d);
    LeastOfParts(least, ms, least', k as real, elapsed as real, d as real);
    GreatestOfParts(greatest + 0.001, ms + 0.001, greatest' + 0.001, k as real, elapsed as real, d as real);
    assert (k + 1) as real == k as real + 1.0;
  }

  lemma NextEncloses(h: Heartbeats, beats: seq<Time>, autopilot: string, vehicle: string, status: string, at: Time)
    requires Counts(h, beats) && Encloses(h, beats) && beats[|beats| - 1] <= at
    ensures Encloses(NextHeartbeat(h, autopilot, vehicle, status, at), beats + [at])
  {
    var d := at - beats[|beats| - 1];
    NextBetween(h.minIntervalMs, h.maxIntervalMs, |beats| - 1, Elapsed(beats), d);
    assert Elapsed(beats + [at]) == Elapsed(beats) + d;
  }

  lemma Quotients(elapsed: int, k: nat)
    requires elapsed > 0 && k > 0
    ensures var sec := elapsed as real / SECOND as real;
            var avg := sec * 1000.0 / k as real;
            && avg * k as real * MILLISECOND as real == elapsed as real
            && k as real / sec * avg == 1000.0
            && (200.0 <= avg <==> 200 * MILLISECOND * k <= elapsed)
            && (avg <= 2500.0 <==> elapsed <= 2500 * MILLISECOND * k)
  {
    var sec := elapsed as real / SECOND as real;
    var avg, rate := sec * 1000.0 / k as real, k as real / sec;
    assert avg * k as real == sec * 1000.0;
    assert rate * sec == k as real;
    Cancel(rate, avg, sec * 1000.0, k as real);
    CompareQuotient(avg, 200.0, k, sec * 1000.0);
    CompareQuotient(avg, 2500.0, k, sec * 1000.0);
  }

  lemma Cancel(rate: real, avg: real, whole: real, k: real)
    requires k > 0.0 && avg * k == whole && rate * whole == 1000.0 * k
    ensures rate * avg == 1000.0
  {
    assert (rate * avg) * k == 1000.0 * k;
  }

  lemma CompareQuotient(avg: real, bound: real, k: nat, whole: real)
    requires k > 0 && avg * k as real == whole
    ensures avg <= bound <==> whole <= bound * k as real
    ensures bound <= avg <==> bound * k as real <= whole
  {
    MulOrder(avg, bound, k as real);
    MulOrder(bound, avg, k as real);
  }

  lemma NextTimed(h: Heartbeats, autopilot: string, vehicle: string, status: string, at: Time)
    requires h.count > 0 && at > h.firstArrival
    ensures var t, elapsed := NextHeartbeat(h, autopilot, vehicle, status, at), at - h.firstArrival;
            && t.avgIntervalMs * h.count as real * MILLISECOND as real == elapsed as real
            && t.rateHz * t.avgIntervalMs == 1000.0
            && (t.isHealthy <==> 200 * MILLISECOND * h.count <= elapsed <= 2500 * MILLISECOND * h.count)
  {
    Quotients(at - h.firstArrival, h.count);
  }

  lemma NextAverages(h: Heartbeats, beats: seq<Time>, autopilot: string, vehicle: string, status: string, at: Time)
    requires Counts(h, beats) && Averages(h, beats) && beats[|beats| - 1] <= at
    requires h.isHealthy <==> InWindow(beats)
    ensures var t := NextHeartbeat(h, autopilot, vehicle, status, at);
            Averages(t, beats + [at]) && (t.isHealthy <==> InWindow(beats + [at]))
  {
    assert Elapsed(beats + [at]) == at - h.firstArrival;
    assert |beats + [at]| - 1 == h.count;
    if at > h.firstArrival {
      NextTimed(h, autopilot, vehicle, status, at);
    } else {
      assert Elapsed(beats) == 0;
    }
  }

  lemma NextCounts(h: Heartbeats, beats: seq<Time>, autopilot: string, vehicle: string, status: string, at: Time)
    requires Counts(h, beats) && beats[|beats| - 1] <= at
    ensures Counts(NextHeartbeat(h, autopilot, vehicle, status, at), beats + [at])
  {
    var longer := beats + [at];
    forall i, j | 0 <= i < j < |longer| ensures longer[i] <= longer[j] {
      assert beats[i] <= beats[|beats| - 1];
    }
  }

  lemma NextExtremeFields(h: Heartbeats, autopilot: string, vehicle: string, status: string, at: Time, d: real)
    requires d == Microseconds(at - h.lastArrival) as real / 1000.0
    ensures var t := NextHeartbeat(h, autopilot, vehicle, status, at);
            && t.minIntervalMs == (if d < h.minIntervalMs then d else h.minIntervalMs)
            && t.maxIntervalMs == (if d > h.maxIntervalMs then d else h.maxIntervalMs)
  {}

  lemma LastInterval(beats: seq<Time>, at: Time) returns (d: real)
    requires beats != []
    ensures d == IntervalMs(beats + [at], |beats|) == Microseconds(at - beats[|beats| - 1]) as real / 1000.0
  {
    d := IntervalMs(beats + [at], |beats|);
  }

  lemma NextExtremes(h: Heartbeats, beats: seq<Time>, autopilot: string, vehicle: string, status: string, at: Time)
    requires Counts(h, beats) && IsMin(beats, h.minIntervalMs) && IsMax(beats, h.maxIntervalMs)
    ensures var t := NextHeartbeat(h, autopilot, vehicle, status, at);
            IsMin(beats + [at], t.minIntervalMs) && IsMax(beats + [at], t.maxIntervalMs)
  {
    var d := LastInterval(beats, at);
    NextExtremeFields(h, autopilot, vehicle, status, at, d);
    MinExtends(beats, at, h.minIntervalMs, d);
    MaxExtends(beats, at, h.maxIntervalMs, d);
  }

  lemma NextDescribes(h: Heartbeats, beats: seq<Time>, autopilot: string, vehicle: string, status: string, at: Time)
    requires Describes(h, beats) && beats[|beats| - 1] <= at
    ensures Describes(NextHeartbeat(h, autopilot, vehicle, status, at), beats + [at])
  {
    NextCounts(h, beats, autopilot, vehicle, status, at);
    NextExtremes(h, beats, autopilot, vehicle, status, at);
    NextEncloses(h, beats, autopilot, vehicle, status, at);
    NextAverages(h, beats, autopilot, vehicle, status, at);
  }

  // ---------- Runs ----------

  ghost predicate Matches(m: Statistics, beats: seq<Time>, key: EndpointKey) {
    if key in m.sources && m.sources[key].heartbeats.Some?
      then Describes(m.sources[key].heartbeats.value, beats)
      else beats == []
  }

  lemma EventKeepsMatch(m: Statistics, beats: seq<Time>, e: Event, key: EndpointKey)
    requires Matches(m, beats, key) && (beats != [] ==> beats[|beats| - 1] <= e.at)
    ensures Matches(Apply(m, e), BeatsAfter(beats, e, key), key)
  {
    if e.HeartbeatArrives? && e.key == key {
      var hs := SourceOf(m, key, e.at).heartbeats;
      if hs.Some? {
        NextDescribes(hs.value, beats, e.autopilot, e.vehicle, e.status, e.at);
      }
    }
  }

  /** In every run the statistics of a source describe its heartbeats. */
  lemma {:induction false} StatisticsDescribe(es: seq<Event>, key: EndpointKey)
    requires Monotone(es)
    ensures Matches(Run(es), Beats(es, key), key)
    decreases |es|
  {
    if es != [] {
      var front, e := es[..|es| - 1], es[|es| - 1];
      StatisticsDescribe(front, key);
      BeatsAreBefore(front, key, e.at);
      EventKeepsMatch(Run(front), Beats(front, key), e, key);
    }
  }

  lemma {:induction false} BeatsAreBefore(es: seq<Event>, key: EndpointKey, at: Time)
    requires forall e <- es :: e.at <= at
    ensures Beats(es, key) != [] ==> Beats(es, key)[|Beats(es, key)| - 1] <= at
    decreases |es|
  {
    if es != [] {
      BeatsAreBefore(es[..|es| - 1], key, at);
    }
  }

  /** A source shows heartbeat statistics exactly when it has sent one. */
  lemma {:induction false} ShownIffBeaten(es: seq<Event>, key: EndpointKey)
    requires Monotone(es)
    ensures Beats(es, key) != [] <==> key in Run(es).sources && Run(es).sources[key].heartbeats.Some?
  {
    StatisticsDescribe(es, key);
  }

  lemma AverageBetween(h: Heartbeats, beats: seq<Time>)
    requires Counts(h, beats) && Averages(h, beats) && Encloses(h, beats)
    requires h.count >= 2 && h.lastArrival > h.firstArrival
    ensures h.avgIntervalMs * (h.count - 1) as real * MILLISECOND as real == (h.lastArrival - h.firstArrival) as real
    ensures h.rateHz * h.avgIntervalMs == 1000.0
    ensures h.minIntervalMs <= h.avgIntervalMs < h.maxIntervalMs + 0.001
  {
    var k, whole := h.count - 1, h.avgIntervalMs * (h.count - 1) as real;
    CompareQuotient(h.avgIntervalMs, h.minIntervalMs, k, whole);
    CompareQuotient(h.avgIntervalMs, h.maxIntervalMs + 0.001, k, whole);
  }

  lemma ShownDescribes(es: seq<Event>, key: EndpointKey, h: Heartbeats)
    requires Monotone(es) && key in Run(es).sources && Run(es).sources[key].heartbeats == Some(h)
    ensures Describes(h, Beats(es, key))
  {
    StatisticsDescribe(es, key);
  }

  /** From the second beat on, once time has passed: the average interval times the number of
      intervals is the time from the first beat to the last, rate times average is 1000, and
      the least and greatest interval enclose the average, within a microsecond. */
  lemma AverageIsEnclosed(es: seq<Event>, key: EndpointKey, h: Heartbeats)
    requires Monotone(es) && key in Run(es).sources && Run(es).sources[key].heartbeats == Some(h)
    requires h.count >= 2 && h.lastArrival > h.firstArrival
    ensures h.avgIntervalMs * (h.count - 1) as real * MILLISECOND as real == (h.lastArrival - h.firstArrival) as real
    ensures h.rateHz * h.avgIntervalMs == 1000.0
    ensures h.minIntervalMs <= h.avgIntervalMs < h.maxIntervalMs + 0.001
  {
    ShownDescribes(es, key, h);
    AverageBetween(h, Beats(es, key));
  }

  /** A source is healthy exactly when its beats came, on average, between 200 and 2500
      milliseconds apart: a rate of 0.4 to 5 Hz. */
  lemma HealthIsRateWindow(es: seq<Event>, key: EndpointKey, h: Heartbeats)
    requires Monotone(es) && key in Run(es).sources && Run(es).sources[key].heartbeats == Some(h)
    ensures h.isHealthy <==>
              && h.count >= 2
              && 200 * MILLISECOND * (h.count - 1) <= h.lastArrival - h.firstArrival
                   <= 2500 * MILLISECOND * (h.count - 1)
  {
    ShownDescribes(es, key, h);
  }

  lemma HealthOfAverage(average: real, k: nat, elapsed: int)
    requires k > 0 && average * k as real * MILLISECOND as real == elapsed as real
    ensures 200.0 <= average <==> 200 * MILLISECOND * k <= elapsed
    ensures average <= 2500.0 <==> elapsed <= 2500 * MILLISECOND * k
  {
    var whole := average * k as real;
    assert whole * 1000000.0 == elapsed as real;
    CompareQuotient(average, 200.0, k, whole);
    CompareQuotient(average, 2500.0, k, whole);
  }

  lemma RateOfAverage(average: real, rate: real)
    requires average > 0.0 && rate * average == 1000.0
    ensures 0.5 <= rate <==> average <= 2000.0
    ensures rate <= 5.0 <==> 200.0 <= average
  {
    ScaledOrder(0.5, rate, average, 0.5 * average, 1000.0);
    ScaledOrder(rate, 5.0, average, 1000.0, 5.0 * average);
  }

  lemma ScaledOrder(a: real, b: real, k: real, ak: real, bk: real)
    requires k > 0.0 && ak == a * k && bk == b * k
    ensures a <= b <==> ak <= bk
  {
    MulOrder(a, b, k);
  }

  lemma PositiveAverage(average: real, k: nat, elapsed: int)
    requires k > 0 && elapsed > 0 && average * k as real * MILLISECOND as real == elapsed as real
    ensures average > 0.0
  {
    CompareQuotient(average, 0.0, k, average * k as real);
  }

  lemma HealthOfBeats(h: Heartbeats, beats: seq<Time>)
    requires Counts(h, beats) && Averages(h, beats) && (h.isHealthy <==> InWindow(beats))
    ensures h.isHealthy <==> 200.0 <= h.avgIntervalMs <= 2500.0
    ensures 0.5 <= h.rateHz <= 5.0 <==> 200.0 <= h.avgIntervalMs <= 2000.0
  {
    var k := |beats| - 1;
    if k > 0 && Elapsed(beats) > 0 {
      PositiveAverage(h.avgIntervalMs, k, Elapsed(beats));
      HealthOfAverage(h.avgIntervalMs, k, Elapsed(beats));
      RateOfAverage(h.avgIntervalMs, h.rateHz);
    } else {
      assert !InWindow(beats);
    }
  }

  /** The health shown is that of a rate of 0.5 to 5 Hz exactly unless the average interval
      is more than 2000 and at most 2500 milliseconds. */
  lemma HealthIsHalfHertzIff(es: seq<Event>, key: EndpointKey, h: Heartbeats)
    requires Monotone(es) && key in Run(es).sources && Run(es).sources[key].heartbeats == Some(h)
    ensures (h.isHealthy <==> 0.5 <= h.rateHz <= 5.0) <==> !(2000.0 < h.avgIntervalMs <= 2500.0)
  {
    ShownDescribes(es, key, h);
    HealthOfBeats(h, Beats(es, key));
  }

  /** Every beat follows the one before within the window. */
  ghost predicate Regular(beats: seq<Time>) {
    forall j :: 0 < j < |beats| ==> 200 * MILLISECOND <= beats[j] - beats[j - 1] <= 2500 * MILLISECOND
  }

  lemma {:induction false} RegularElapses(beats: seq<Time>)
    requires beats != [] && Regular(beats)
    ensures 200 * MILLISECOND * (|beats| - 1) <= Elapsed(beats) <= 2500 * MILLISECOND * (|beats| - 1)
    decreases |beats|
  {
    if |beats| > 1 {
      RegularElapses(beats[..|beats| - 1]);
    }
  }

  /** A source that beats regularly is healthy from its second beat on. */
  lemma RegularIsHealthy(es: seq<Event>, key: EndpointKey, h: Heartbeats)
    requires Monotone(es) && key in Run(es).sources && Run(es).sources[key].heartbeats == Some(h)
    requires Regular(Beats(es, key)) && h.count >= 2
    ensures h.isHealthy
  {
    ShownDescribes(es, key, h);
    RegularElapses(Beats(es, key));
  }

  /** `n` beats of one source, 2400 milliseconds apart. */
  function SlowBeats(key: EndpointKey, n: nat): seq<Event> {
    if n == 0 then []
    else SlowBeats(key, n - 1) + [HeartbeatArrives(key, "", "", "", (n - 1) * 2400 * MILLISECOND)]
  }

  lemma {:induction false} SlowBeatsAreMonotone(key: EndpointKey, n: nat)
    ensures |SlowBeats(key, n)| == n && Monotone(SlowBeats(key, n))
    ensures forall i :: 0 <= i < n ==> SlowBeats(key, n)[i].at == i * 2400 * MILLISECOND
  {
    if n > 0 {
      SlowBeatsAreMonotone(key, n - 1);
    }
  }

  lemma {:induction false} SlowBeatsBeat(key: EndpointKey, n: nat)
    ensures |SlowBeats(key, n)| == |Beats(SlowBeats(key, n), key)| == n
    ensures forall i :: 0 <= i < n ==> Beats(SlowBeats(key, n), key)[i] == i * 2400 * MILLISECOND
  {
    if n > 0 {
      SlowBeatsBeat(key, n - 1);
      assert SlowBeats(key, n)[..n - 1] == SlowBeats(key, n - 1);
    }
  }

  lemma RateOfSlowBeats(average: real, rate: real, k: real, whole: real, elapsed: real)
    requires k > 0.0 && average * k == whole && whole * 1000000.0 == elapsed == 2400000000.0 * k
    requires rate * average == 1000.0
    ensures rate < 0.5
  {
    MulOrder(average, 2400.0, k);
    MulOrder(2400.0, average, k);
  }

  lemma SlowRate(h: Heartbeats)
    requires h.count >= 2 && h.lastArrival - h.firstArrival == 2400000000 * (h.count - 1)
    requires h.avgIntervalMs * (h.count - 1) as real * MILLISECOND as real == (h.lastArrival - h.firstArrival) as real
    requires h.rateHz * h.avgIntervalMs == 1000.0
    ensures h.rateHz < 0.5
  {
    var k, elapsed := h.count - 1, h.lastArrival - h.firstArrival;
    assert elapsed as real == 2400000000.0 * k as real;
    RateOfSlowBeats(h.avgIntervalMs, h.rateHz, k as real, h.avgIntervalMs * k as real, elapsed as real);
  }

  lemma ShownCounts(es: seq<Event>, key: EndpointKey, h: Heartbeats)
    requires Monotone(es) && key in Run(es).sources && Run(es).sources[key].heartbeats == Some(h)
    ensures Beats(es, key) != [] && h.count == |Beats(es, key)|
    ensures h.lastArrival - h.firstArrival == Elapsed(Beats(es, key))
  {
    ShownDescribes(es, key, h);
  }

  lemma SlowRunRate(es: seq<Event>, key: EndpointKey, h: Heartbeats)
    requires Monotone(es) && key in Run(es).sources && Run(es).sources[key].heartbeats == Some(h)
    requires h.count >= 2 && h.lastArrival - h.firstArrival == 2400000000 * (h.count - 1)
    ensures h.rateHz < 0.5
  {
    AverageIsEnclosed(es, key, h);
    SlowRate(h);
  }

  lemma InsideWindow(k: nat)
    ensures 200 * MILLISECOND * k <= 2400000000 * k <= 2500 * MILLISECOND * k
  {}

  lemma SlowRunHealth(es: seq<Event>, key: EndpointKey, h: Heartbeats)
    requires Monotone(es) && key in Run(es).sources && Run(es).sources[key].heartbeats == Some(h)
    requires h.count >= 2 && h.lastArrival - h.firstArrival == 2400000000 * (h.count - 1)
    ensures h.isHealthy
  {
    HealthIsRateWindow(es, key, h);
    InsideWindow(h.count - 1);
  }

  lemma SlowBeatsShown(key: EndpointKey, n: nat) returns (h: Heartbeats)
    requires n > 0
    ensures var es := SlowBeats(key, n);
            Monotone(es) && key in Run(es).sources && Run(es).sources[key].heartbeats == Some(h)
    ensures h.count == n && h.lastArrival - h.firstArrival == 2400000000 * (n - 1)
  {
    var es := SlowBeats(key, n);
    SlowBeatsAreMonotone(key, n);
    SlowBeatsBeat(key, n);
    ShownIffBeaten(es, key);
    h := Run(es).sources[key].heartbeats.value;
    ShownCounts(es, key, h);
  }

  /** A source that beats every 2400 milliseconds, two times or more, is healthy at a rate
      below half a hertz. */
  lemma SlowBeatIsHealthy(key: EndpointKey, n: nat)
    requires n >= 2
    ensures var m := Run(SlowBeats(key, n));
            && key in m.sources && m.sources[key].heartbeats.Some?
            && m.sources[key].heartbeats.value.isHealthy && m.sources[key].heartbeats.value.rateHz < 0.5
  {
    var h := SlowBeatsShown(key, n);
    SlowRunHealth(SlowBeats(key, n), key, h);
    SlowRunRate(SlowBeats(key, n), key, h);
  }
}
