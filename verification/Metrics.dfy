/**
  The metrics tracker on values: what each record operation makes of the statistics, and
  the statistics after a run of events.

  Times are nanoseconds of a clock that the operations are handed; Go's floating-point
  numbers are reals and its 64-bit counters natural numbers.
 */
module Metrics {
  import opened Wrappers

  type Time = int

  const MILLISECOND := 1_000_000
  const SECOND := 1_000_000_000

  /** A source: a component of a system. */
  datatype EndpointKey = EndpointKey(system: uint8, component: uint8)

  datatype Frame = Frame(system: uint8, component: uint8, sequence: uint8, message: string) {
    function Key(): EndpointKey {
      EndpointKey(system, component)
    }
  }

  datatype Heartbeats = Heartbeats(
    count: nat,
    firstArrival: Time,
    lastArrival: Time,
    minIntervalMs: real,
    maxIntervalMs: real,
    avgIntervalMs: real,
    rateHz: real,
    isHealthy: bool,
    autopilot: string,
    vehicleType: string,
    systemStatus: string
  )

  datatype Source = Source(
    firstSeen: Time,
    lastSeen: Time,
    totalFrames: nat,
    totalBytes: nat,
    droppedFrames: nat,
    packetLossPct: real,
    msgRateHz: real,
    dataRateBytesSec: real,
    jitterMs: real,
    lastSeq: uint8,
    hasLastSeq: bool,
    lastArrivalTime: Time,
    lastInterval: int,
    heartbeats: Option<Heartbeats>
  )

  datatype Statistics = Statistics(
    totalFrames: nat,
    totalBytes: nat,
    totalParseErrors: nat,
    versionCounts: map<string, nat>,
    messageCounts: map<string, nat>,
    sources: map<EndpointKey, Source>,
    sysLastSeq: map<uint8, uint8>,
    sysHasSeq: map<uint8, bool>
  )

  const EMPTY := Statistics(0, 0, 0, map[], map[], map[], map[], map[])

  /** Reading an absent key of a Go map gives the zero value. */
  function Get<K, V>(m: map<K, V>, k: K, zero: V): V {
    if k in m then m[k] else zero
  }

  function Bump(m: map<string, nat>, k: string): map<string, nat> {
    m[k := Get(m, k, 0) + 1]
  }

  function NewSource(now: Time): Source {
    Source(now, now, 0, 0, 0, 0.0, 0.0, 0.0, 0.0, 0, false, now, 0, None)
  }

  // ---------- RecordFrame ----------

  /** The frames missing between two sequence numbers, counted modulo 256. */
  function Gap(last: uint8, current: uint8): uint8 {
    if current != (last + 1) % 256 then (256 + current - last - 1) % 256 else 0
  }

  function Abs(x: real): real {
    if x < 0.0 then -x else x
  }

  /** The jitter after an interval: the mean of interval changes, weighted by 0.8 and 0.2,
      started afresh when it is zero. */
  function NextJitter(jitterMs: real, lastInterval: int, interval: int): real {
    if lastInterval > 0 then
      var diff := Abs((interval - lastInterval) as real / MILLISECOND as real);
      if jitterMs == 0.0 then diff else 0.8 * jitterMs + 0.2 * diff
    else jitterMs
  }

  /** The share of `part` in all that was expected, in percent. */
  function LossPct(part: nat, whole: nat): real
    requires whole > 0
  {
    part as real / whole as real * 100.0
  }

  function PerSecond(amount: nat, elapsed: int): real
    requires elapsed > 0
  {
    amount as real / (elapsed as real / SECOND as real)
  }

  /** The gap and the interval before a frame; `link` is the last sequence number seen on
      the link of its system, if any was. */
  function FollowLink(s: Source, link: Option<uint8>, sequence: uint8, now: Time): Source {
    if link.None? then s
    else
      var interval := now - s.lastArrivalTime;
      s.(droppedFrames := s.droppedFrames + Gap(link.value, sequence),
         jitterMs := NextJitter(s.jitterMs, s.lastInterval, interval),
         lastInterval := interval)
  }

  /** What the source shows of its counters. */
  function Show(s: Source, sequence: uint8, now: Time): Source
    requires s.totalFrames > 0
  {
    var elapsed := now - s.firstSeen;
    var showsRate := elapsed > 50 * MILLISECOND;
    s.(lastSeq := sequence,
       hasLastSeq := true,
       lastArrivalTime := now,
       packetLossPct := LossPct(s.droppedFrames, s.totalFrames + s.droppedFrames),
       msgRateHz := if showsRate then PerSecond(s.totalFrames, elapsed) else s.msgRateHz,
       dataRateBytesSec := if showsRate then PerSecond(s.totalBytes, elapsed) else s.dataRateBytesSec)
  }

  function SourceAfterFrame(s: Source, link: Option<uint8>, sequence: uint8, bytes: nat, now: Time): Source {
    var counted := s.(totalFrames := s.totalFrames + 1, totalBytes := s.totalBytes + bytes, lastSeen := now);
    Show(FollowLink(counted, link, sequence, now), sequence, now)
  }

  function Link(m: Statistics, system: uint8): Option<uint8> {
    if Get(m.sysHasSeq, system, false) then Some(Get(m.sysLastSeq, system, 0)) else None
  }

  function SourceOf(m: Statistics, key: EndpointKey, now: Time): Source {
    Get(m.sources, key, NewSource(now))
  }

  /** The counters after a frame. */
  function CountFrame(m: Statistics, f: Frame, version: string, bytes: nat): Statistics {
    m.(totalFrames := m.totalFrames + 1,
       totalBytes := m.totalBytes + bytes,
       versionCounts := Bump(m.versionCounts, version),
       messageCounts := Bump(m.messageCounts, f.message),
       sysLastSeq := m.sysLastSeq[f.system := f.sequence],
       sysHasSeq := m.sysHasSeq[f.system := true])
  }

  function RecordFrame(m: Statistics, f: Frame, version: string, bytes: nat, now: Time): Statistics {
    CountFrame(m, f, version, bytes).(
      sources := m.sources[f.Key() :=
        SourceAfterFrame(SourceOf(m, f.Key(), now), Link(m, f.system), f.sequence, bytes, now)])
  }

  // ---------- RecordHeartbeat ----------

  /** Go's Duration.Microseconds, which drops the fraction. */
  function Microseconds(d: int): int {
    if d >= 0 then d / 1000 else -(-d / 1000)
  }

  const NO_INTERVAL := 999999.0

  function FirstHeartbeat(autopilot: string, vehicle: string, status: string, now: Time): Heartbeats {
    Heartbeats(1, now, now, NO_INTERVAL, 0.0, 0.0, 0.0, false, autopilot, vehicle, status)
  }

  function NextHeartbeat(h: Heartbeats, autopilot: string, vehicle: string, status: string, now: Time): Heartbeats {
    var count := h.count + 1;
    var intervalMs := Microseconds(now - h.lastArrival) as real / 1000.0;
    var elapsedSec := (now - h.firstArrival) as real / SECOND as real;
    var timed := elapsedSec > 0.0 && count > 1;
    var avg := if timed then elapsedSec * 1000.0 / (count - 1) as real else h.avgIntervalMs;
    Heartbeats(
      count, h.firstArrival, now,
      if intervalMs < h.minIntervalMs then intervalMs else h.minIntervalMs,
      if intervalMs > h.maxIntervalMs then intervalMs else h.maxIntervalMs,
      avg,
      if timed then (count - 1) as real / elapsedSec else h.rateHz,
      if timed then count >= 2 && 200.0 <= avg <= 2500.0 else h.isHealthy,
      autopilot, vehicle, status)
  }

  function SourceAfterHeartbeat(s: Source, autopilot: string, vehicle: string, status: string, now: Time): Source {
    s.(heartbeats := Some(
      if s.heartbeats.None? then FirstHeartbeat(autopilot, vehicle, status, now)
      else NextHeartbeat(s.heartbeats.value, autopilot, vehicle, status, now)))
  }

  function RecordHeartbeat(m: Statistics, key: EndpointKey, autopilot: string, vehicle: string, status: string,
                           now: Time): Statistics {
    m.(sources := m.sources[key := SourceAfterHeartbeat(SourceOf(m, key, now), autopilot, vehicle, status, now)])
  }

  function RecordParseError(m: Statistics): Statistics {
    m.(totalParseErrors := m.totalParseErrors + 1)
  }

  // ---------- Runs ----------

  datatype Event =
    | FrameArrives(frame: Frame, version: string, bytes: nat, at: Time)
    | HeartbeatArrives(key: EndpointKey, autopilot: string, vehicle: string, status: string, at: Time)
    | ParseErrorArrives(at: Time)

  predicate IsFrameOf(e: Event, key: EndpointKey) {
    e.FrameArrives? && e.frame.Key() == key
  }

  function Apply(m: Statistics, e: Event): Statistics {
    match e
    case FrameArrives(f, version, bytes, at) => RecordFrame(m, f, version, bytes, at)
    case HeartbeatArrives(key, autopilot, vehicle, status, at) =>
      RecordHeartbeat(m, key, autopilot, vehicle, status, at)
    case ParseErrorArrives(_) => RecordParseError(m)
  }

  /** The statistics after a run. */
  function Run(es: seq<Event>): Statistics {
    if es == [] then EMPTY else Apply(Run(es[..|es| - 1]), es[|es| - 1])
  }

  lemma RunStep(es: seq<Event>, i: nat)
    requires i < |es|
    ensures Run(es[..i + 1]) == Apply(Run(es[..i]), es[i])
  {
    assert es[..i + 1][..i] == es[..i];
  }

  /** The clock does not go back during a run. */
  ghost predicate Monotone(es: seq<Event>) {
    forall i, j :: 0 <= i < j < |es| ==> es[i].at <= es[j].at
  }
}
