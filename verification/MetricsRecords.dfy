/**
  The records that the tracker updates in place, one for each source.
 */
module MetricsRecords {
  import opened Wrappers
  import opened Metrics

  class HeartbeatStats {
    var count: nat
    var firstArrival: Time
    var lastArrival: Time
    var minIntervalMs: real
    var maxIntervalMs: real
    var avgIntervalMs: real
    var rateHz: real
    var isHealthy: bool
    var autopilot: string
    var vehicleType: string
    var systemStatus: string

    /** The source these statistics belong to. */
    ghost const owner: EndpointKey

    ghost function View(): Heartbeats
      reads this
    {
      Heartbeats(count, firstArrival, lastArrival, minIntervalMs, maxIntervalMs, avgIntervalMs, rateHz, isHealthy,
                 autopilot, vehicleType, systemStatus)
    }

    constructor (ghost owner: EndpointKey, autopilot: string, vehicle: string, status: string, now: Time)
      ensures View() == FirstHeartbeat(autopilot, vehicle, status, now) && this.owner == owner
    {
      this.owner := owner;
      count := 1;
      firstArrival, lastArrival := now, now;
      minIntervalMs, maxIntervalMs := NO_INTERVAL, 0.0;
      avgIntervalMs, rateHz, isHealthy := 0.0, 0.0, false;
      this.autopilot, vehicleType, systemStatus := autopilot, vehicle, status;
    }

    /** A copy, as assigning the struct a pointer refers to makes one. */
    constructor Copy(h: HeartbeatStats)
      ensures View() == h.View() && owner == h.owner
    {
      owner := h.owner;
      count := h.count;
      firstArrival, lastArrival := h.firstArrival, h.lastArrival;
      minIntervalMs, maxIntervalMs := h.minIntervalMs, h.maxIntervalMs;
      avgIntervalMs, rateHz, isHealthy := h.avgIntervalMs, h.rateHz, h.isHealthy;
      autopilot, vehicleType, systemStatus := h.autopilot, h.vehicleType, h.systemStatus;
    }

    method Update(autopilot: string, vehicle: string, status: string, now: Time)
      modifies this
      ensures View() == NextHeartbeat(old(View()), autopilot, vehicle, status, now)
    {
      count := count + 1;
      this.autopilot, vehicleType, systemStatus := autopilot, vehicle, status;
      NoteInterval(Microseconds(now - lastArrival) as real / 1000.0);
      lastArrival := now;
      NoteRate((now - firstArrival) as real / SECOND as real);
    }

    method NoteInterval(intervalMs: real)
      modifies this`minIntervalMs, this`maxIntervalMs
      ensures minIntervalMs == if intervalMs < old(minIntervalMs) then intervalMs else old(minIntervalMs)
      ensures maxIntervalMs == if intervalMs > old(maxIntervalMs) then intervalMs else old(maxIntervalMs)
    {
      if intervalMs < minIntervalMs {
        minIntervalMs := intervalMs;
      }
      if intervalMs > maxIntervalMs {
        maxIntervalMs := intervalMs;
      }
    }

    method NoteRate(totalTimeSec: real)
      modifies this`avgIntervalMs, this`rateHz, this`isHealthy
      ensures totalTimeSec > 0.0 && count > 1 ==>
                && avgIntervalMs == totalTimeSec * 1000.0 / (count - 1) as real
                && rateHz == (count - 1) as real / totalTimeSec
                && isHealthy == (200.0 <= avgIntervalMs <= 2500.0)
      ensures !(totalTimeSec > 0.0 && count > 1) ==>
                avgIntervalMs == old(avgIntervalMs) && rateHz == old(rateHz) && isHealthy == old(isHealthy)
    {
      if totalTimeSec > 0.0 && count > 1 {
        avgIntervalMs := totalTimeSec * 1000.0 / (count - 1) as real;
        rateHz := (count - 1) as real / totalTimeSec;
        isHealthy := count >= 2 && avgIntervalMs >= 200.0 && avgIntervalMs <= 2500.0;
      }
    }
  }

  class SourceMetrics {
    const system: uint8
    const component: uint8
    var firstSeen: Time
    var lastSeen: Time
    var totalFrames: nat
    var totalBytes: nat
    var droppedFrames: nat
    var packetLossPct: real
    var msgRateHz: real
    var dataRateBytesSec: real
    var jitterMs: real
    var lastSeq: uint8
    var hasLastSeq: bool
    var lastArrivalTime: Time
    var lastInterval: int
    var heartbeatStats: HeartbeatStats?

    function Key(): EndpointKey {
      EndpointKey(system, component)
    }

    /** No other source has this one's heartbeat statistics. */
    ghost predicate Owns()
      reads this, heartbeatStats
    {
      heartbeatStats != null ==> heartbeatStats.owner == Key()
    }

    ghost function View(): Source
      reads this, heartbeatStats
    {
      Source(firstSeen, lastSeen, totalFrames, totalBytes, droppedFrames, packetLossPct, msgRateHz, dataRateBytesSec,
             jitterMs, lastSeq, hasLastSeq, lastArrivalTime, lastInterval,
             if heartbeatStats == null then None else Some(heartbeatStats.View()))
    }

    constructor (key: EndpointKey, now: Time)
      ensures View() == NewSource(now) && heartbeatStats == null && Key() == key
    {
      system, component := key.system, key.component;
      firstSeen, lastSeen, lastArrivalTime := now, now, now;
      totalFrames, totalBytes, droppedFrames := 0, 0, 0;
      packetLossPct, msgRateHz, dataRateBytesSec, jitterMs := 0.0, 0.0, 0.0, 0.0;
      lastSeq, hasLastSeq, lastInterval := 0, false, 0;
      heartbeatStats := null;
    }

    /** A copy with its own copy of the heartbeat statistics. */
    constructor DeepCopy(s: SourceMetrics)
      ensures View() == s.View() && Key() == s.Key()
      ensures heartbeatStats != null ==> fresh(heartbeatStats)
    {
      system, component := s.system, s.component;
      firstSeen, lastSeen, lastArrivalTime := s.firstSeen, s.lastSeen, s.lastArrivalTime;
      totalFrames, totalBytes, droppedFrames := s.totalFrames, s.totalBytes, s.droppedFrames;
      packetLossPct, msgRateHz, dataRateBytesSec := s.packetLossPct, s.msgRateHz, s.dataRateBytesSec;
      jitterMs, lastSeq, hasLastSeq, lastInterval := s.jitterMs, s.lastSeq, s.hasLastSeq, s.lastInterval;
      heartbeatStats := null;
      new;
      if s.heartbeatStats != null {
        heartbeatStats := new HeartbeatStats.Copy(s.heartbeatStats);
      }
    }

    /** The gap of a frame that follows `last` on the link of the system. */
    method CountGap(last: uint8, current: uint8)
      modifies this`droppedFrames
      ensures droppedFrames == old(droppedFrames) + Gap(last, current)
    {
      var expected := (last + 1) % 256;
      if current != expected {
        var diff := (256 + current - last - 1) % 256;
        droppedFrames := droppedFrames + diff;
      }
    }

    /** The jitter after a frame that comes `interval` after the one before. */
    method TakeInterval(interval: int)
      modifies this`jitterMs, this`lastInterval
      ensures jitterMs == NextJitter(old(jitterMs), old(lastInterval), interval) && lastInterval == interval
    {
      if lastInterval > 0 {
        var diff := Abs((interval - lastInterval) as real / MILLISECOND as real);
        if jitterMs == 0.0 {
          jitterMs := diff;
        } else {
          jitterMs := 0.8 * jitterMs + 0.2 * diff;
        }
      }
      lastInterval := interval;
    }

    method ShowLoss()
      requires totalFrames > 0
      modifies this`packetLossPct
      ensures packetLossPct == LossPct(droppedFrames, totalFrames + droppedFrames)
    {
      var totalExpected := totalFrames + droppedFrames;
      if totalExpected > 0 {
        packetLossPct := LossPct(droppedFrames, totalExpected);
      }
    }

    method ShowRates(elapsed: int)
      modifies this`msgRateHz, this`dataRateBytesSec
      ensures msgRateHz == if elapsed > 50 * MILLISECOND then PerSecond(totalFrames, elapsed) else old(msgRateHz)
      ensures dataRateBytesSec ==
                if elapsed > 50 * MILLISECOND then PerSecond(totalBytes, elapsed) else old(dataRateBytesSec)
    {
      if elapsed > 50 * MILLISECOND {
        msgRateHz := PerSecond(totalFrames, elapsed);
        dataRateBytesSec := PerSecond(totalBytes, elapsed);
      }
    }

    /** The gap and the interval before a frame. */
    method Follow(link: Option<uint8>, sequence: uint8, now: Time)
      modifies this`droppedFrames, this`jitterMs, this`lastInterval
      ensures View() == FollowLink(old(View()), link, sequence, now)
    {
      if link.Some? {
        CountGap(link.value, sequence);
        TakeInterval(now - lastArrivalTime);
      }
    }

    method ShowCounters(sequence: uint8, now: Time)
      requires totalFrames > 0
      modifies this`lastSeq, this`hasLastSeq, this`lastArrivalTime
      modifies this`packetLossPct, this`msgRateHz, this`dataRateBytesSec
      ensures View() == Show(old(View()), sequence, now)
    {
      lastSeq, hasLastSeq, lastArrivalTime := sequence, true, now;
      ShowLoss();
      ShowRates(now - firstSeen);
    }

    /** The part of RecordFrame that updates the source; `link` is the last sequence number of
        its system. */
    method TakeFrame(link: Option<uint8>, sequence: uint8, bytes: nat, now: Time)
      modifies this
      ensures View() == SourceAfterFrame(old(View()), link, sequence, bytes, now)
      ensures heartbeatStats == old(heartbeatStats)
    {
      totalFrames := totalFrames + 1;
      totalBytes := totalBytes + bytes;
      lastSeen := now;
      Follow(link, sequence, now);
      ShowCounters(sequence, now);
    }

    /** The source gets its heartbeat statistics. */
    method Attach(hb: HeartbeatStats)
      requires hb.owner == Key()
      modifies this`heartbeatStats
      ensures View() == old(View()).(heartbeats := Some(hb.View()))
      ensures heartbeatStats == hb && Owns()
    {
      heartbeatStats := hb;
    }
  }
}
