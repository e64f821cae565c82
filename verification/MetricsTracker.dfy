/**
  The tracker object.  Its methods update the records in place and move the abstract
  statistics `st` as the specification in Metrics says, so all that is proved of its runs
  holds of this object.
 */
module MetricsTracker {
  import opened Wrappers
  import opened Metrics
  import opened MetricsRecords
  import opened MetricsSnapshot

  lemma Overwritten<K, V>(m: map<K, V>, k: K, a: V, b: V)
    ensures m[k := a][k := b] == m[k := b]
  {}

  class Tracker {
    const startTime: Time
    var totalFrames: nat
    var totalBytes: nat
    var totalParseErrors: nat
    var versionCounts: map<string, nat>
    var messageCounts: map<string, nat>
    var sources: map<EndpointKey, SourceMetrics>
    var sysLastSeq: map<uint8, uint8>
    var sysHasSeq: map<uint8, bool>

    ghost var st: Statistics

    /** The records of the sources. */
    ghost var repr: set<object>

    /** Every record is under its own key, and no two share their heartbeat statistics. */
    ghost predicate Owned()
      reads this`sources, this`repr, repr
    {
      && this !in repr
      && (forall k <- sources :: sources[k] in repr)
      && (forall k <- sources :: sources[k].heartbeatStats != null ==> sources[k].heartbeatStats in repr)
      && (forall k <- sources :: sources[k].Key() == k && sources[k].Owns())
    }

    /** The records hold the statistics `ss`. */
    ghost predicate SourcesAre(ss: map<EndpointKey, Source>)
      requires Owned()
      reads this`sources, this`repr, repr
    {
      sources.Keys == ss.Keys && forall k <- sources :: sources[k].View() == ss[k]
    }

    ghost predicate CountersAre(m: Statistics)
      reads this`totalFrames, this`totalBytes, this`totalParseErrors, this`versionCounts, this`messageCounts
      reads this`sysLastSeq, this`sysHasSeq
    {
      && totalFrames == m.totalFrames && totalBytes == m.totalBytes && totalParseErrors == m.totalParseErrors
      && versionCounts == m.versionCounts && messageCounts == m.messageCounts
      && sysLastSeq == m.sysLastSeq && sysHasSeq == m.sysHasSeq
    }

    ghost predicate Valid()
      reads this, repr
    {
      Owned() && SourcesAre(st.sources) && CountersAre(st)
    }

    constructor (now: Time)
      ensures Valid() && st == EMPTY && startTime == now && fresh(repr)
    {
      startTime := now;
      totalFrames, totalBytes, totalParseErrors := 0, 0, 0;
      versionCounts, messageCounts, sources, sysLastSeq, sysHasSeq := map[], map[], map[], map[], map[];
      repr, st := {}, EMPTY;
    }

    method RecordParseError()
      requires Valid()
      modifies this`totalParseErrors, this`st
      ensures Valid() && st == Metrics.RecordParseError(old(st))
    {
      totalParseErrors := totalParseErrors + 1;
      st := Metrics.RecordParseError(st);
    }

    /** The record under a key, made when there is none. */
    method FindOrAdd(key: EndpointKey, now: Time, ghost ss: map<EndpointKey, Source>) returns (sm: SourceMetrics)
      requires Owned() && SourcesAre(ss)
      modifies this`sources, this`repr
      ensures Owned() && old(repr) <= repr && fresh(repr - old(repr))
      ensures key in sources && sources[key] == sm
      ensures SourcesAre(ss[key := Get(ss, key, NewSource(now))])
    {
      if key in sources {
        sm := sources[key];
      } else {
        sm := new SourceMetrics(key, now);
        sources := sources[key := sm];
        repr := repr + {sm};
      }
    }

    /** The record of one source takes a frame; the others do not change. */
    method TakeFrame(key: EndpointKey, link: Option<uint8>, sequence: uint8, bytes: nat, now: Time,
                     ghost ss: map<EndpointKey, Source>)
      requires Owned() && SourcesAre(ss) && key in sources
      modifies sources[key]
      ensures Owned()
      ensures SourcesAre(ss[key := SourceAfterFrame(ss[key], link, sequence, bytes, now)])
    {
      sources[key].TakeFrame(link, sequence, bytes, now);
    }

    ghost method Adopt(hb: HeartbeatStats, ss: map<EndpointKey, Source>)
      requires Owned() && SourcesAre(ss)
      modifies this`repr
      ensures repr == old(repr) + {hb} && Owned() && SourcesAre(ss)
    {
      repr := repr + {hb};
    }

    method Attach(key: EndpointKey, hb: HeartbeatStats, ghost ss: map<EndpointKey, Source>)
      requires Owned() && SourcesAre(ss) && key in sources && hb in repr && hb.owner == key
      modifies sources[key]
      ensures Owned() && SourcesAre(ss[key := ss[key].(heartbeats := Some(hb.View()))])
    {
      sources[key].Attach(hb);
    }

    /** The record starts its heartbeat statistics. */
    method StartHeartbeats(key: EndpointKey, autopilot: string, vehicle: string, status: string, now: Time,
                           ghost ss: map<EndpointKey, Source>)
      requires Owned() && SourcesAre(ss) && key in sources && sources[key].heartbeatStats == null
      modifies this`repr, sources[key]
      ensures Owned() && old(repr) <= repr && fresh(repr - old(repr))
      ensures SourcesAre(ss[key := ss[key].(heartbeats := Some(FirstHeartbeat(autopilot, vehicle, status, now)))])
    {
      var hb := new HeartbeatStats(key, autopilot, vehicle, status, now);
      Adopt(hb, ss);
      Attach(key, hb, ss);
    }

    /** The heartbeat statistics of the record take one more. */
    method UpdateHeartbeats(key: EndpointKey, autopilot: string, vehicle: string, status: string, now: Time,
                            ghost ss: map<EndpointKey, Source>)
      requires Owned() && SourcesAre(ss) && key in sources && sources[key].heartbeatStats != null
      modifies sources[key].heartbeatStats
      ensures Owned() && ss[key].heartbeats.Some?
      ensures SourcesAre(ss[key := ss[key].(
                heartbeats := Some(NextHeartbeat(ss[key].heartbeats.value, autopilot, vehicle, status, now)))])
    {
      sources[key].heartbeatStats.Update(autopilot, vehicle, status, now);
    }

    method TakeHeartbeat(key: EndpointKey, autopilot: string, vehicle: string, status: string, now: Time,
                         ghost ss: map<EndpointKey, Source>)
      requires Owned() && SourcesAre(ss) && key in sources
      modifies this`repr, repr
      ensures Owned() && old(repr) <= repr && fresh(repr - old(repr))
      ensures SourcesAre(ss[key := SourceAfterHeartbeat(ss[key], autopilot, vehicle, status, now)])
    {
      if sources[key].heartbeatStats == null {
        StartHeartbeats(key, autopilot, vehicle, status, now, ss);
      } else {
        UpdateHeartbeats(key, autopilot, vehicle, status, now, ss);
      }
    }

    /** The source under a key, made when there is none, takes a frame. */
    method SourceTakesFrame(key: EndpointKey, link: Option<uint8>, sequence: uint8, bytes: nat, now: Time,
                            ghost ss: map<EndpointKey, Source>) returns (sm: SourceMetrics)
      requires Owned() && SourcesAre(ss)
      modifies this`sources, this`repr, repr
      ensures Owned() && old(repr) <= repr && fresh(repr - old(repr))
      ensures key in sources && sm == sources[key]
      ensures SourcesAre(ss[key := SourceAfterFrame(Get(ss, key, NewSource(now)), link, sequence, bytes, now)])
    {
      sm := FindOrAdd(key, now, ss);
      ghost var found := ss[key := Get(ss, key, NewSource(now))];
      TakeFrame(key, link, sequence, bytes, now, found);
      Overwritten(ss, key, found[key], SourceAfterFrame(found[key], link, sequence, bytes, now));
    }

    method SourceTakesHeartbeat(key: EndpointKey, autopilot: string, vehicle: string, status: string, now: Time,
                                ghost ss: map<EndpointKey, Source>)
      requires Owned() && SourcesAre(ss)
      modifies this`sources, this`repr, repr
      ensures Owned() && old(repr) <= repr && fresh(repr - old(repr))
      ensures SourcesAre(ss[key := SourceAfterHeartbeat(Get(ss, key, NewSource(now)), autopilot, vehicle, status, now)])
    {
      var _ := FindOrAdd(key, now, ss);
      ghost var found := ss[key := Get(ss, key, NewSource(now))];
      TakeHeartbeat(key, autopilot, vehicle, status, now, found);
      Overwritten(ss, key, found[key], SourceAfterHeartbeat(found[key], autopilot, vehicle, status, now));
    }

    ghost method MoveTo(m: Statistics)
      requires Owned() && SourcesAre(m.sources) && CountersAre(m)
      modifies this`st
      ensures Valid() && st == m
    {
      st := m;
    }

    method CountMessage(version: string, message: string, bytes: nat)
      modifies this`totalFrames, this`totalBytes, this`versionCounts, this`messageCounts
      ensures totalFrames == old(totalFrames) + 1 && totalBytes == old(totalBytes) + bytes
      ensures versionCounts == Bump(old(versionCounts), version)
      ensures messageCounts == Bump(old(messageCounts), message)
    {
      totalFrames := totalFrames + 1;
      totalBytes := totalBytes + bytes;
      versionCounts := versionCounts[version := Get(versionCounts, version, 0) + 1];
      messageCounts := messageCounts[message := Get(messageCounts, message, 0) + 1];
    }

    method MoveLink(system: uint8, sequence: uint8)
      modifies this`sysLastSeq, this`sysHasSeq
      ensures sysLastSeq == old(sysLastSeq)[system := sequence] && sysHasSeq == old(sysHasSeq)[system := true]
    {
      sysLastSeq := sysLastSeq[system := sequence];
      sysHasSeq := sysHasSeq[system := true];
    }

    method CountFrame(f: Frame, version: string, bytes: nat, ghost m: Statistics)
      requires Owned() && SourcesAre(m.sources) && CountersAre(m)
      modifies this`totalFrames, this`totalBytes, this`versionCounts, this`messageCounts
      modifies this`sysLastSeq, this`sysHasSeq
      ensures Owned() && SourcesAre(m.sources)
      ensures CountersAre(Metrics.CountFrame(m, f, version, bytes))
    {
      CountMessage(version, f.message, bytes);
      MoveLink(f.system, f.sequence);
    }

    /** The last sequence number on the link of a system. */
    method LinkOf(system: uint8) returns (link: Option<uint8>)
      requires Valid()
      ensures link == Link(st, system)
    {
      link := if Get(sysHasSeq, system, false) then Some(Get(sysLastSeq, system, 0)) else None;
    }

    method CountAndTake(f: Frame, version: string, bytes: nat, now: Time, link: Option<uint8>, ghost m: Statistics)
      returns (sm: SourceMetrics)
      requires Owned() && SourcesAre(m.sources) && CountersAre(m)
      modifies this`totalFrames, this`totalBytes, this`versionCounts, this`messageCounts
      modifies this`sysLastSeq, this`sysHasSeq, this`sources, this`repr, repr
      ensures Owned() && old(repr) <= repr && fresh(repr - old(repr))
      ensures f.Key() in sources && sm == sources[f.Key()]
      ensures CountersAre(Metrics.CountFrame(m, f, version, bytes))
      ensures SourcesAre(m.sources[f.Key() :=
                SourceAfterFrame(SourceOf(m, f.Key(), now), link, f.sequence, bytes, now)])
    {
      CountFrame(f, version, bytes, m);
      assert repr == old(repr);
      sm := SourceTakesFrame(f.Key(), link, f.sequence, bytes, now, m.sources);
    }

    /** The link is read before its new sequence number is written. */
    method RecordFrame(f: Frame, version: string, bytes: nat, now: Time) returns (sm: SourceMetrics)
      requires Valid()
      modifies this, repr
      ensures Valid() && old(repr) <= repr && fresh(repr - old(repr))
      ensures st == Metrics.RecordFrame(old(st), f, version, bytes, now)
      ensures f.Key() in sources && sm == sources[f.Key()]
    {
      var link := LinkOf(f.system);
      sm := CountAndTake(f, version, bytes, now, link, st);
      MoveTo(Metrics.RecordFrame(st, f, version, bytes, now));
    }

    method RecordHeartbeat(key: EndpointKey, autopilot: string, vehicle: string, status: string, now: Time)
      requires Valid()
      modifies this, repr
      ensures Valid() && old(repr) <= repr && fresh(repr - old(repr))
      ensures st == Metrics.RecordHeartbeat(old(st), key, autopilot, vehicle, status, now)
    {
      SourceTakesHeartbeat(key, autopilot, vehicle, status, now, st.sources);
      MoveTo(Metrics.RecordHeartbeat(st, key, autopilot, vehicle, status, now));
    }

    method Record(e: Event)
      requires Valid()
      modifies this, repr
      ensures Valid() && old(repr) <= repr && fresh(repr - old(repr))
      ensures st == Apply(old(st), e)
    {
      match e
      case FrameArrives(f, version, bytes, at) => var _ := RecordFrame(f, version, bytes, at);
      case HeartbeatArrives(key, autopilot, vehicle, status, at) =>
        RecordHeartbeat(key, autopilot, vehicle, status, at);
      case ParseErrorArrives(_) => RecordParseError();
    }

    /** Copies of all the records, under the texts of their keys. */
    method CopySources() returns (copy: map<string, SourceMetrics>, ghost objs: set<object>)
      requires Valid()
      ensures Within(copy, objs) && Shows(copy, st.sources, st.sources.Keys, objs) && fresh(objs)
    {
      copy, objs := map[], {};
      var todo := sources.Keys;
      ghost var done := {};
      while todo != {}
        invariant todo !! done && todo + done == sources.Keys
        invariant Within(copy, objs) && Shows(copy, st.sources, done, objs) && fresh(objs)
      {
        var k: EndpointKey :| k in todo;
        copy, objs := CopySource(sources[k], copy, st.sources, done, objs);
        todo, done := todo - {k}, done + {k};
      }
    }

    method Snapshot(now: Time) returns (g: GlobalMetrics, ghost objs: set<object>)
      requires Valid()
      ensures IsSnapshot(g, st, startTime, now, objs) && fresh(objs)
    {
      var elapsed := now - startTime;
      var versions := CopyCounts(versionCounts);
      var messages := CopyCounts(messageCounts);
      var copies: map<string, SourceMetrics>;
      copies, objs := CopySources();
      ShownIsNamed(copies, st.sources, st.sources.Keys, objs);
      var throughput, rate := 0.0, 0.0;
      if elapsed > 50 * MILLISECOND {
        throughput, rate := PerSecond(totalBytes, elapsed), PerSecond(totalFrames, elapsed);
      }
      g := GlobalMetrics(startTime, elapsed as real / SECOND as real, totalFrames, totalBytes, totalParseErrors,
                         versions, messages, copies, throughput, rate);
    }

    method MessageStats() returns (counts: map<string, nat>)
      requires Valid()
      ensures counts == st.messageCounts
    {
      counts := CopyCounts(messageCounts);
    }
  }

  /** One event of a run. */
  method RecordNext(t: Tracker, es: seq<Event>, i: nat)
    requires t.Valid() && i < |es| && t.st == Run(es[..i])
    modifies t, t.repr
    ensures t.Valid() && old(t.repr) <= t.repr && fresh(t.repr - old(t.repr))
    ensures t.st == Run(es[..i + 1])
  {
    RunStep(es, i);
    t.Record(es[i]);
  }

  /** The events of a run from the `n`th on. */
  method RecordFrom(t: Tracker, es: seq<Event>, n: nat)
    requires t.Valid() && n <= |es| && t.st == Run(es[..n])
    modifies t, t.repr
    ensures t.Valid() && old(t.repr) <= t.repr && fresh(t.repr - old(t.repr))
    ensures t.st == Run(es)
    decreases |es| - n
  {
    if n == |es| {
      assert es[..n] == es;
    } else {
      RecordNext(t, es, n);
      RecordFrom(t, es, n + 1);
    }
  }

  /** A tracker that records a run holds the statistics of the run. */
  method Track(es: seq<Event>, start: Time) returns (t: Tracker)
    ensures t.startTime == start && t.Valid() && fresh(t) && fresh(t.repr)
    ensures t.st == Run(es)
  {
    t := new Tracker(start);
    RecordFrom(t, es, 0);
  }

  /** Recording leaves a snapshot as it was. */
  method RecordBeside(t: Tracker, es: seq<Event>, n: nat, ghost g: GlobalMetrics, ghost m: Statistics, ghost now: Time,
                      ghost objs: set<object>)
    requires t.Valid() && n <= |es| && t.st == Run(es[..n])
    requires IsSnapshot(g, m, t.startTime, now, objs) && t !in objs && t.repr !! objs
    modifies t, t.repr
    ensures t.Valid() && t.st == Run(es)
    ensures IsSnapshot(g, m, t.startTime, now, objs)
  {
    RecordFrom(t, es, n);
  }

  /** A snapshot taken after `n` events still shows those events when the rest of the run
      has been recorded. */
  method SnapshotIsIsolated(es: seq<Event>, n: nat, start: Time, now: Time)
    returns (t: Tracker, g: GlobalMetrics, ghost objs: set<object>)
    requires n <= |es|
    ensures t.Valid() && t.st == Run(es)
    ensures IsSnapshot(g, Run(es[..n]), start, now, objs)
  {
    t := Track(es[..n], start);
    g, objs := t.Snapshot(now);
    RecordBeside(t, es, n, g, t.st, now, objs);
  }
}
