/**
  Snapshots of the tracker: copies of the records, under the printed form of their keys.
 */
module MetricsSnapshot {
  import opened Metrics
  import opened MetricsRecords
  import opened Text

  datatype GlobalMetrics = GlobalMetrics(
    startTime: Time,
    durationSeconds: real,
    totalFrames: nat,
    totalBytes: nat,
    totalParseErrors: nat,
    versionCounts: map<string, nat>,
    messageCounts: map<string, nat>,
    sources: map<string, SourceMetrics>,
    overallThroughputBps: real,
    overallMsgRateHz: real
  )

  /** "sys/comp". */
  function KeyText(k: EndpointKey): string {
    Decimal(k.system) + ['/'] + Decimal(k.component)
  }

  /** The text is two numbers with a slash between them: of the system, and of the component. */
  ghost predicate Reads(t: string, system: nat, component: nat) {
    exists i: nat :: 0 < i < |t| - 1 && t[i] == '/' && AllDigits(t[..i]) && AllDigits(t[i + 1..])
      && ValueOf(t[..i]) == system && ValueOf(t[i + 1..]) == component
  }

  lemma KeyTextReads(k: EndpointKey)
    ensures Reads(KeyText(k), k.system, k.component)
  {
    var t, i := KeyText(k), |Decimal(k.system)|;
    DecimalRoundTrip(k.system);
    DecimalRoundTrip(k.component);
    assert t[..i] == Decimal(k.system) && t[i + 1..] == Decimal(k.component);
  }

  /** Different sources have different texts. */
  lemma KeyTextIsInjective(k: EndpointKey, l: EndpointKey)
    requires KeyText(k) == KeyText(l)
    ensures k == l
  {
    DecimalRoundTrip(k.system);
    DecimalRoundTrip(k.component);
    DecimalRoundTrip(l.system);
    DecimalRoundTrip(l.component);
    JoinedDigits(Decimal(k.system), Decimal(k.component), Decimal(l.system), Decimal(l.component), '/');
  }

  ghost function Texts(keys: set<EndpointKey>): set<string> {
    set k | k in keys :: KeyText(k)
  }

  /** All the objects that can be reached from the copies are in `objs`. */
  ghost predicate Within(copy: map<string, SourceMetrics>, objs: set<object>)
    reads objs
  {
    forall t <- copy :: copy[t] in objs && (copy[t].heartbeatStats != null ==> copy[t].heartbeatStats in objs)
  }

  /** The copies show the sources `keys` of `ss`: one for each, with its statistics, and no
      others. */
  ghost predicate Shows(copy: map<string, SourceMetrics>, ss: map<EndpointKey, Source>, keys: set<EndpointKey>,
                        objs: set<object>)
    requires Within(copy, objs) && keys <= ss.Keys
    reads objs
  {
    && copy.Keys == Texts(keys)
    && forall k <- keys :: KeyText(k) in copy && copy[KeyText(k)].View() == ss[k] && copy[KeyText(k)].Key() == k
  }

  /** The text under which a source is shown gives its system and its component. */
  ghost predicate Named(copy: map<string, SourceMetrics>) {
    forall t <- copy :: Reads(t, copy[t].system, copy[t].component)
  }

  lemma ShownIsNamed(copy: map<string, SourceMetrics>, ss: map<EndpointKey, Source>, keys: set<EndpointKey>,
                     objs: set<object>)
    requires Within(copy, objs) && keys <= ss.Keys && Shows(copy, ss, keys, objs)
    ensures Named(copy)
  {
    forall t | t in copy ensures Reads(t, copy[t].system, copy[t].component) {
      var k :| k in keys && t == KeyText(k);
      KeyTextReads(k);
    }
  }

  ghost predicate IsSnapshot(g: GlobalMetrics, m: Statistics, start: Time, now: Time, objs: set<object>)
    reads objs
  {
    var elapsed := now - start;
    && Within(g.sources, objs) && Shows(g.sources, m.sources, m.sources.Keys, objs) && Named(g.sources)
    && g.totalFrames == m.totalFrames && g.totalBytes == m.totalBytes && g.totalParseErrors == m.totalParseErrors
    && g.versionCounts == m.versionCounts && g.messageCounts == m.messageCounts
    && g.startTime == start && g.durationSeconds == elapsed as real / SECOND as real
    && g.overallThroughputBps == (if elapsed > 50 * MILLISECOND then PerSecond(m.totalBytes, elapsed) else 0.0)
    && g.overallMsgRateHz == (if elapsed > 50 * MILLISECOND then PerSecond(m.totalFrames, elapsed) else 0.0)
  }

  /** The text of a new key is new. */
  lemma NewText(keys: set<EndpointKey>, k: EndpointKey)
    requires k !in keys
    ensures KeyText(k) !in Texts(keys) && Texts(keys + {k}) == Texts(keys) + {KeyText(k)}
  {
    forall l | l in keys ensures KeyText(l) != KeyText(k) {
      if KeyText(l) == KeyText(k) {
        KeyTextIsInjective(l, k);
      }
    }
  }

  /** One more record is copied. */
  method CopySource(s: SourceMetrics, copy: map<string, SourceMetrics>, ghost ss: map<EndpointKey, Source>,
                    ghost keys: set<EndpointKey>, ghost objs: set<object>)
    returns (copy': map<string, SourceMetrics>, ghost objs': set<object>)
    requires keys <= ss.Keys && Within(copy, objs) && Shows(copy, ss, keys, objs)
    requires s.Key() in ss && s.Key() !in keys && s.View() == ss[s.Key()]
    ensures objs <= objs' && fresh(objs' - objs)
    ensures Within(copy', objs') && Shows(copy', ss, keys + {s.Key()}, objs')
  {
    var c := new SourceMetrics.DeepCopy(s);
    copy' := copy[KeyText(s.Key()) := c];
    objs' := objs + {c} + if c.heartbeatStats == null then {} else {c.heartbeatStats};
    NewText(keys, s.Key());
  }

  /** The loop that copies a map of counters. */
  method CopyCounts(counts: map<string, nat>) returns (copy: map<string, nat>)
    ensures copy == counts
  {
    copy := map[];
    var todo := counts.Keys;
    while todo != {}
      invariant todo <= counts.Keys && copy.Keys == counts.Keys - todo
      invariant forall k <- copy :: copy[k] == counts[k]
    {
      var k: string :| k in todo;
      copy := copy[k := counts[k]];
      todo := todo - {k};
    }
  }
}
