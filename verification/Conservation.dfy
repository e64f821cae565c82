/**
  Totals of the tracker: nothing is counted twice or lost between the global counters, the
  counters by version and message, and the sources; and the loss shown is bounded.
 */
module Conservation {
  import opened Wrappers
  import opened Metrics
  import opened MapSums

  ghost function FramesPer(m: Statistics): map<EndpointKey, nat> {
    map k | k in m.sources :: m.sources[k].totalFrames
  }

  ghost function BytesPer(m: Statistics): map<EndpointKey, nat> {
    map k | k in m.sources :: m.sources[k].totalBytes
  }

  ghost predicate Conserved(m: Statistics) {
    && m.totalFrames == Sum(m.versionCounts) == Sum(m.messageCounts) == Sum(FramesPer(m))
    && m.totalBytes == Sum(BytesPer(m))
  }

  /** A source counts at most 255 drops for each frame, and shows the percentage that its
      counters stand for. */
  ghost predicate LossShown(s: Source) {
    && s.droppedFrames <= 255 * s.totalFrames
    && s.packetLossPct * (s.totalFrames + s.droppedFrames) as real == 100.0 * s.droppedFrames as real
    && 0.0 <= s.packetLossPct <= 100.0 * 255.0 / 256.0
    && (s.totalFrames == 0 ==> s.packetLossPct == 0.0)
  }

  ghost predicate Sound(m: Statistics) {
    Conserved(m) && forall k <- m.sources :: LossShown(m.sources[k])
  }

  lemma Percentage(part: nat, whole: nat)
    requires whole > 0 && 256 * part <= 255 * whole
    ensures var pct := LossPct(part, whole);
            pct * whole as real == 100.0 * part as real && 0.0 <= pct <= 100.0 * 255.0 / 256.0
  {
    var x := part as real / whole as real;
    assert x * whole as real == part as real;
    if x > 255.0 / 256.0 {
      assert (x - 255.0 / 256.0) * whole as real > 0.0;
    }
  }

  lemma CountersAfterFrame(s: Source, link: Option<uint8>, sequence: uint8, bytes: nat, now: Time)
    ensures var t := SourceAfterFrame(s, link, sequence, bytes, now);
            && t.totalFrames == s.totalFrames + 1 && t.totalBytes == s.totalBytes + bytes
            && s.droppedFrames <= t.droppedFrames <= s.droppedFrames + 255
            && t.packetLossPct == LossPct(t.droppedFrames, t.totalFrames + t.droppedFrames)
  {}

  lemma FrameKeepsLoss(s: Source, link: Option<uint8>, sequence: uint8, bytes: nat, now: Time)
    requires LossShown(s)
    ensures LossShown(SourceAfterFrame(s, link, sequence, bytes, now))
  {
    var t := SourceAfterFrame(s, link, sequence, bytes, now);
    CountersAfterFrame(s, link, sequence, bytes, now);
    LossOfCounters(t);
  }

  lemma LossOfCounters(t: Source)
    requires t.totalFrames > 0 && t.droppedFrames <= 255 * t.totalFrames
    requires t.packetLossPct == LossPct(t.droppedFrames, t.totalFrames + t.droppedFrames)
    ensures LossShown(t)
  {
    Percentage(t.droppedFrames, t.totalFrames + t.droppedFrames);
  }

  lemma BumpAddsOne(m: map<string, nat>, k: string)
    ensures Sum(Bump(m, k)) == Sum(m) + 1
  {
    SumUpdate(m, k, Get(m, k, 0) + 1);
  }

  lemma SourceAdds(m: Statistics, m': Statistics, key: EndpointKey, after: Source, frames: nat, bytes: nat)
    requires m'.sources == m.sources[key := after]
    requires var before := if key in m.sources then m.sources[key] else NewSource(0);
             after.totalFrames == before.totalFrames + frames && after.totalBytes == before.totalBytes + bytes
    ensures Sum(FramesPer(m')) == Sum(FramesPer(m)) + frames
    ensures Sum(BytesPer(m')) == Sum(BytesPer(m)) + bytes
  {
    SumUpdate(FramesPer(m), key, after.totalFrames);
    SumUpdate(BytesPer(m), key, after.totalBytes);
    assert FramesPer(m') == FramesPer(m)[key := after.totalFrames];
    assert BytesPer(m') == BytesPer(m)[key := after.totalBytes];
  }

  lemma FrameIsSound(m: Statistics, f: Frame, version: string, bytes: nat, at: Time)
    requires Sound(m)
    ensures Sound(RecordFrame(m, f, version, bytes, at))
  {
    var m' := RecordFrame(m, f, version, bytes, at);
    BumpAddsOne(m.versionCounts, version);
    BumpAddsOne(m.messageCounts, f.message);
    SourceAdds(m, m', f.Key(), m'.sources[f.Key()], 1, bytes);
    FrameKeepsLoss(SourceOf(m, f.Key(), at), Link(m, f.system), f.sequence, bytes, at);
  }

  lemma HeartbeatIsSound(m: Statistics, e: Event)
    requires Sound(m) && e.HeartbeatArrives?
    ensures Sound(Apply(m, e))
  {
    var m' := Apply(m, e);
    SourceAdds(m, m', e.key, m'.sources[e.key], 0, 0);
  }

  /** In every run: the frames counted are those counted by version, by message and by
      source; the bytes are those of the sources; and no source shows more than 255/256
      loss. */
  lemma {:induction false} TotalsAreConserved(es: seq<Event>)
    ensures Sound(Run(es))
    decreases |es|
  {
    if es == [] {
      assert FramesPer(EMPTY) == map[] && BytesPer(EMPTY) == map[];
    } else {
      var m, e := Run(es[..|es| - 1]), es[|es| - 1];
      TotalsAreConserved(es[..|es| - 1]);
      match e
      case FrameArrives(f, version, bytes, at) => FrameIsSound(m, f, version, bytes, at);
      case HeartbeatArrives(_, _, _, _, _) => HeartbeatIsSound(m, e);
      case ParseErrorArrives(_) =>
        assert FramesPer(RecordParseError(m)) == FramesPer(m) && BytesPer(RecordParseError(m)) == BytesPer(m);
    }
  }
}
