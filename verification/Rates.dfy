/**
  The rates a source shows are those of its counters over its time of life.
 */
module Rates {
  import opened Wrappers
  import opened Metrics

  /** Rates are shown only for a source seen for more than 50 milliseconds. */
  ghost predicate Rated(s: Source, now: Time) {
    var life := s.lastSeen - s.firstSeen;
    && s.firstSeen <= s.lastSeen == s.lastArrivalTime <= now
    && if life > 50 * MILLISECOND then
         && s.msgRateHz * life as real == (s.totalFrames * SECOND) as real
         && s.dataRateBytesSec * life as real == (s.totalBytes * SECOND) as real
       else s.msgRateHz == s.dataRateBytesSec == 0.0
  }

  lemma PerSecondTimesLife(amount: nat, life: int)
    requires life > 0
    ensures PerSecond(amount, life) * life as real == (amount * SECOND) as real
  {
    var seconds := life as real / SECOND as real;
    assert seconds * SECOND as real == life as real;
    var rate := amount as real / seconds;
    assert rate * seconds == amount as real;
    assert rate * (seconds * SECOND as real) == rate * seconds * SECOND as real;
  }

  lemma FrameKeepsRates(s: Source, link: Option<uint8>, sequence: uint8, bytes: nat, now: Time)
    requires Rated(s, now)
    ensures Rated(SourceAfterFrame(s, link, sequence, bytes, now), now)
  {
    var life := now - s.firstSeen;
    if life > 50 * MILLISECOND {
      PerSecondTimesLife(s.totalFrames + 1, life);
      PerSecondTimesLife(s.totalBytes + bytes, life);
    }
  }

  lemma EventKeepsRates(m: Statistics, e: Event)
    requires forall k <- m.sources :: Rated(m.sources[k], e.at)
    ensures forall k <- Apply(m, e).sources :: Rated(Apply(m, e).sources[k], e.at)
  {
    if e.FrameArrives? {
      FrameKeepsRates(SourceOf(m, e.frame.Key(), e.at), Link(m, e.frame.system), e.frame.sequence, e.bytes, e.at);
    }
  }

  /** In every run the rates of every source, times its life, are its counters. */
  lemma {:induction false} RatesAreShown(es: seq<Event>, now: Time)
    requires Monotone(es) && (es != [] ==> es[|es| - 1].at <= now)
    ensures forall k <- Run(es).sources :: Rated(Run(es).sources[k], now)
    decreases |es|
  {
    if es != [] {
      var front, e := es[..|es| - 1], es[|es| - 1];
      if front != [] {
        assert front[|front| - 1].at == es[|es| - 2].at <= e.at;
      }
      RatesAreShown(front, e.at);
      EventKeepsRates(Run(front), e);
    }
  }
}
