/**
  Loss on the link of a system: the drops that the tracker spreads over a system's
  components add up to the gaps in the sequence numbers of the whole system.
 */
module LinkLoss {
  import opened Wrappers
  import opened Metrics
  import opened MapSums

  // ---------- The gaps of a sequence ----------

  /** The sequence numbers of a system's frames, in order of arrival. */
  function Sequences(es: seq<Event>, system: uint8): seq<uint8> {
    if es == [] then []
    else
      SequencesAfter(Sequences(es[..|es| - 1], system), es[|es| - 1], system)
  }

  function SequencesAfter(qs: seq<uint8>, e: Event, system: uint8): seq<uint8> {
    qs + if e.FrameArrives? && e.frame.system == system then [e.frame.sequence] else []
  }

  /** The sum of the gaps between consecutive numbers. */
  function Gaps(qs: seq<uint8>): nat {
    if |qs| < 2 then 0 else Gaps(qs[..|qs| - 1]) + Gap(qs[|qs| - 2], qs[|qs| - 1])
  }

  // ---------- Totals over the components of a system ----------

  ghost function DropsBySource(m: Statistics, system: uint8): map<EndpointKey, nat> {
    map k | k in m.sources && k.system == system :: m.sources[k].droppedFrames
  }

  ghost function FramesBySource(m: Statistics, system: uint8): map<EndpointKey, nat> {
    map k | k in m.sources && k.system == system :: m.sources[k].totalFrames
  }

  ghost function SystemDrops(m: Statistics, system: uint8): nat {
    Sum(DropsBySource(m, system))
  }

  ghost function SystemFrames(m: Statistics, system: uint8): nat {
    Sum(FramesBySource(m, system))
  }

  /** One source changes from `before`, or from nothing, to `after`. */
  ghost predicate Changes(m: Statistics, m': Statistics, key: EndpointKey, before: Source, after: Source) {
    && m'.sources == m.sources[key := after]
    && (if key in m.sources then before == m.sources[key] else before.droppedFrames == before.totalFrames == 0)
  }

  lemma DropsChange(m: Statistics, m': Statistics, key: EndpointKey, before: Source, after: Source)
    requires Changes(m, m', key, before, after)
    ensures SystemDrops(m', key.system) + before.droppedFrames == SystemDrops(m, key.system) + after.droppedFrames
  {
    SumUpdate(DropsBySource(m, key.system), key, after.droppedFrames);
    assert DropsBySource(m', key.system) == DropsBySource(m, key.system)[key := after.droppedFrames];
  }

  lemma FramesChange(m: Statistics, m': Statistics, key: EndpointKey, before: Source, after: Source)
    requires Changes(m, m', key, before, after)
    ensures SystemFrames(m', key.system) + before.totalFrames == SystemFrames(m, key.system) + after.totalFrames
  {
    SumUpdate(FramesBySource(m, key.system), key, after.totalFrames);
    assert FramesBySource(m', key.system) == FramesBySource(m, key.system)[key := after.totalFrames];
  }

  lemma OtherSystemKept(m: Statistics, m': Statistics, key: EndpointKey, before: Source, after: Source, system: uint8)
    requires Changes(m, m', key, before, after) && key.system != system
    ensures SystemDrops(m', system) == SystemDrops(m, system) && SystemFrames(m', system) == SystemFrames(m, system)
  {
    assert DropsBySource(m', system) == DropsBySource(m, system);
    assert FramesBySource(m', system) == FramesBySource(m, system);
  }

  lemma SourceChanges(m: Statistics, m': Statistics, key: EndpointKey, before: Source, after: Source, system: uint8)
    requires Changes(m, m', key, before, after)
    ensures key.system == system ==>
              SystemDrops(m', system) + before.droppedFrames == SystemDrops(m, system) + after.droppedFrames
              && SystemFrames(m', system) + before.totalFrames == SystemFrames(m, system) + after.totalFrames
    ensures key.system != system ==>
              SystemDrops(m', system) == SystemDrops(m, system) && SystemFrames(m', system) == SystemFrames(m, system)
  {
    if key.system == system {
      DropsChange(m, m', key, before, after);
      FramesChange(m, m', key, before, after);
    } else {
      OtherSystemKept(m, m', key, before, after, system);
    }
  }

  // ---------- The tracker computes the gaps ----------

  ghost predicate LinkMatches(m: Statistics, qs: seq<uint8>, system: uint8) {
    && Link(m, system) == (if qs == [] then None else Some(qs[|qs| - 1]))
    && SystemDrops(m, system) == Gaps(qs)
    && SystemFrames(m, system) == |qs|
  }

  lemma FrameMovesLink(m: Statistics, f: Frame, version: string, bytes: nat, at: Time, system: uint8)
    ensures Link(RecordFrame(m, f, version, bytes, at), system)
            == if f.system == system then Some(f.sequence) else Link(m, system)
  {}

  lemma FrameAddsGap(m: Statistics, f: Frame, version: string, bytes: nat, at: Time, system: uint8)
    ensures var m' := RecordFrame(m, f, version, bytes, at);
            var gap := if Link(m, system).Some? then Gap(Link(m, system).value, f.sequence) else 0;
            && SystemDrops(m', system) == SystemDrops(m, system) + (if f.system == system then gap else 0)
            && SystemFrames(m', system) == SystemFrames(m, system) + (if f.system == system then 1 else 0)
  {
    var m' := RecordFrame(m, f, version, bytes, at);
    SourceChanges(m, m', f.Key(), SourceOf(m, f.Key(), at), m'.sources[f.Key()], system);
  }

  lemma FrameExtends(m: Statistics, qs: seq<uint8>, f: Frame, version: string, bytes: nat, at: Time, system: uint8)
    requires LinkMatches(m, qs, system)
    ensures LinkMatches(RecordFrame(m, f, version, bytes, at),
                        if f.system == system then qs + [f.sequence] else qs, system)
  {
    FrameMovesLink(m, f, version, bytes, at, system);
    FrameAddsGap(m, f, version, bytes, at, system);
    if f.system == system {
      assert (qs + [f.sequence])[..|qs|] == qs;
    }
  }

  lemma HeartbeatKeeps(m: Statistics, qs: seq<uint8>, e: Event, system: uint8)
    requires LinkMatches(m, qs, system) && e.HeartbeatArrives?
    ensures LinkMatches(Apply(m, e), qs, system)
  {
    var m' := Apply(m, e);
    SourceChanges(m, m', e.key, SourceOf(m, e.key, e.at), m'.sources[e.key], system);
  }

  lemma ParseErrorKeeps(m: Statistics, qs: seq<uint8>, system: uint8)
    requires LinkMatches(m, qs, system)
    ensures LinkMatches(RecordParseError(m), qs, system)
  {
    assert DropsBySource(RecordParseError(m), system) == DropsBySource(m, system);
    assert FramesBySource(RecordParseError(m), system) == FramesBySource(m, system);
  }

  lemma EmptyMatches(system: uint8)
    ensures LinkMatches(EMPTY, [], system)
  {
    assert DropsBySource(EMPTY, system) == map[] && FramesBySource(EMPTY, system) == map[];
  }

  lemma EventExtends(m: Statistics, qs: seq<uint8>, e: Event, system: uint8)
    requires LinkMatches(m, qs, system)
    ensures LinkMatches(Apply(m, e), SequencesAfter(qs, e, system), system)
  {
    match e
    case FrameArrives(f, version, bytes, at) =>
      FrameExtends(m, qs, f, version, bytes, at, system);
      assert qs + [] == qs;
    case HeartbeatArrives(_, _, _, _, _) =>
      HeartbeatKeeps(m, qs, e, system);
      assert qs + [] == qs;
    case ParseErrorArrives(_) =>
      ParseErrorKeeps(m, qs, system);
      assert qs + [] == qs;
  }

  /** For every run the drops of a system, over all its components, are the gaps in its
      sequence numbers, and its frames are as many as those numbers. */
  lemma {:induction false} DropsAreGaps(es: seq<Event>, system: uint8)
    ensures LinkMatches(Run(es), Sequences(es, system), system)
    decreases |es|
  {
    if es == [] {
      EmptyMatches(system);
    } else {
      var front, e := es[..|es| - 1], es[|es| - 1];
      DropsAreGaps(front, system);
      EventExtends(Run(front), Sequences(front, system), e, system);
    }
  }

  // ---------- Whatever the arrivals ----------

  lemma GapWithoutModulus(a: uint8, b: uint8)
    ensures Gap(a, b) == if b > a then b - a - 1 else 255 - (a - b)
  {}

  lemma {:induction false} GapsTelescope(qs: seq<uint8>) returns (t: int)
    requires qs != []
    ensures Gaps(qs) + |qs| - 1 == qs[|qs| - 1] as int - qs[0] as int + 256 * t
    decreases |qs|
  {
    t := 0;
    if |qs| > 1 {
      var a, b := qs[|qs| - 2], qs[|qs| - 1];
      GapWithoutModulus(a, b);
      t := GapsTelescope(qs[..|qs| - 1]);
      t := if b > a then t else t + 1;
    }
  }

  lemma SameRemainder(a: int, b: int, t: int)
    requires a == b + 256 * t
    ensures a % 256 == b % 256
  {}

  lemma GapsTelescopeModulo(qs: seq<uint8>)
    requires qs != []
    ensures (Gaps(qs) + |qs| - 1) % 256 == (qs[|qs| - 1] as int - qs[0] as int) % 256
  {
    var t := GapsTelescope(qs);
    SameRemainder(Gaps(qs) + |qs| - 1, qs[|qs| - 1] as int - qs[0] as int, t);
  }

  /** For arbitrary arrivals, lost, reordered or doubled, drops and frames together count
      the distance from the first to the last sequence number, modulo 256. */
  lemma DropsTelescope(es: seq<Event>, system: uint8, qs: seq<uint8>)
    requires qs == Sequences(es, system) != []
    ensures (SystemDrops(Run(es), system) + SystemFrames(Run(es), system) - 1) % 256
            == (qs[|qs| - 1] as int - qs[0] as int) % 256
  {
    DropsAreGaps(es, system);
    GapsTelescopeModulo(qs);
  }

  /** Which component a frame came from does not matter to its system's total. */
  lemma ComponentsDoNotMatter(es: seq<Event>, es': seq<Event>, system: uint8)
    requires Sequences(es, system) == Sequences(es', system)
    ensures SystemDrops(Run(es), system) == SystemDrops(Run(es'), system)
  {
    DropsAreGaps(es, system);
    DropsAreGaps(es', system);
  }

  /** The run with every component replaced. */
  function Relabel(es: seq<Event>, rename: (uint8, uint8) -> uint8): seq<Event> {
    if es == [] then []
    else
      var e := es[|es| - 1];
      Relabel(es[..|es| - 1], rename) + [
        match e
        case FrameArrives(f, v, b, at) => FrameArrives(f.(component := rename(f.system, f.component)), v, b, at)
        case HeartbeatArrives(k, a, v, s, at) =>
          HeartbeatArrives(k.(component := rename(k.system, k.component)), a, v, s, at)
        case ParseErrorArrives(_) => e]
  }

  lemma {:induction false} RelabelKeepsSequences(es: seq<Event>, rename: (uint8, uint8) -> uint8, system: uint8)
    ensures Sequences(Relabel(es, rename), system) == Sequences(es, system)
    decreases |es|
  {
    if es != [] {
      RelabelKeepsSequences(es[..|es| - 1], rename, system);
      var r := Relabel(es, rename);
      assert r[..|r| - 1] == Relabel(es[..|es| - 1], rename);
    }
  }

  lemma RelabelKeepsDrops(es: seq<Event>, rename: (uint8, uint8) -> uint8, system: uint8)
    ensures SystemDrops(Run(Relabel(es, rename)), system) == SystemDrops(Run(es), system)
  {
    RelabelKeepsSequences(es, rename, system);
    ComponentsDoNotMatter(Relabel(es, rename), es, system);
  }

  // ---------- Frames with true numbers, in any order ----------

  /** The frames were the sender's number indices[0], indices[1], ..., in order of arrival;
      the sequence number is the number of the frame modulo 256 (the SEQ field of the MAVLink
      packet formats). */
  ghost predicate Numbered(qs: seq<uint8>, indices: seq<nat>) {
    |qs| == |indices| && forall j :: 0 <= j < |qs| ==> qs[j] == indices[j] % 256
  }

  /** The frames that lie between the first and the last received, less those that came. */
  function Lost(indices: seq<nat>): int
    requires indices != []
  {
    indices[|indices| - 1] - indices[0] + 1 - |indices|
  }

  /** How often the sequence numbers went round unnoticed: for each frame, the number of
      whole turns in the frames it skips, rounded down, and so negative for a frame that does
      not come after the one before it. */
  function Turns(indices: seq<nat>): int {
    if |indices| < 2 then 0
    else
      var n := |indices| - 1;
      Turns(indices[..n]) + (indices[n] as int - indices[n - 1] - 1) / 256
  }

  lemma RemainderIs(d: int, k: int, r: int)
    requires d == 256 * k + r && 0 <= r < 256
    ensures d % 256 == r && d / 256 == k
  {}

  lemma GapOfIndices(i: nat, j: nat)
    ensures Gap(i % 256, j % 256) == (j - i - 1) % 256
  {
    var p, a, q, b := i / 256, i % 256, j / 256, j % 256;
    GapWithoutModulus(a, b);
    RemainderIs(j - i - 1, if b > a then q - p else q - p - 1, Gap(a, b));
  }

  lemma {:induction false} GapsOfIndices(qs: seq<uint8>, indices: seq<nat>)
    requires qs != [] && Numbered(qs, indices)
    ensures Gaps(qs) == Lost(indices) - 256 * Turns(indices)
    decreases |qs|
  {
    if |qs| > 1 {
      var n := |qs| - 1;
      GapsOfIndices(qs[..n], indices[..n]);
      GapOfIndices(indices[n - 1], indices[n]);
    }
  }

  /** Whatever the order of arrival, and whatever was lost or doubled: the drops of a system
      are the frames that its numbers say are missing, less 256 for every whole turn. */
  lemma LossLaw(es: seq<Event>, system: uint8, indices: seq<nat>)
    requires indices != [] && Numbered(Sequences(es, system), indices)
    ensures SystemDrops(Run(es), system) == Lost(indices) - 256 * Turns(indices)
  {
    DropsAreGaps(es, system);
    GapsOfIndices(Sequences(es, system), indices);
  }

  lemma SequencesOfOneMore(es: seq<Event>, e: Event)
    requires e.FrameArrives?
    ensures Sequences(es + [e], e.frame.system) == Sequences(es, e.frame.system) + [e.frame.sequence]
  {
    assert (es + [e])[..|es|] == es;
  }

  lemma TurnsAddUp(lost: int, turns: int, d: int)
    ensures (lost + d) - 256 * (turns + d / 256) == lost - 256 * turns + d % 256
  {
    var q, r := d / 256, d % 256;
    assert d == 256 * q + r;
  }

  lemma OneMore(indices: seq<nat>, i: nat)
    requires indices != []
    ensures var skipped, more := i - indices[|indices| - 1] - 1, indices + [i];
            Lost(more) == Lost(indices) + skipped && Turns(more) == Turns(indices) + skipped / 256
  {
    var more, n := indices + [i], |indices|;
    assert more[..n] == indices && more[n] == i && more[n - 1] == indices[n - 1] && more[0] == indices[0];
  }

  lemma TurnsOfOneMore(indices: seq<nat>, i: nat)
    requires indices != []
    ensures var skipped, more := i - indices[|indices| - 1] - 1, indices + [i];
            Lost(more) - 256 * Turns(more) == Lost(indices) - 256 * Turns(indices) + skipped % 256
  {
    OneMore(indices, i);
    TurnsAddUp(Lost(indices), Turns(indices), i - indices[|indices| - 1] - 1);
  }

  /** What the next frame of the system adds: the frames it skips, modulo 256. */
  lemma NextFrameAdds(es: seq<Event>, e: Event, indices: seq<nat>, i: nat)
    requires e.FrameArrives? && e.frame.sequence == i % 256
    requires indices != [] && Numbered(Sequences(es, e.frame.system), indices)
    ensures SystemDrops(Run(es + [e]), e.frame.system)
            == SystemDrops(Run(es), e.frame.system) + (i - indices[|indices| - 1] - 1) % 256
  {
    LossLaw(es, e.frame.system, indices);
    SequencesOfOneMore(es, e);
    LossLaw(es + [e], e.frame.system, indices + [i]);
    TurnsOfOneMore(indices, i);
  }

  lemma SkippedBackward(last: nat, back: nat)
    requires back < 256 && back <= last
    ensures ((last - back) - last - 1) % 256 == 255 - back
  {}

  /** A frame that comes again at once adds 255, and one that is `back` numbers behind the
      last, but less than a turn, adds 255 - back. */
  lemma BackwardFrameAdds(es: seq<Event>, e: Event, indices: seq<nat>, back: nat)
    requires indices != [] && back < 256 && back <= indices[|indices| - 1]
    requires e.FrameArrives? && e.frame.sequence == (indices[|indices| - 1] - back) % 256
    requires Numbered(Sequences(es, e.frame.system), indices)
    ensures SystemDrops(Run(es + [e]), e.frame.system) == SystemDrops(Run(es), e.frame.system) + 255 - back
  {
    var last := indices[|indices| - 1];
    NextFrameAdds(es, e, indices, last - back);
    SkippedBackward(last, back);
  }

  // ---------- In order and without duplicates ----------

  ghost predicate Increasing(indices: seq<nat>) {
    forall j :: 0 < j < |indices| ==> indices[j - 1] < indices[j]
  }

  /** No more than 255 frames in a row were lost. */
  ghost predicate ShortLosses(indices: seq<nat>) {
    forall j :: 0 < j < |indices| ==> indices[j] <= indices[j - 1] + 256
  }

  lemma {:induction false} IncreasingTurns(indices: seq<nat>)
    requires Increasing(indices)
    ensures Turns(indices) >= 0 && (Turns(indices) == 0 <==> ShortLosses(indices))
    decreases |indices|
  {
    if |indices| >= 2 {
      var n := |indices| - 1;
      IncreasingTurns(indices[..n]);
      ShortLossesSplit(indices);
    }
  }

  lemma ShortLossesSplit(indices: seq<nat>)
    requires |indices| >= 2
    ensures var n := |indices| - 1;
            ShortLosses(indices) <==> ShortLosses(indices[..n]) && indices[n] <= indices[n - 1] + 256
  {
    var n := |indices| - 1;
    var front := indices[..n];
    if ShortLosses(indices) {
      forall j | 0 < j < n ensures front[j] <= front[j - 1] + 256 {
        assert indices[j] <= indices[j - 1] + 256;
      }
    }
    if ShortLosses(front) && indices[n] <= indices[n - 1] + 256 {
      forall j | 0 < j <= n ensures indices[j] <= indices[j - 1] + 256 {
        if j < n {
          assert front[j] <= front[j - 1] + 256;
        }
      }
    }
  }

  /** When a system's frames arrive in order and without duplicates, the drops counted never
      exceed the frames truly lost and differ from them by a multiple of 256; they are
      exact if and only if no more than 255 frames in a row were lost. */
  lemma LossIsExactIff(es: seq<Event>, system: uint8, indices: seq<nat>)
    requires indices != [] && Numbered(Sequences(es, system), indices) && Increasing(indices)
    ensures var drops := SystemDrops(Run(es), system);
            && drops <= Lost(indices) && (Lost(indices) - drops) % 256 == 0
            && (drops == Lost(indices) <==> ShortLosses(indices))
  {
    LossLaw(es, system, indices);
    IncreasingTurns(indices);
    SameRemainder(Lost(indices) - SystemDrops(Run(es), system), 0, Turns(indices));
  }
}
