/**
  Loss of a single component.  The link state is kept for each system, so the drops of a
  component are the gaps in its own numbers only as long as no other component of the
  system has sent before it.
 */
module ComponentLoss {
  import opened Wrappers
  import opened Metrics
  import opened LinkLoss

  /** The sequence numbers of one component's frames. */
  function OwnSequences(es: seq<Event>, key: EndpointKey): seq<uint8> {
    if es == [] then [] else OwnAfter(OwnSequences(es[..|es| - 1], key), es[|es| - 1], key)
  }

  function OwnAfter(qs: seq<uint8>, e: Event, key: EndpointKey): seq<uint8> {
    qs + if IsFrameOf(e, key) then [e.frame.sequence] else []
  }

  function Drops(m: Statistics, key: EndpointKey): nat {
    Get(m.sources, key, NewSource(0)).droppedFrames
  }

  /** The component that sent the last frame of a system. */
  function LastSender(es: seq<Event>, system: uint8): Option<uint8> {
    if es == [] then None
    else
      var e := es[|es| - 1];
      if e.FrameArrives? && e.frame.system == system then Some(e.frame.component)
      else LastSender(es[..|es| - 1], system)
  }

  /** The component's frames come before those of all other components of its system. */
  predicate Leads(es: seq<Event>, key: EndpointKey) {
    es == [] ||
    (var front, e := es[..|es| - 1], es[|es| - 1];
     && Leads(front, key)
     && (IsFrameOf(e, key) ==> LastSender(front, key.system) in {None, Some(key.component)}))
  }

  // ---------- A component that leads is counted exactly ----------

  ghost predicate Follows(m: Statistics, qs: seq<uint8>, last: Option<uint8>, key: EndpointKey) {
    && Drops(m, key) == Gaps(qs)
    && (last == None ==> Link(m, key.system) == None && qs == [])
    && (last == Some(key.component) ==> qs != [] && Link(m, key.system) == Some(qs[|qs| - 1]))
  }

  lemma EventKeepsFollowing(m: Statistics, qs: seq<uint8>, last: Option<uint8>, e: Event, key: EndpointKey)
    requires Follows(m, qs, last, key)
    requires IsFrameOf(e, key) ==> last in {None, Some(key.component)}
    ensures var last' := if e.FrameArrives? && e.frame.system == key.system then Some(e.frame.component) else last;
            Follows(Apply(m, e), OwnAfter(qs, e, key), last', key)
  {
    if IsFrameOf(e, key) {
      assert (qs + [e.frame.sequence])[..|qs|] == qs;
    } else {
      assert qs + [] == qs;
    }
  }

  lemma {:induction false} LeaderIsExact(es: seq<Event>, key: EndpointKey)
    requires Leads(es, key)
    ensures Follows(Run(es), OwnSequences(es, key), LastSender(es, key.system), key)
    decreases |es|
  {
    if es != [] {
      var front, e := es[..|es| - 1], es[|es| - 1];
      LeaderIsExact(front, key);
      EventKeepsFollowing(Run(front), OwnSequences(front, key), LastSender(front, key.system), e, key);
    }
  }

  // ---------- One that does not lead can be miscounted ----------

  /** The same event, except that a frame may have another number. */
  predicate SameButNumber(e: Event, e': Event) {
    e == e' || (e.FrameArrives? && e'.FrameArrives? && e' == e.(frame := e.frame.(sequence := e'.frame.sequence)))
  }

  ghost predicate SameSenders(es: seq<Event>, es': seq<Event>) {
    |es| == |es'| && forall i :: 0 <= i < |es| ==> SameButNumber(es[i], es'[i])
  }

  lemma {:induction false} NumbersDoNotLead(es: seq<Event>, es': seq<Event>, key: EndpointKey)
    requires SameSenders(es, es')
    ensures Leads(es, key) <==> Leads(es', key)
    ensures LastSender(es, key.system) == LastSender(es', key.system)
    decreases |es|
  {
    if es != [] {
      assert SameButNumber(es[|es| - 1], es'[|es| - 1]);
      NumbersDoNotLead(es[..|es| - 1], es'[..|es| - 1], key);
    }
  }

  /** The component counts its frames up from 0, and the others of its system always repeat
      the number that is its next. */
  function Renumbered(e: Event, n: nat, key: EndpointKey): Event {
    if e.FrameArrives? && e.frame.system == key.system then e.(frame := e.frame.(sequence := n % 256)) else e
  }

  function Renumber(es: seq<Event>, key: EndpointKey): seq<Event> {
    if es == [] then []
    else
      var front := Renumber(es[..|es| - 1], key);
      front + [Renumbered(es[|es| - 1], |OwnSequences(front, key)|, key)]
  }

  ghost predicate Miscounts(m: Statistics, qs: seq<uint8>, last: Option<uint8>, key: EndpointKey, leads: bool) {
    && Gaps(qs) == 0 && (qs != [] ==> qs[|qs| - 1] == (|qs| - 1) % 256)
    && (Drops(m, key) == 0 <==> leads)
    && (last == None ==> Link(m, key.system) == None && qs == [])
    && (last == Some(key.component) ==> qs != [] && Link(m, key.system) == Some(qs[|qs| - 1]))
    && (last.Some? && last.value != key.component ==> Link(m, key.system) == Some(|qs| % 256))
  }

  /** The frame number `n` of the component counts nothing after its own last frame, and 255
      after another component's. */
  lemma NextGap(link: uint8, n: nat, own: bool)
    requires own ==> n > 0 && link == (n - 1) % 256
    requires !own ==> link == n % 256
    ensures Gap(link, n % 256) == if own then 0 else 255
  {}

  /** What an event does to the drops of a component and to the link of its system. */
  lemma EventMovesLink(m: Statistics, e: Event, key: EndpointKey)
    ensures var link := Link(m, key.system);
            Drops(Apply(m, e), key) ==
              Drops(m, key) + if IsFrameOf(e, key) && link.Some? then Gap(link.value, e.frame.sequence) else 0
    ensures Link(Apply(m, e), key.system) ==
              if e.FrameArrives? && e.frame.system == key.system then Some(e.frame.sequence) else Link(m, key.system)
  {}

  /** The component's own numbers have no gap. */
  lemma GapsAfterOwn(qs: seq<uint8>)
    requires Gaps(qs) == 0 && (qs != [] ==> qs[|qs| - 1] == (|qs| - 1) % 256)
    ensures Gaps(qs + [|qs| % 256]) == 0
  {
    assert (qs + [|qs| % 256])[..|qs|] == qs;
    if qs != [] {
      NextGap(qs[|qs| - 1], |qs|, true);
    }
  }

  lemma OwnFrameMiscounts(m: Statistics, qs: seq<uint8>, last: Option<uint8>, key: EndpointKey, leads: bool, e: Event)
    requires Miscounts(m, qs, last, key, leads) && IsFrameOf(e, key) && e.frame.sequence == |qs| % 256
    ensures Miscounts(Apply(m, e), qs + [e.frame.sequence], Some(key.component), key,
                      leads && last in {None, Some(key.component)})
  {
    EventMovesLink(m, e, key);
    var link, n := Link(m, key.system), |qs|;
    if last.Some? {
      NextGap(link.value, n, last.value == key.component);
    }
    GapsAfterOwn(qs);
  }

  lemma OtherEventMiscounts(m: Statistics, qs: seq<uint8>, last: Option<uint8>, key: EndpointKey, leads: bool, e: Event)
    requires Miscounts(m, qs, last, key, leads) && !IsFrameOf(e, key)
    requires e.FrameArrives? && e.frame.system == key.system ==> e.frame.sequence == |qs| % 256
    ensures var last' := if e.FrameArrives? && e.frame.system == key.system then Some(e.frame.component) else last;
            Miscounts(Apply(m, e), qs, last', key, leads)
  {
    EventMovesLink(m, e, key);
  }

  lemma EventKeepsMiscounting(m: Statistics, qs: seq<uint8>, last: Option<uint8>, key: EndpointKey, leads: bool,
                              e: Event)
    requires Miscounts(m, qs, last, key, leads)
    ensures var e' := Renumbered(e, |qs|, key);
            var last' := if e.FrameArrives? && e.frame.system == key.system then Some(e.frame.component) else last;
            var leads' := leads && (IsFrameOf(e, key) ==> last in {None, Some(key.component)});
            Miscounts(Apply(m, e'), OwnAfter(qs, e', key), last', key, leads')
  {
    var e' := Renumbered(e, |qs|, key);
    if IsFrameOf(e, key) {
      OwnFrameMiscounts(m, qs, last, key, leads, e');
    } else {
      OtherEventMiscounts(m, qs, last, key, leads, e');
      assert qs + [] == qs;
    }
  }

  lemma {:induction false} RenumberKeepsSenders(es: seq<Event>, key: EndpointKey)
    ensures SameSenders(es, Renumber(es, key))
    decreases |es|
  {
    if es != [] {
      RenumberKeepsSenders(es[..|es| - 1], key);
    }
  }

  lemma AppendEvent(es: seq<Event>, e: Event, key: EndpointKey)
    ensures Run(es + [e]) == Apply(Run(es), e)
    ensures OwnSequences(es + [e], key) == OwnAfter(OwnSequences(es, key), e, key)
  {
    assert (es + [e])[..|es|] == es;
  }

  /** The prefix of a run has been renumbered, and now its last event. */
  lemma RenumberLast(es: seq<Event>, key: EndpointKey, front: seq<Event>, front': seq<Event>)
    requires es != [] && front == es[..|es| - 1] && front' == Renumber(front, key)
    requires Miscounts(Run(front'), OwnSequences(front', key), LastSender(front, key.system), key, Leads(front, key))
    ensures Miscounts(Run(Renumber(es, key)), OwnSequences(Renumber(es, key), key), LastSender(es, key.system), key,
                      Leads(es, key))
  {
    var e, qs := es[|es| - 1], OwnSequences(front', key);
    EventKeepsMiscounting(Run(front'), qs, LastSender(front, key.system), key, Leads(front, key), e);
    AppendEvent(front', Renumbered(e, |qs|, key), key);
  }

  lemma {:induction false} RenumberMiscounts(es: seq<Event>, key: EndpointKey)
    ensures Miscounts(Run(Renumber(es, key)), OwnSequences(Renumber(es, key), key), LastSender(es, key.system), key,
                      Leads(es, key))
    decreases |es|
  {
    if es != [] {
      RenumberMiscounts(es[..|es| - 1], key);
      RenumberLast(es, key, es[..|es| - 1], Renumber(es[..|es| - 1], key));
    }
  }

  /** Whatever numbers the frames carry, a component's drops are the gaps in its own numbers:
      this holds exactly when its frames come before those of the other components of its
      system. */
  lemma ComponentIsExactIff(es: seq<Event>, key: EndpointKey)
    ensures (forall es' :: SameSenders(es, es') ==> Drops(Run(es'), key) == Gaps(OwnSequences(es', key)))
            <==> Leads(es, key)
  {
    if Leads(es, key) {
      forall es' | SameSenders(es, es') ensures Drops(Run(es'), key) == Gaps(OwnSequences(es', key)) {
        NumbersDoNotLead(es, es', key);
        LeaderIsExact(es', key);
      }
    } else {
      RenumberKeepsSenders(es, key);
      RenumberMiscounts(es, key);
    }
  }

  /** Two components that each send their first frame, number 0: 255 drops are counted for
      the second, though it lost none. */
  lemma SecondSenderMiscounts(system: uint8, a: uint8, b: uint8) returns (es: seq<Event>)
    requires a != b
    ensures |es| == 2 && (forall i :: 0 <= i < 2 ==> es[i].FrameArrives? && es[i].frame.sequence == 0)
    ensures var key := EndpointKey(system, b);
            IsFrameOf(es[0], EndpointKey(system, a)) && IsFrameOf(es[1], key)
            && Drops(Run(es), key) == 255 && Gaps(OwnSequences(es, key)) == 0
  {
    var first := FrameArrives(Frame(system, a, 0, ""), "", 0, 0);
    var second := FrameArrives(Frame(system, b, 0, ""), "", 0, 0);
    var key := EndpointKey(system, b);
    es := [] + [first] + [second];
    AppendEvent([], first, key);
    AppendEvent([] + [first], second, key);
    EventMovesLink(Run([]), first, key);
    assert Drops(Run([] + [first]), key) == 0;
    EventMovesLink(Run([] + [first]), second, key);
    assert OwnSequences(es, key) == [0];
  }
}
