/**
  A source shows the number of its own last frame, and the texts of its last heartbeat.
 */
module LastShown {
  import opened Wrappers
  import opened Metrics

  function LastFrame(es: seq<Event>, key: EndpointKey): Option<Frame> {
    if es == [] then None
    else
      var e := es[|es| - 1];
      if e.FrameArrives? && e.frame.system == key.system && e.frame.component == key.component then Some(e.frame)
      else LastFrame(es[..|es| - 1], key)
  }

  function LastHeartbeat(es: seq<Event>, key: EndpointKey): Option<Event> {
    if es == [] then None
    else
      var e := es[|es| - 1];
      if e.HeartbeatArrives? && e.key == key then Some(e) else LastHeartbeat(es[..|es| - 1], key)
  }

  ghost predicate ShowsFrame(m: Statistics, last: Option<Frame>, key: EndpointKey) {
    key in m.sources ==>
      && m.sources[key].hasLastSeq == last.Some?
      && m.sources[key].lastSeq == if last.Some? then last.value.sequence else 0
  }

  ghost predicate ShowsTexts(m: Statistics, last: Option<Event>, key: EndpointKey) {
    if last.None? || !last.value.HeartbeatArrives? then key in m.sources ==> m.sources[key].heartbeats.None?
    else
      && key in m.sources && m.sources[key].heartbeats.Some?
      && m.sources[key].heartbeats.value.autopilot == last.value.autopilot
      && m.sources[key].heartbeats.value.vehicleType == last.value.vehicle
      && m.sources[key].heartbeats.value.systemStatus == last.value.status
  }

  lemma EventShowsFrame(m: Statistics, e: Event, last: Option<Frame>, key: EndpointKey)
    requires ShowsFrame(m, last, key) && (key !in m.sources ==> last.None?)
    ensures var last' := if IsFrameOf(e, key) then Some(e.frame) else last;
            ShowsFrame(Apply(m, e), last', key) && (key !in Apply(m, e).sources ==> last'.None?)
  {}

  lemma EventShowsTexts(m: Statistics, e: Event, last: Option<Event>, key: EndpointKey)
    requires ShowsTexts(m, last, key)
    ensures ShowsTexts(Apply(m, e), if e.HeartbeatArrives? && e.key == key then Some(e) else last, key)
  {}

  /** In every run a source shows the sequence number of its own last frame, if it has sent
      one, and the texts of its last heartbeat. */
  lemma {:induction false} LastIsShown(es: seq<Event>, key: EndpointKey)
    ensures ShowsFrame(Run(es), LastFrame(es, key), key) && (key !in Run(es).sources ==> LastFrame(es, key).None?)
    ensures ShowsTexts(Run(es), LastHeartbeat(es, key), key)
    decreases |es|
  {
    if es != [] {
      var front, e := es[..|es| - 1], es[|es| - 1];
      LastIsShown(front, key);
      EventShowsFrame(Run(front), e, LastFrame(front, key), key);
      EventShowsTexts(Run(front), e, LastHeartbeat(front, key), key);
    }
  }
}
