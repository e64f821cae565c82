/**
  The UDP stream listener as a system of interleaved steps.

  Three kinds of goroutine share the listener: `readLoop`, the consumers that accept,
  read and close connections, and the callers of the listener's `Close`.  A step is one
  channel operation, one system call, one pipe rendezvous, or one section under
  `clientsMu`; the sweep of `Close` is split further, into one step per client, and the
  mutex keeps `readLoop` out of the map for as long as it lasts.

  The pipes are those of Go's `io.Pipe`.  They have no buffer: a pending write offers a
  window of the caller's own slice, every read copies from the front of that window, and
  the write returns once the window is used up (an empty window still needs one read)
  or the pipe is closed.
 */
module UdpListener {
  import opened Wrappers

  type Addr = string

  /** Connections are numbered in the order in which they are created. */
  type ConnId = nat

  const BUFFER_SIZE := 65535
  const ACCEPT_CAPACITY := 16

  /** A datagram as the kernel hands it over.  The 16-bit UDP length field (RFC 768) keeps
      a payload below BUFFER_SIZE, so a receive never cuts one short. */
  datatype Datagram = Datagram(from: Addr, payload: seq<uint8>)

  /** A virtual connection: `open` until its once-guarded Close has run; `delivered` is
      the history of the bytes that reads have returned. */
  datatype Conn = Conn(remote: Addr, open: bool, delivered: seq<uint8>)

  /** Where `readLoop` stands.  `Writing` is blocked in a pipe write that still offers
      buf[off..n]. */
  datatype Pc =
    | Receiving
    | Dispatching(from: Addr, n: nat)
    | Writing(conn: ConnId, off: nat, n: nat)
    | Failed
    | CallingClose
    | AwaitingClose
    | Exited

  /** How far the once-guarded body of the listener's Close has come. */
  datatype ClosePhase =
    | Idle
    | Flagged
    | SocketClosed
    | Sweeping(todo: set<ConnId>)
    | Swept
  {
    predicate SocketOpen() {
      Idle? || Flagged?
    }
  }

  /** The shared state.  `received` and `accepted` are histories: all datagrams received,
      and the connections handed out by Accept, both in order. */
  datatype State = State(
    buf: seq<uint8>,
    pc: Pc,
    phase: ClosePhase,
    clients: map<Addr, ConnId>,
    conns: seq<Conn>,
    queue: seq<ConnId>,
    accepted: seq<ConnId>,
    received: seq<Datagram>
  )

  datatype Event =
    // readLoop
    | Receive(d: Datagram)
    | ReceiveFails
    | CheckClosed
    | CallClose
    | CloseReturns
    | Dispatch
    | WriteAborts
    // consumers
    | Accept
    | Read(conn: ConnId, room: nat)
    | CloseConn(conn: ConnId)
    // the body of the listener's Close
    | StartClose
    | CloseSocket
    | LockClients
    | SweepConn(conn: ConnId)
    | UnlockClients

  function Init(): State {
    State(seq(BUFFER_SIZE, i => 0), Receiving, Idle, map[], [], [], [], [])
  }

  /** The steps that can happen in a state.  Consumers touch only what Accept gave them. */
  predicate Enabled(s: State, e: Event) {
    match e
    case Receive(d) => s.pc.Receiving? && s.phase.SocketOpen() && |d.payload| <= |s.buf|
    case ReceiveFails => s.pc.Receiving?
    case CheckClosed => s.pc.Failed?
    case CallClose => s.pc.CallingClose?
    case CloseReturns => s.pc.AwaitingClose? && s.phase.Swept?
    case Dispatch =>
      && s.pc.Dispatching? && !s.phase.Sweeping?
      && (s.pc.from in s.clients ==> s.clients[s.pc.from] < |s.conns|)
    case WriteAborts => s.pc.Writing? && s.pc.conn < |s.conns| && !s.conns[s.pc.conn].open
    case Accept => s.queue != []
    case Read(c, room) =>
      && c in s.accepted && c < |s.conns| && s.conns[c].open
      && s.pc.Writing? && s.pc.conn == c && s.pc.off <= s.pc.n <= |s.buf|
    case CloseConn(c) => c in s.accepted && c < |s.conns|
    case StartClose => s.phase.Idle?
    case CloseSocket => s.phase.Flagged?
    case LockClients => s.phase.SocketClosed?
    case SweepConn(c) => s.phase.Sweeping? && c in s.phase.todo && c < |s.conns|
    case UnlockClients => s.phase.Sweeping? && s.phase.todo == {}
  }

  function Shut(conns: seq<Conn>, c: ConnId): seq<Conn>
    requires c < |conns|
  {
    conns[c := conns[c].(open := false)]
  }

  /** A new connection, entered in the map. */
  function AddClient(s: State, from: Addr): State {
    s.(clients := s.clients[from := |s.conns|], conns := s.conns + [Conn(from, true, [])])
  }

  /** The non-blocking send to the accept channel. */
  function Offer(s: State, id: ConnId): State {
    s.(queue := if |s.queue| < ACCEPT_CAPACITY then s.queue + [id] else s.queue)
  }

  /** The section of readLoop under clientsMu: look the sender up, or register it; then
      start the pipe write. */
  function DispatchStep(s: State): State
    requires Enabled(s, Dispatch)
  {
    var t := if s.pc.from in s.clients then s else Offer(AddClient(s, s.pc.from), |s.conns|);
    t.(pc := Writing(t.clients[s.pc.from], 0, s.pc.n))
  }

  function Delivered(conns: seq<Conn>, c: ConnId, chunk: seq<uint8>): seq<Conn>
    requires c < |conns|
  {
    conns[c := conns[c].(delivered := conns[c].delivered + chunk)]
  }

  /** readLoop after `count` more bytes of its pending write have been taken. */
  function After(pc: Pc, count: nat): Pc
    requires pc.Writing?
  {
    if pc.off + count == pc.n then Receiving else pc.(off := pc.off + count)
  }

  /** One rendezvous of a reader that has `room` bytes with the pending write. */
  function ReadStep(s: State, c: ConnId, room: nat): State
    requires Enabled(s, Read(c, room))
  {
    var count := Min(room, s.pc.n - s.pc.off);
    s.(conns := Delivered(s.conns, c, s.buf[s.pc.off..s.pc.off + count]), pc := After(s.pc, count))
  }

  function Step(s: State, e: Event): State
    requires Enabled(s, e)
  {
    match e
    case Receive(d) =>
      s.(buf := d.payload + s.buf[|d.payload|..],
         received := s.received + [d],
         pc := Dispatching(d.from, |d.payload|))
    case ReceiveFails => s.(pc := Failed)
    case CheckClosed => s.(pc := if s.phase.Idle? then CallingClose else Exited)
    case CallClose => s.(pc := AwaitingClose, phase := if s.phase.Idle? then Flagged else s.phase)
    case CloseReturns => s.(pc := Exited)
    case Dispatch => DispatchStep(s)
    case WriteAborts => s.(pc := Receiving)
    case Accept => s.(queue := s.queue[1..], accepted := s.accepted + [s.queue[0]])
    case Read(c, room) => ReadStep(s, c, room)
    case CloseConn(c) => s.(conns := Shut(s.conns, c))
    case StartClose => s.(phase := Flagged)
    case CloseSocket => s.(phase := SocketClosed)
    case LockClients => s.(phase := Sweeping(s.clients.Values))
    case SweepConn(c) => s.(conns := Shut(s.conns, c), phase := Sweeping(s.phase.todo - {c}))
    case UnlockClients => s.(phase := Swept)
  }

  /** The state after the schedule `es`, if every event of it was enabled in turn. */
  function Exec(s: State, es: seq<Event>): Option<State>
    decreases |es|
  {
    if es == [] then Some(s)
    else if Enabled(s, es[0]) then Exec(Step(s, es[0]), es[1..])
    else None
  }

  /** Everything that sender `a` has sent, as one byte stream. */
  function Sent(received: seq<Datagram>, a: Addr): seq<uint8> {
    if received == [] then []
    else
      var d := received[|received| - 1];
      Sent(received[..|received| - 1], a) + if d.from == a then d.payload else []
  }
}
