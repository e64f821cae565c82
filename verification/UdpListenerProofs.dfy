/**
  What every schedule of the listener keeps, and what follows for its users.
 */
module UdpListenerProofs {
  import opened Wrappers
  import opened UdpListener

  // ---------- The invariant ----------

  /** The map and the connection list describe each other. */
  ghost predicate Registered(clients: map<Addr, ConnId>, conns: seq<Conn>) {
    && (forall a <- clients :: clients[a] < |conns| && conns[clients[a]].remote == a)
    && (forall c: nat :: c < |conns| ==> conns[c].remote in clients && clients[conns[c].remote] == c)
  }

  /** The program counter points at things that exist. */
  ghost predicate PcFits(pc: Pc, conns: nat, size: nat) {
    && (pc.Dispatching? ==> pc.n <= size)
    && (pc.Writing? ==> pc.conn < conns && pc.off <= pc.n <= size)
  }

  ghost predicate SweepFits(phase: ClosePhase, conns: nat) {
    phase.Sweeping? ==> forall c <- phase.todo :: c < conns
  }

  ghost predicate Shape(s: State) {
    && |s.buf| == BUFFER_SIZE && Registered(s.clients, s.conns)
    && PcFits(s.pc, |s.conns|, |s.buf|) && SweepFits(s.phase, |s.conns|)
  }

  /** Connections reach Accept in the order of their registration, none lost or doubled. */
  ghost predicate Ordered(s: State) {
    && |s.accepted| + |s.queue| == |s.conns|
    && (forall i: nat :: i < |s.accepted| ==> s.accepted[i] == i)
    && (forall i: nat :: i < |s.queue| ==> s.queue[i] == |s.accepted| + i)
  }

  /** At most one connection waits for Accept, and only while readLoop cannot register
      another: it is blocked writing to that very connection, or the socket is closed. */
  ghost predicate Throttled(s: State) {
    && |s.queue| <= 1
    && (s.queue != [] ==>
        || (s.pc.Writing? && s.pc.conn == s.queue[0] && s.pc.conn < |s.conns| && s.conns[s.pc.conn].open)
        || (!s.phase.SocketOpen() && !s.pc.Dispatching?))
  }

  /** The bytes already received for connection `c` that its readers have yet to take. */
  ghost function Pending(s: State, c: ConnId): seq<uint8>
    requires Shape(s) && c < |s.conns|
  {
    if s.pc.Dispatching? && s.pc.from == s.conns[c].remote then s.buf[..s.pc.n]
    else if s.pc.Writing? && s.pc.conn == c then s.buf[s.pc.off..s.pc.n]
    else []
  }

  /** An open connection has delivered everything its sender sent except what is pending;
      a closed one has delivered a prefix. */
  ghost predicate FaithfulConn(s: State, c: ConnId)
    requires Shape(s) && c < |s.conns|
  {
    && s.conns[c].delivered <= Sent(s.received, s.conns[c].remote)
    && (s.conns[c].open ==>
        s.conns[c].delivered + Pending(s, c) == Sent(s.received, s.conns[c].remote))
  }

  /** A sender without a connection has sent at most the datagram now being dispatched. */
  ghost predicate FaithfulStranger(s: State, a: Addr)
    requires Shape(s)
  {
    Sent(s.received, a) == if s.pc.Dispatching? && s.pc.from == a then s.buf[..s.pc.n] else []
  }

  ghost predicate Faithful(s: State)
    requires Shape(s)
  {
    && (forall c: nat :: c < |s.conns| ==> FaithfulConn(s, c))
    && (forall a: Addr :: a !in s.clients ==> FaithfulStranger(s, a))
  }

  /** While readLoop holds a datagram, the shared buffer still holds that datagram. */
  ghost predicate BufferHolds(s: State)
    requires Shape(s)
  {
    && (s.pc.Dispatching? ==>
        s.received != [] && s.received[|s.received| - 1] == Datagram(s.pc.from, s.buf[..s.pc.n]))
    && (s.pc.Writing? ==>
        s.received != [] && s.received[|s.received| - 1] == Datagram(s.conns[s.pc.conn].remote, s.buf[..s.pc.n]))
  }

  /** During the sweep only connections still to be swept are open; after it, only the
      last registered one can be, and only once readLoop has let go of its datagram. */
  ghost predicate Covered(s: State) {
    && (s.phase.Sweeping? ==> forall c: nat :: c < |s.conns| && s.conns[c].open ==> c in s.phase.todo)
    && (s.phase.Swept? ==> forall c: nat :: c < |s.conns| && s.conns[c].open ==>
        c == |s.conns| - 1 && !s.pc.Dispatching?)
  }

  ghost predicate Inv(s: State) {
    Shape(s) && Ordered(s) && Throttled(s) && Faithful(s) && BufferHolds(s) && Covered(s)
  }

  lemma HeldDatagram(s: State)
    requires Inv(s) && s.pc.Writing?
    ensures s.received != [] && s.pc.conn < |s.conns| && s.pc.n <= |s.buf|
    ensures s.received[|s.received| - 1] == Datagram(s.conns[s.pc.conn].remote, s.buf[..s.pc.n])
  {}

  // ---------- Every step keeps it ----------

  lemma SameSendersRegistered(clients: map<Addr, ConnId>, conns: seq<Conn>, conns': seq<Conn>)
    requires Registered(clients, conns) && |conns'| == |conns|
    requires forall c: nat :: c < |conns| ==> conns'[c].remote == conns[c].remote
    ensures Registered(clients, conns')
  {}

  lemma NewSenderRegistered(clients: map<Addr, ConnId>, conns: seq<Conn>, conn: Conn)
    requires Registered(clients, conns) && conn.remote !in clients
    ensures Registered(clients[conn.remote := |conns|], conns + [conn])
  {
    var clients', conns' := clients[conn.remote := |conns|], conns + [conn];
    assert forall c: nat :: c < |conns| ==> conns'[c] == conns[c];
  }

  lemma StepKeepsRegistration(s: State, e: Event)
    requires Shape(s) && Enabled(s, e)
    ensures Registered(Step(s, e).clients, Step(s, e).conns)
  {
    var t := Step(s, e);
    if e.Dispatch? {
      if s.pc.from !in s.clients {
        NewSenderRegistered(s.clients, s.conns, Conn(s.pc.from, true, []));
      }
    } else if e.Read? || e.CloseConn? || e.SweepConn? {
      SameSendersRegistered(s.clients, s.conns, t.conns);
    } else {
      assert t.clients == s.clients && t.conns == s.conns;
    }
  }

  lemma StepKeepsPc(s: State, e: Event)
    requires Shape(s) && Enabled(s, e)
    ensures |Step(s, e).buf| == BUFFER_SIZE && PcFits(Step(s, e).pc, |Step(s, e).conns|, BUFFER_SIZE)
  {}

  lemma StepKeepsSweep(s: State, e: Event)
    requires Shape(s) && Enabled(s, e)
    ensures SweepFits(Step(s, e).phase, |Step(s, e).conns|)
  {
    if e.LockClients? {
      forall c | c in s.clients.Values ensures c < |s.conns| {
        var a :| a in s.clients && s.clients[a] == c;
      }
    } else if !e.Dispatch? {
      assert |Step(s, e).conns| == |s.conns|;
    }
  }

  lemma StepKeepsShape(s: State, e: Event)
    requires Shape(s) && Enabled(s, e)
    ensures Shape(Step(s, e))
  {
    StepKeepsRegistration(s, e);
    StepKeepsPc(s, e);
    StepKeepsSweep(s, e);
  }

  lemma StepKeepsOrder(s: State, e: Event)
    requires Inv(s) && Enabled(s, e)
    ensures Ordered(Step(s, e))
  {
    if !e.Dispatch? && !e.Accept? {
      var t := Step(s, e);
      assert |t.conns| == |s.conns| && t.accepted == s.accepted && t.queue == s.queue;
    }
  }

  /** A consumer never holds the connection that waits in the queue. */
  lemma StepKeepsThrottle(s: State, e: Event)
    requires Inv(s) && Enabled(s, e)
    ensures Throttled(Step(s, e))
  {
  }

  lemma ReceiveHolds(s: State, d: Datagram)
    requires Inv(s) && Enabled(s, Receive(d)) && Shape(Step(s, Receive(d)))
    ensures BufferHolds(Step(s, Receive(d)))
  {
    assert Step(s, Receive(d)).buf[..|d.payload|] == d.payload;
  }

  lemma DispatchHolds(s: State)
    requires Inv(s) && Enabled(s, Dispatch) && Shape(Step(s, Dispatch))
    ensures BufferHolds(Step(s, Dispatch))
  {
    var t := Step(s, Dispatch);
    assert t.pc.Writing? && t.conns[t.pc.conn].remote == s.pc.from && t.pc.n == s.pc.n;
  }

  lemma OtherStepsHold(s: State, e: Event)
    requires Inv(s) && Enabled(s, e) && Shape(Step(s, e)) && !e.Receive? && !e.Dispatch?
    ensures BufferHolds(Step(s, e))
  {
    var t := Step(s, e);
    assert t.buf == s.buf && t.received == s.received;
    if t.pc.Writing? {
      assert s.pc.Writing? && t.pc.conn == s.pc.conn && t.pc.n == s.pc.n;
      assert t.conns[t.pc.conn].remote == s.conns[t.pc.conn].remote;
    }
  }

  lemma StepKeepsBuffer(s: State, e: Event)
    requires Inv(s) && Enabled(s, e)
    ensures Shape(Step(s, e)) && BufferHolds(Step(s, e))
  {
    StepKeepsShape(s, e);
    match e
    case Receive(d) => ReceiveHolds(s, d);
    case Dispatch => DispatchHolds(s);
    case _ => OtherStepsHold(s, e);
  }

  lemma StepKeepsCoverage(s: State, e: Event)
    requires Inv(s) && Enabled(s, e)
    ensures Covered(Step(s, e))
  {
    var t := Step(s, e);
    match e
    case LockClients =>
      forall c: nat | c < |t.conns| && t.conns[c].open ensures c in t.phase.todo {
        assert s.clients[s.conns[c].remote] == c;
      }
    case _ =>
  }

  lemma ReceiveKeepsFaith(s: State, d: Datagram)
    requires Inv(s) && Enabled(s, Receive(d))
    ensures Shape(Step(s, Receive(d))) && Faithful(Step(s, Receive(d)))
  {
    var t := Step(s, Receive(d));
    assert t.received[..|s.received|] == s.received;
    assert t.buf[..t.pc.n] == d.payload;
    forall c: nat | c < |t.conns| ensures FaithfulConn(t, c) {
      assert FaithfulConn(s, c);
      assert Pending(s, c) == [];
      assert Sent(s.received, t.conns[c].remote) <= Sent(t.received, t.conns[c].remote);
    }
    forall a: Addr | a !in t.clients ensures FaithfulStranger(t, a) {
      assert FaithfulStranger(s, a);
    }
  }

  lemma DispatchStartsOwnWrite(s: State, c: ConnId)
    requires Inv(s) && Enabled(s, Dispatch) && Shape(Step(s, Dispatch))
    requires c < |s.conns| && s.conns[c].remote == s.pc.from
    ensures Step(s, Dispatch).pc == Writing(c, 0, s.pc.n) && Step(s, Dispatch).conns == s.conns
    ensures Pending(Step(s, Dispatch), c) == Pending(s, c)
  {
    assert s.clients[s.pc.from] == c;
    assert s.buf[0..s.pc.n] == s.buf[..s.pc.n];
  }

  lemma DispatchLeavesOther(s: State, c: ConnId)
    requires Inv(s) && Enabled(s, Dispatch) && Shape(Step(s, Dispatch))
    requires c < |s.conns| && s.conns[c].remote != s.pc.from
    ensures Step(s, Dispatch).conns[c] == s.conns[c]
    ensures Pending(Step(s, Dispatch), c) == [] == Pending(s, c)
  {
    assert Step(s, Dispatch).conns[Step(s, Dispatch).pc.conn].remote == s.pc.from;
  }

  lemma DispatchKeepsOldConn(s: State, c: ConnId)
    requires Inv(s) && Enabled(s, Dispatch)
    requires Shape(Step(s, Dispatch)) && c < |s.conns|
    ensures FaithfulConn(Step(s, Dispatch), c)
  {
    assert FaithfulConn(s, c);
    if s.conns[c].remote == s.pc.from {
      DispatchStartsOwnWrite(s, c);
    } else {
      DispatchLeavesOther(s, c);
    }
  }

  lemma DispatchMakesFaithful(s: State)
    requires Inv(s) && Enabled(s, Dispatch) && s.pc.from !in s.clients
    requires Shape(Step(s, Dispatch))
    ensures FaithfulConn(Step(s, Dispatch), |s.conns|)
  {
    var t, c := Step(s, Dispatch), |s.conns|;
    assert t.buf[0..s.pc.n] == s.buf[..s.pc.n];
    assert FaithfulStranger(s, s.pc.from);
    assert t.conns[c].delivered == [];
    assert Pending(t, c) == s.buf[..s.pc.n];
  }

  lemma DispatchKeepsFaith(s: State)
    requires Inv(s) && Enabled(s, Dispatch)
    ensures Shape(Step(s, Dispatch)) && Faithful(Step(s, Dispatch))
  {
    StepKeepsShape(s, Dispatch);
    var t := Step(s, Dispatch);
    forall c: nat | c < |t.conns| ensures FaithfulConn(t, c) {
      if c < |s.conns| {
        DispatchKeepsOldConn(s, c);
      } else {
        DispatchMakesFaithful(s);
      }
    }
    forall a: Addr | a !in t.clients ensures FaithfulStranger(t, a) {
      assert a !in s.clients && FaithfulStranger(s, a);
    }
  }

  lemma StreamMoves(sent: seq<uint8>, delivered: seq<uint8>, buf: seq<uint8>, off: nat, next: nat, n: nat)
    requires off <= next <= n <= |buf| && delivered + buf[off..n] == sent
    ensures delivered + buf[off..next] <= sent
    ensures delivered + buf[off..next] + buf[next..n] == sent
  {
    assert buf[off..n] == buf[off..next] + buf[next..n];
    Assoc(delivered, buf[off..next], buf[next..n]);
  }

  lemma ReadKeepsOwnStream(s: State, c: ConnId, room: nat)
    requires Inv(s) && Enabled(s, Read(c, room)) && Shape(Step(s, Read(c, room)))
    ensures FaithfulConn(Step(s, Read(c, room)), c)
  {
    var t, next := Step(s, Read(c, room)), s.pc.off + Min(room, s.pc.n - s.pc.off);
    assert FaithfulConn(s, c);
    StreamMoves(Sent(s.received, s.conns[c].remote), s.conns[c].delivered, s.buf, s.pc.off, next, s.pc.n);
    assert t.conns[c].delivered == s.conns[c].delivered + s.buf[s.pc.off..next];
    assert Pending(t, c) == s.buf[next..s.pc.n];
  }

  lemma ReadKeepsOtherStream(s: State, c: ConnId, room: nat, d: ConnId)
    requires Inv(s) && Enabled(s, Read(c, room)) && Shape(Step(s, Read(c, room)))
    requires d < |s.conns| && d != c
    ensures FaithfulConn(Step(s, Read(c, room)), d)
  {
    assert FaithfulConn(s, d);
    assert Pending(Step(s, Read(c, room)), d) == Pending(s, d);
  }

  lemma ReadKeepsFaith(s: State, c: ConnId, room: nat)
    requires Inv(s) && Enabled(s, Read(c, room))
    ensures Shape(Step(s, Read(c, room))) && Faithful(Step(s, Read(c, room)))
  {
    StepKeepsShape(s, Read(c, room));
    var t := Step(s, Read(c, room));
    forall d: nat | d < |t.conns| ensures FaithfulConn(t, d) {
      if d == c { ReadKeepsOwnStream(s, c, room); } else { ReadKeepsOtherStream(s, c, room, d); }
    }
    forall a: Addr | a !in t.clients ensures FaithfulStranger(t, a) {
      assert FaithfulStranger(s, a);
    }
  }

  predicate LeavesStreams(e: Event) {
    !e.Receive? && !e.Dispatch? && !e.Read?
  }

  lemma OtherStepsKeepConn(s: State, e: Event, c: ConnId)
    requires Inv(s) && Enabled(s, e) && LeavesStreams(e) && Shape(Step(s, e))
    requires c < |s.conns| && c < |Step(s, e).conns|
    ensures FaithfulConn(Step(s, e), c)
  {
    var t := Step(s, e);
    assert FaithfulConn(s, c);
    assert t.conns[c] == s.conns[c] || t.conns[c] == s.conns[c].(open := false);
    assert t.conns[c].open ==> Pending(t, c) == Pending(s, c);
  }

  /** A step that receives, dispatches and reads nothing leaves the streams alone. */
  lemma OtherStepsKeepFaith(s: State, e: Event)
    requires Inv(s) && Enabled(s, e) && LeavesStreams(e)
    ensures Shape(Step(s, e)) && Faithful(Step(s, e))
  {
    StepKeepsShape(s, e);
    var t := Step(s, e);
    assert t.clients == s.clients && |t.conns| == |s.conns|;
    forall c: nat | c < |t.conns| ensures FaithfulConn(t, c) {
      OtherStepsKeepConn(s, e, c);
    }
    forall a: Addr | a !in t.clients ensures FaithfulStranger(t, a) {
      assert FaithfulStranger(s, a);
    }
  }

  lemma StepKeepsFaith(s: State, e: Event)
    requires Inv(s) && Enabled(s, e)
    ensures Shape(Step(s, e)) && Faithful(Step(s, e))
  {
    match e
    case Receive(d) => ReceiveKeepsFaith(s, d);
    case Dispatch => DispatchKeepsFaith(s);
    case Read(c, room) => ReadKeepsFaith(s, c, room);
    case _ => OtherStepsKeepFaith(s, e);
  }

  /** Every step of every goroutine keeps the invariant. */
  lemma StepKeepsInv(s: State, e: Event)
    requires Inv(s) && Enabled(s, e)
    ensures Inv(Step(s, e))
  {
    StepKeepsShape(s, e);
    StepKeepsOrder(s, e);
    StepKeepsThrottle(s, e);
    StepKeepsFaith(s, e);
    StepKeepsBuffer(s, e);
    StepKeepsCoverage(s, e);
  }

  /** Every schedule keeps the invariant. */
  lemma {:induction false} RunKeepsInv(s: State, es: seq<Event>)
    requires Inv(s) && Exec(s, es).Some?
    ensures Inv(Exec(s, es).value)
    decreases |es|
  {
    if es != [] {
      StepKeepsInv(s, es[0]);
      RunKeepsInv(Step(s, es[0]), es[1..]);
    }
  }

  /** The states that some schedule leads to. */
  ghost predicate Reachable(s: State) {
    exists es: seq<Event> :: Exec(Init(), es) == Some(s)
  }

  lemma ReachableInv(s: State)
    requires Reachable(s)
    ensures Inv(s)
  {
    var es: seq<Event> :| Exec(Init(), es) == Some(s);
    assert Inv(Init());
    RunKeepsInv(Init(), es);
  }
}
