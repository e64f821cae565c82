/**
  What the users of the listener can rely on, for every schedule.
 */
module UdpListenerTheorems {
  import opened Wrappers
  import opened UdpListener
  import opened UdpListenerProofs

  // ---------- Accept ----------

  /** The non-blocking send to the accept channel never takes its default branch: when
      readLoop registers a sender the channel is empty, and the connection goes in. */
  lemma AcceptQueueNeverDrops(s: State)
    requires Reachable(s) && Enabled(s, Dispatch) && s.pc.from !in s.clients
    ensures s.queue == [] && Step(s, Dispatch).queue == [|s.conns|]
    ensures Step(s, Dispatch).clients[s.pc.from] == |s.conns|
  {
    ReachableInv(s);
  }

  /** Accept hands out every registered connection exactly once, in registration order,
      with at most one still waiting; no sender is ever given two connections. */
  lemma AcceptedOnceInOrder(s: State)
    requires Reachable(s)
    ensures |s.queue| <= 1 && |s.accepted| + |s.queue| == |s.conns|
    ensures forall i: nat :: i < |s.accepted| ==> s.accepted[i] == i
    ensures forall c: nat, d: nat ::
              c < |s.conns| && d < |s.conns| && s.conns[c].remote == s.conns[d].remote ==> c == d
  {
    ReachableInv(s);
  }

  /** The map leads from a connection's sender back to the connection. */
  lemma SenderOfConn(s: State, c: ConnId)
    requires Reachable(s) && c < |s.conns|
    ensures s.conns[c].remote in s.clients && s.clients[s.conns[c].remote] == c
  {
    ReachableInv(s);
  }

  // ---------- The byte streams ----------

  /** What a connection delivers is a prefix of what its own sender sent, and all of it
      while the connection is open and readLoop holds no datagram of that sender. */
  lemma ReassemblyIsFaithful(s: State, c: ConnId)
    requires Reachable(s) && c < |s.conns|
    ensures s.conns[c].delivered <= Sent(s.received, s.conns[c].remote)
    ensures s.conns[c].open
            && !(s.pc.Dispatching? && s.pc.from == s.conns[c].remote)
            && !(s.pc.Writing? && s.pc.conn == c)
            ==> s.conns[c].delivered == Sent(s.received, s.conns[c].remote)
  {
    ReachableInv(s);
    assert FaithfulConn(s, c);
  }

  /** Although one array backs every receive, a reader gets bytes of the datagram that is
      being written at that time, in place, and that datagram came from its own sender. */
  lemma BufferReuseIsSound(s: State, c: ConnId, room: nat)
    requires Reachable(s) && Enabled(s, Read(c, room))
    ensures s.received != []
    ensures var d := s.received[|s.received| - 1];
            var next := s.pc.off + Min(room, s.pc.n - s.pc.off);
            && d.from == s.conns[c].remote
            && s.pc.off <= next <= |d.payload| == s.pc.n
            && Step(s, Read(c, room)).conns[c].delivered
               == s.conns[c].delivered + d.payload[s.pc.off..next]
  {
    ReachableInv(s);
    var d := s.received[|s.received| - 1];
    var next := s.pc.off + Min(room, s.pc.n - s.pc.off);
    assert d.payload[s.pc.off..next] == s.buf[s.pc.off..next];
  }

  /** One read, in the words of the datagram it comes from. */
  lemma ReadDelivers(s: State, c: ConnId, room: nat) returns (chunk: seq<uint8>, d: Datagram)
    requires Reachable(s) && Enabled(s, Read(c, room))
    ensures Reachable(Step(s, Read(c, room)))
    ensures s.received != [] && d == s.received[|s.received| - 1] && d.from == s.conns[c].remote
    ensures var t, next := Step(s, Read(c, room)), s.pc.off + Min(room, s.pc.n - s.pc.off);
            && chunk == s.buf[s.pc.off..next]
            && t.conns[c].delivered == s.conns[c].delivered + chunk
            && next <= |d.payload| == s.pc.n && chunk == d.payload[s.pc.off..next]
  {
    var next := s.pc.off + Min(room, s.pc.n - s.pc.off);
    chunk := s.buf[s.pc.off..next];
    ReachableInv(s);
    HeldDatagram(s);
    d := s.received[|s.received| - 1];
    SliceOfPrefix(s.buf, s.pc.n, s.pc.off, next);
    ReachableStep(s, Read(c, room));
  }

  /** The read that takes the last byte, and no other, lets readLoop go on to its receive. */
  lemma LastByteReleasesLoop(s: State, c: ConnId, room: nat)
    requires Reachable(s) && Enabled(s, Read(c, room))
    ensures Step(s, Read(c, room)).pc.Receiving? <==> room >= s.pc.n - s.pc.off
    ensures !Step(s, Read(c, room)).pc.Receiving? ==>
              Step(s, Read(c, room)).pc == Writing(c, s.pc.off + room, s.pc.n)
  {}

  /** At most one connection has bytes waiting to be read. */
  lemma OnePipeHoldsBytes(s: State, c: ConnId, d: ConnId)
    requires Reachable(s)
    ensures Shape(s)
    ensures c < |s.conns| && d < |s.conns| && Pending(s, c) != [] && Pending(s, d) != [] ==> c == d
  {
    ReachableInv(s);
  }

  /** The steps that let a write to connection `c` go on, or end it. */
  predicate Releases(e: Event, c: ConnId) {
    e == CloseConn(c) || e == SweepConn(c) || (e.Read? && e.conn == c)
  }

  /** While readLoop writes to an open connection that nobody reads or closes, nothing is
      received from any sender and no sender is registered. */
  lemma {:induction false} UnreadStallsAll(s: State, es: seq<Event>, t: State)
    requires s.pc.Writing? && s.pc.conn < |s.conns| && s.conns[s.pc.conn].open
    requires Exec(s, es) == Some(t) && forall e <- es :: !Releases(e, s.pc.conn)
    ensures t.pc == s.pc && t.received == s.received && |t.conns| == |s.conns|
    decreases |es|
  {
    if es != [] {
      assert !Releases(es[0], s.pc.conn);
      UnreadStallsAll(Step(s, es[0]), es[1..], t);
    }
  }

  lemma ClosedIsKept(s: State, e: Event, c: ConnId)
    requires Inv(s) && Enabled(s, e) && c < |s.conns| && !s.conns[c].open
    ensures c < |Step(s, e).conns| && Step(s, e).conns[c] == s.conns[c]
  {}

  /** A closed connection never delivers another byte, and stays the one of its sender, so
      that all later datagrams of that sender are discarded. */
  lemma {:induction false} ClosedStaysClosed(s: State, es: seq<Event>, t: State, c: ConnId)
    requires Inv(s) && c < |s.conns| && !s.conns[c].open && Exec(s, es) == Some(t)
    ensures c < |t.conns| && t.conns[c] == s.conns[c]
    ensures s.conns[c].remote in t.clients && t.clients[s.conns[c].remote] == c
    decreases |es|
  {
    if es != [] {
      ClosedIsKept(s, es[0], c);
      StepKeepsInv(s, es[0]);
      ClosedStaysClosed(Step(s, es[0]), es[1..], t, c);
    }
  }

  // ---------- Delivery ----------

  /** A schedule of consumers that accept, and that read with room for `room` bytes. */
  ghost predicate OnlyReads(es: seq<Event>, room: nat) {
    forall e <- es :: e.Accept? || (e.Read? && e.room == room)
  }

  lemma OnlyReadsCons(e: Event, es: seq<Event>, room: nat)
    requires OnlyReads(es, room) && (e.Accept? || (e.Read? && e.room == room))
    ensures OnlyReads([e] + es, room)
  {}

  lemma ExecCons(s: State, e: Event, es: seq<Event>, t: State)
    requires Enabled(s, e) && Exec(Step(s, e), es) == Some(t)
    ensures Exec(s, [e] + es) == Some(t)
  {
    assert ([e] + es)[1..] == es;
  }

  /** What reads and accepts do not change. */
  ghost predicate SameButDelivered(s: State, t: State) {
    && t.received == s.received && t.phase == s.phase && t.clients == s.clients && |t.conns| == |s.conns|
    && forall c: nat :: c < |s.conns| ==> t.conns[c].remote == s.conns[c].remote && t.conns[c].open == s.conns[c].open
  }

  /** Reads of any size but zero, of an accepted connection, bring the loop back. */
  lemma {:induction false} AcceptedCanBeRead(s: State, room: nat) returns (es: seq<Event>, t: State)
    requires Inv(s) && s.pc.Writing? && s.conns[s.pc.conn].open && s.pc.conn in s.accepted && room >= 1
    ensures Exec(s, es) == Some(t) && OnlyReads(es, room)
    ensures t.pc.Receiving? && SameButDelivered(s, t)
    decreases if s.pc.Writing? then s.pc.n - s.pc.off else 0
  {
    var e := Read(s.pc.conn, room);
    var u := Step(s, e);
    StepKeepsInv(s, e);
    assert SameButDelivered(s, u);
    if u.pc.Receiving? {
      es, t := [], u;
    } else {
      es, t := AcceptedCanBeRead(u, room);
    }
    ExecCons(s, e, es, t);
    OnlyReadsCons(e, es, room);
    es := [e] + es;
  }

  /** Consumers that accept and read bring the loop back from every write to an open
      connection, without a close; and then the connection has delivered all. */
  lemma WriteCanBeRead(s: State, room: nat) returns (es: seq<Event>, t: State)
    requires Reachable(s) && s.pc.Writing? && s.pc.conn < |s.conns| && s.conns[s.pc.conn].open && room >= 1
    ensures Exec(s, es) == Some(t) && OnlyReads(es, room)
    ensures t.pc.Receiving? && SameButDelivered(s, t)
    ensures t.conns[s.pc.conn].delivered == Sent(s.received, s.conns[s.pc.conn].remote)
  {
    ReachableInv(s);
    if s.queue == [] {
      WaitingIsAccepted(s);
      es, t := AcceptedCanBeRead(s, room);
    } else {
      var u := Step(s, Accept);
      StepKeepsInv(s, Accept);
      WaitingIsAccepted(u);
      es, t := AcceptedCanBeRead(u, room);
      ExecCons(s, Accept, es, t);
      OnlyReadsCons(Accept, es, room);
      es := [Accept] + es;
    }
    ReachableConcat(s, es, t);
    ReassemblyIsFaithful(t, s.pc.conn);
  }

  ghost predicate AllOpen(s: State) {
    forall c: nat :: c < |s.conns| ==> s.conns[c].open
  }

  lemma ReceiveAndDispatch(s: State, d: Datagram) returns (v: State)
    requires Reachable(s) && s.phase.Idle? && s.pc.Receiving? && AllOpen(s) && |d.payload| <= 65535
    ensures Exec(s, [Receive(d)] + [Dispatch]) == Some(v) && Reachable(v)
    ensures v.phase.Idle? && v.pc.Writing? && AllOpen(v) && v.pc.conn < |v.conns|
    ensures v.received == s.received + [d] && s.clients.Keys <= v.clients.Keys && d.from in v.clients
  {
    ReachableInv(s);
    var u := Step(s, Receive(d));
    ReachableStep(s, Receive(d));
    ReachableInv(u);
    v := Step(u, Dispatch);
    ReachableStep(u, Dispatch);
    ExecSnoc(s, [], Receive(d));
    ExecSnoc(s, [] + [Receive(d)], Dispatch);
    NothingBefore([Receive(d)]);
  }

  /** One datagram is received, dispatched and read. */
  lemma OneCanBeDelivered(s: State, d: Datagram, room: nat) returns (es: seq<Event>, t: State)
    requires Reachable(s) && s.phase.Idle? && s.pc.Receiving? && AllOpen(s) && |d.payload| <= 65535 && room >= 1
    ensures Exec(s, es) == Some(t) && Reachable(t)
    ensures t.phase.Idle? && t.pc.Receiving? && AllOpen(t)
    ensures t.received == s.received + [d] && s.clients.Keys <= t.clients.Keys && d.from in t.clients
  {
    var v := ReceiveAndDispatch(s, d);
    es, t := WriteCanBeRead(v, room);
    ReachableConcat(v, es, t);
    ExecConcat(s, [Receive(d)] + [Dispatch], es);
    es := [Receive(d)] + [Dispatch] + es;
  }

  lemma {:induction false} AllCanBeReceived(s: State, ds: seq<Datagram>, room: nat) returns (es: seq<Event>, t: State)
    requires Reachable(s) && s.phase.Idle? && s.pc.Receiving? && AllOpen(s) && room >= 1
    requires forall i :: 0 <= i < |ds| ==> |ds[i].payload| <= 65535
    ensures Exec(s, es) == Some(t) && Reachable(t)
    ensures t.phase.Idle? && t.pc.Receiving? && AllOpen(t)
    ensures t.received == s.received + ds && s.clients.Keys <= t.clients.Keys
    ensures forall i :: 0 <= i < |ds| ==> ds[i].from in t.clients
    decreases |ds|
  {
    if ds == [] {
      es, t := [], s;
    } else {
      var u, fs;
      es, u := OneCanBeDelivered(s, ds[0], room);
      fs, t := AllCanBeReceived(u, ds[1..], room);
      ExecConcat(s, es, fs);
      es := es + fs;
      HeadAndTail(s.received, ds);
    }
  }

  /** Whatever datagrams are sent, by whatever senders, and whatever the room of the reads,
      some schedule receives all of them, in order, and delivers every byte to the
      connection of its sender. */
  lemma AllCanBeDelivered(ds: seq<Datagram>, room: nat) returns (es: seq<Event>, t: State)
    requires room >= 1 && forall i :: 0 <= i < |ds| ==> |ds[i].payload| <= 65535
    ensures Exec(Init(), es) == Some(t) && t.received == ds
    ensures forall i :: 0 <= i < |ds| ==>
              && ds[i].from in t.clients && t.clients[ds[i].from] < |t.conns|
              && t.conns[t.clients[ds[i].from]].delivered == Sent(ds, ds[i].from)
  {
    assert Exec(Init(), []) == Some(Init());
    es, t := AllCanBeReceived(Init(), ds, room);
    assert Init().received + ds == ds;
    ReachableInv(t);
    forall i | 0 <= i < |ds| ensures t.clients[ds[i].from] < |t.conns|
      && t.conns[t.clients[ds[i].from]].delivered == Sent(ds, ds[i].from)
    {
      ReassemblyIsFaithful(t, t.clients[ds[i].from]);
    }
  }

  // ---------- Close ----------

  /** One when readLoop holds the first datagram of a sender it has not registered. */
  ghost function Held(s: State): nat {
    if s.pc.Dispatching? && s.pc.from !in s.clients then 1 else 0
  }

  /** Once the socket is closed nothing more is received, and the only connection that
      can still appear is that of the datagram readLoop already holds. */
  lemma {:induction false} NothingArrivesAfterClose(s: State, es: seq<Event>, t: State)
    requires !s.phase.SocketOpen() && Exec(s, es) == Some(t)
    ensures !t.phase.SocketOpen() && t.received == s.received
    ensures |t.conns| + Held(t) == |s.conns| + Held(s)
    decreases |es|
  {
    if es != [] {
      var u := Step(s, es[0]);
      assert |u.conns| + Held(u) == |s.conns| + Held(s);
      NothingArrivesAfterClose(u, es[1..], t);
    }
  }

  ghost predicate AllShut(s: State) {
    forall c: nat :: c < |s.conns| ==> !s.conns[c].open
  }

  /** After the sweep at most one connection is open: the last one registered. */
  lemma AtMostOneEscapes(s: State, c: ConnId, d: ConnId)
    requires Reachable(s) && s.phase.Swept?
    requires c < |s.conns| && d < |s.conns| && s.conns[c].open && s.conns[d].open
    ensures c == d == |s.conns| - 1
  {
    ReachableInv(s);
  }

  /** When the sweep lets go of the mutex it has closed every connection there is. */
  lemma SweepShutsAll(s: State)
    requires Reachable(s) && Enabled(s, UnlockClients)
    ensures AllShut(s)
  {
    ReachableInv(s);
  }

  /** What is left of the sweep's end `u` in a later state: the connections of that time are
      still closed, and one more can only be that of the sender whose datagram was held. */
  ghost predicate OnlyHeldAppears(u: State, s: State) {
    && !s.phase.SocketOpen() && |s.conns| + Held(s) == |u.conns| + Held(u)
    && |u.conns| <= |s.conns| && (forall c: nat :: c < |u.conns| ==> !s.conns[c].open)
    && (Held(s) == 1 ==> s.pc == u.pc && Held(u) == 1)
    && (|s.conns| > |u.conns| ==> Held(u) == 1 && s.conns[|u.conns|].remote == u.pc.from)
  }

  lemma {:induction false} OnlyHeldKept(u: State, s: State, es: seq<Event>, t: State)
    requires OnlyHeldAppears(u, s) && Exec(s, es) == Some(t)
    ensures OnlyHeldAppears(u, t)
    decreases |es|
  {
    if es != [] {
      assert OnlyHeldAppears(u, Step(s, es[0]));
      OnlyHeldKept(u, Step(s, es[0]), es[1..], t);
    }
  }

  /** A connection found open at any time after the sweep was registered after it, from the
      datagram of a new sender that readLoop held as the sweep ended. */
  lemma EscapedIsHeld(s: State, es: seq<Event>, t: State, c: ConnId)
    requires Reachable(s) && Enabled(s, UnlockClients) && Exec(Step(s, UnlockClients), es) == Some(t)
    requires c < |t.conns| && t.conns[c].open
    ensures c == |s.conns| == |t.conns| - 1
    ensures s.pc.Dispatching? && s.pc.from !in s.clients && t.conns[c].remote == s.pc.from
  {
    SweepShutsAll(s);
    OnlyHeldKept(Step(s, UnlockClients), Step(s, UnlockClients), es, t);
  }

  lemma StepStaysShut(s: State, e: Event)
    requires Inv(s) && Enabled(s, e)
    requires !s.phase.SocketOpen() && Held(s) == 0 && (s.phase.Swept? ==> AllShut(s))
    ensures var t := Step(s, e);
            !t.phase.SocketOpen() && Held(t) == 0 && (t.phase.Swept? ==> AllShut(t))
  {}

  lemma {:induction false} SweepReachesAll(s: State, es: seq<Event>, t: State)
    requires Inv(s) && !s.phase.SocketOpen() && Held(s) == 0 && (s.phase.Swept? ==> AllShut(s))
    requires Exec(s, es) == Some(t) && t.phase.Swept?
    ensures AllShut(t)
    decreases |es|
  {
    if es != [] {
      StepStaysShut(s, es[0]);
      StepKeepsInv(s, es[0]);
      SweepReachesAll(Step(s, es[0]), es[1..], t);
    }
  }

  lemma {:induction false} ExecConcat(s: State, es: seq<Event>, fs: seq<Event>)
    requires Exec(s, es).Some?
    ensures Exec(s, es + fs) == Exec(Exec(s, es).value, fs)
    decreases |es|
  {
    if es == [] {
      assert es + fs == fs;
    } else {
      ExecConcat(Step(s, es[0]), es[1..], fs);
      assert (es + fs)[0] == es[0] && (es + fs)[1..] == es[1..] + fs;
    }
  }

  lemma ExecSnoc(s: State, es: seq<Event>, e: Event)
    requires Exec(s, es).Some? && Enabled(Exec(s, es).value, e)
    ensures Exec(s, es + [e]) == Some(Step(Exec(s, es).value, e))
  {
    ExecConcat(s, es, [e]);
    assert [e][1..] == [];
  }

  lemma ReachableConcat(s: State, es: seq<Event>, t: State)
    requires Reachable(s) && Exec(s, es) == Some(t)
    ensures Reachable(t)
  {
    var fs: seq<Event> :| Exec(Init(), fs) == Some(s);
    ExecConcat(Init(), fs, es);
    assert Exec(Init(), fs + es) == Some(t);
  }

  lemma ExecAround(s: State, e: Event, es: seq<Event>, t: State, f: Event)
    requires Enabled(s, e) && Exec(Step(s, e), es) == Some(t) && Enabled(t, f)
    ensures Exec(s, [e] + es + [f]) == Some(Step(t, f))
  {
    assert ([e] + es)[1..] == es;
    ExecSnoc(s, [e] + es, f);
  }

  lemma ReachableStep(s: State, e: Event)
    requires Reachable(s) && Enabled(s, e)
    ensures Reachable(Step(s, e))
  {
    ExecSnoc(s, [], e);
    ReachableConcat(s, [] + [e], Step(s, e));
  }

  /** The sweep can always run to its end without any other step in between. */
  lemma {:induction false} SweepCanFinish(s: State) returns (es: seq<Event>, t: State)
    requires Inv(s) && s.phase.Sweeping?
    ensures Exec(s, es) == Some(t) && t.phase.Swept?
    ensures t.pc == s.pc && t.clients == s.clients && |t.conns| == |s.conns|
    decreases if s.phase.Sweeping? then |s.phase.todo| else 0
  {
    if s.phase.todo == {} {
      es, t := [UnlockClients], Step(s, UnlockClients);
      assert es[1..] == [];
    } else {
      var c :| c in s.phase.todo;
      var u := Step(s, SweepConn(c));
      StepKeepsInv(s, SweepConn(c));
      es, t := SweepCanFinish(u);
      es := [SweepConn(c)] + es;
    }
  }

  /** A datagram held from an unregistered sender can outlive the sweep. */
  lemma HeldDatagramCanEscape(s: State) returns (es: seq<Event>, t: State)
    requires Inv(s) && s.phase.SocketClosed? && Held(s) == 1
    ensures Exec(s, es) == Some(t) && t.phase.Swept? && !AllShut(t)
  {
    var u := Step(s, LockClients);
    StepKeepsInv(s, LockClients);
    var sweep, v := SweepCanFinish(u);
    t := Step(v, Dispatch);
    assert t.conns[|v.conns|].open;
    es := [LockClients] + sweep + [Dispatch];
    ExecAround(s, LockClients, sweep, v, Dispatch);
  }

  /** Close leaves no connection open, whatever the schedule, exactly when readLoop was not
      holding the first datagram of a new sender as the socket closed. */
  lemma CloseIsCompleteIff(s: State)
    requires Reachable(s) && s.phase.SocketClosed?
    ensures (forall es: seq<Event>, t: State :: Exec(s, es) == Some(t) && t.phase.Swept? ==> AllShut(t))
            <==> !(s.pc.Dispatching? && s.pc.from !in s.clients)
  {
    ReachableInv(s);
    if Held(s) == 0 {
      forall es: seq<Event>, t: State | Exec(s, es) == Some(t) && t.phase.Swept? ensures AllShut(t) {
        SweepReachesAll(s, es, t);
      }
    } else {
      var es, t := HeldDatagramCanEscape(s);
    }
  }

  // ---------- Close seen before it is called ----------

  /** From every state in which readLoop waits for a datagram, one from a new sender that
      comes between the start of Close and the closing of the socket can leave its
      connection open. */
  lemma CloseCanMissNewSender(s: State, d: Datagram) returns (es: seq<Event>, t: State)
    requires Reachable(s) && s.phase.Idle? && s.pc.Receiving?
    requires d.from !in s.clients && |d.payload| <= BUFFER_SIZE
    ensures Exec(s, es) == Some(t) && t.phase.Swept? && !AllShut(t)
  {
    ReachableInv(s);
    ExecSnoc(s, [], StartClose);
    ExecSnoc(s, [] + [StartClose], Receive(d));
    ExecSnoc(s, [] + [StartClose] + [Receive(d)], CloseSocket);
    var first := [] + [StartClose] + [Receive(d)] + [CloseSocket];
    var v := Exec(s, first).value;
    RunKeepsInv(s, first);
    var rest;
    rest, t := HeldDatagramCanEscape(v);
    ExecConcat(s, first, rest);
    es := first + rest;
  }

  /** readLoop has not failed a receive. */
  predicate LoopRuns(s: State) {
    s.pc.Receiving? || s.pc.Dispatching? || s.pc.Writing?
  }

  /** A blocked write can always be made to return: by closing its connection. */
  lemma WriteCanReturn(s: State) returns (es: seq<Event>, t: State)
    requires Inv(s) && s.phase.Idle? && s.pc.Writing? && s.pc.conn in s.accepted
    ensures Exec(s, es) == Some(t) && t.phase.Idle? && t.pc.Receiving?
  {
    var shut := CloseConn(s.pc.conn);
    ExecSnoc(s, [], shut);
    ExecSnoc(s, [] + [shut], WriteAborts);
    es, t := [] + [shut] + [WriteAborts], Step(Step(s, shut), WriteAborts);
  }

  lemma WaitingIsAccepted(s: State)
    requires Inv(s) && s.pc.Writing? && s.queue == []
    ensures s.pc.conn in s.accepted
  {
    assert s.accepted[s.pc.conn] == s.pc.conn;
  }

  lemma WriteCanBeReleased(s: State) returns (es: seq<Event>, t: State)
    requires Inv(s) && s.phase.Idle? && s.pc.Writing?
    ensures Exec(s, es) == Some(t) && t.phase.Idle? && t.pc.Receiving?
  {
    if s.queue == [] {
      WaitingIsAccepted(s);
      es, t := WriteCanReturn(s);
    } else {
      var u := Step(s, Accept);
      StepKeepsInv(s, Accept);
      WaitingIsAccepted(u);
      es, t := WriteCanReturn(u);
      es := [Accept] + es;
    }
  }

  /** A running readLoop can always get back to its receive. */
  lemma LoopCanReceive(s: State) returns (es: seq<Event>, t: State)
    requires Inv(s) && s.phase.Idle? && LoopRuns(s)
    ensures Exec(s, es) == Some(t) && t.phase.Idle? && t.pc.Receiving?
  {
    if s.pc.Receiving? {
      es, t := [], s;
    } else if s.pc.Writing? {
      es, t := WriteCanBeReleased(s);
    } else {
      var u := Step(s, Dispatch);
      StepKeepsInv(s, Dispatch);
      es, t := WriteCanBeReleased(u);
      es := [Dispatch] + es;
    }
  }

  /** There is always a sender that is not registered. */
  lemma NewSender(senders: set<Addr>) returns (a: Addr)
    ensures a !in senders && forall b <- senders :: |b| < |a|
    decreases |senders|
  {
    a := "a";
    if senders != {} {
      var b :| b in senders;
      a := NewSender(senders - {b});
      a := a + b + "a";
    }
  }

  lemma {:induction false} StoppedLoopMissesNone(s: State, es: seq<Event>, t: State)
    requires Inv(s) && !LoopRuns(s) && (s.phase.Swept? ==> AllShut(s))
    requires Exec(s, es) == Some(t) && t.phase.Swept?
    ensures AllShut(t)
    decreases |es|
  {
    if es != [] {
      StepKeepsInv(s, es[0]);
      StoppedLoopMissesNone(Step(s, es[0]), es[1..], t);
    }
  }

  lemma RunningLoopCanMiss(s: State) returns (es: seq<Event>, t: State)
    requires Reachable(s) && s.phase.Idle? && LoopRuns(s)
    ensures Exec(s, es) == Some(t) && t.phase.Swept? && !AllShut(t)
  {
    ReachableInv(s);
    var u;
    es, u := LoopCanReceive(s);
    ReachableConcat(s, es, u);
    var a := NewSender(u.clients.Keys);
    var more;
    more, t := CloseCanMissNewSender(u, Datagram(a, []));
    ExecConcat(s, es, more);
    es := es + more;
  }

  /** Before Close has been called it is certain to leave no connection open exactly when
      readLoop has already failed a receive. */
  lemma CloseIsSureIff(s: State)
    requires Reachable(s) && s.phase.Idle?
    ensures (forall es: seq<Event>, t: State :: Exec(s, es) == Some(t) && t.phase.Swept? ==> AllShut(t))
            <==> !LoopRuns(s)
  {
    ReachableInv(s);
    if LoopRuns(s) {
      var es, t := RunningLoopCanMiss(s);
    } else {
      forall es: seq<Event>, t: State | Exec(s, es) == Some(t) && t.phase.Swept? ensures AllShut(t) {
        StoppedLoopMissesNone(s, es, t);
      }
    }
  }

  lemma CloseFromFailure(s: State) returns (es: seq<Event>, t: State)
    requires Inv(s) && s.phase.Flagged? && s.pc.AwaitingClose?
    ensures Exec(s, es) == Some(t) && t.phase.Swept? && t.pc.Exited?
  {
    var u := Step(s, CloseSocket);
    StepKeepsInv(s, CloseSocket);
    var v := Step(u, LockClients);
    StepKeepsInv(u, LockClients);
    var sweep, w := SweepCanFinish(v);
    t := Step(w, CloseReturns);
    ExecAround(u, LockClients, sweep, w, CloseReturns);
    ExecCons(s, CloseSocket, [LockClients] + sweep + [CloseReturns], t);
    es := [CloseSocket] + ([LockClients] + sweep + [CloseReturns]);
  }

  /** A receive can fail at any time; on an open listener the loop can then close it, all its
      connections with it, and return. */
  lemma FailedReceiveCanClose(s: State) returns (es: seq<Event>, t: State)
    requires Reachable(s) && s.phase.Idle? && s.pc.Receiving?
    ensures Exec(s, es) == Some(t) && t.phase.Swept? && t.pc.Exited? && AllShut(t)
    ensures t.received == s.received
  {
    ReachableInv(s);
    var u := Step(Step(s, ReceiveFails), CheckClosed);
    StepKeepsInv(s, ReceiveFails);
    StepKeepsInv(Step(s, ReceiveFails), CheckClosed);
    StepKeepsInv(u, CallClose);
    es, t := CloseFromFailure(Step(u, CallClose));
    ExecCons(u, CallClose, es, t);
    es := [CallClose] + es;
    StoppedLoopMissesNone(u, es, t);
    NothingReceivedAfterFailure(u, es, t);
    ExecCons(Step(s, ReceiveFails), CheckClosed, es, t);
    ExecCons(s, ReceiveFails, [CheckClosed] + es, t);
    es := [ReceiveFails] + ([CheckClosed] + es);
  }

  lemma {:induction false} NothingReceivedAfterFailure(s: State, es: seq<Event>, t: State)
    requires !LoopRuns(s) && Exec(s, es) == Some(t)
    ensures t.received == s.received && !LoopRuns(t)
    decreases |es|
  {
    if es != [] {
      NothingReceivedAfterFailure(Step(s, es[0]), es[1..], t);
    }
  }

  // ---------- readLoop ends ----------

  predicate IsLoopEvent(e: Event) {
    e.Receive? || e.ReceiveFails? || e.CheckClosed? || e.CallClose? || e.CloseReturns?
    || e.Dispatch? || e.WriteAborts?
  }

  function LoopSteps(es: seq<Event>): nat {
    if es == [] then 0 else (if IsLoopEvent(es[0]) then 1 else 0) + LoopSteps(es[1..])
  }

  ghost function StepsLeft(s: State): nat {
    match s.pc
    case Dispatching(_, _) => 5
    case Writing(_, _, _) => 4
    case Receiving => 3
    case Failed => 2
    case CallingClose => 2
    case AwaitingClose => 1
    case Exited => 0
  }

  /** Once the socket is closed readLoop takes at most five more steps, however the other
      goroutines are scheduled. */
  lemma {:induction false} LoopIsBoundedAfterClose(s: State, es: seq<Event>, t: State)
    requires !s.phase.SocketOpen() && Exec(s, es) == Some(t)
    ensures LoopSteps(es) + StepsLeft(t) <= StepsLeft(s) <= 5
    decreases |es|
  {
    if es != [] {
      var u := Step(s, es[0]);
      assert StepsLeft(u) + (if IsLoopEvent(es[0]) then 1 else 0) <= StepsLeft(s);
      LoopIsBoundedAfterClose(u, es[1..], t);
    }
  }

  /** When readLoop has called Close it does not return before the sweep is over. */
  lemma {:induction false} OwnCloseReturnsSwept(s: State, es: seq<Event>, t: State)
    requires s.pc.AwaitingClose? || (s.pc.Exited? && s.phase.Swept?)
    requires Exec(s, es) == Some(t) && t.pc.Exited?
    ensures t.phase.Swept?
    decreases |es|
  {
    if es != [] {
      OwnCloseReturnsSwept(Step(s, es[0]), es[1..], t);
    }
  }

  /** After the sweep a readLoop that can take no step has exited, or is blocked writing to
      the one connection that escaped, and nothing else is open. */
  lemma LoopExitsOrBlocksOnEscaped(s: State)
    requires Reachable(s) && s.phase.Swept?
    requires forall e: Event :: IsLoopEvent(e) ==> !Enabled(s, e)
    ensures s.pc.Exited? ||
            (&& s.pc.Writing? && s.pc.conn == |s.conns| - 1 && s.conns[s.pc.conn].open
             && forall c: nat :: c < |s.conns| && s.conns[c].open ==> c == s.pc.conn)
  {
    ReachableInv(s);
    assert !Enabled(s, ReceiveFails) && !Enabled(s, CheckClosed) && !Enabled(s, CallClose);
    assert !Enabled(s, CloseReturns) && !Enabled(s, Dispatch) && !Enabled(s, WriteAborts);
  }
}
