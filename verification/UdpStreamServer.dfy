/**
  The listener's objects.  Every method is one atomic section of the program, or a run of
  them that nothing interrupts; it updates the fields in place and moves the abstract state
  `st` by the steps of the system in UdpListener that its contract names.  The state of a
  valid listener is one that a schedule reaches, so all that is proved of those holds of
  these objects.
 */
module UdpStreamServer {
  import opened Wrappers
  import opened UdpListener
  import opened UdpListenerProofs
  import opened UdpListenerTheorems

  /** A per-sender connection; `open` is false once its once-guarded Close has run. */
  class VirtualConn {
    const remote: Addr
    var open: bool

    constructor (remote: Addr)
      ensures this.remote == remote && open
    {
      this.remote := remote;
      open := true;
    }

    /** A second call changes nothing. */
    method Close()
      modifies this
      ensures !open && (old(!open) ==> unchanged(this))
    {
      if open {
        open := false;
      }
    }
  }

  /** Where readLoop stands. */
  datatype Position = AtReceive | AtDispatch | AtWrite | AtCheck | AtClose | Returned

  function PositionOf(pc: Pc): Position {
    match pc
    case Receiving => AtReceive
    case Dispatching(_, _) => AtDispatch
    case Writing(_, _, _) => AtWrite
    case Failed => AtCheck
    case CallingClose => AtClose
    case AwaitingClose => AtClose
    case Exited => Returned
  }

  /** The map holds, under each sender's address, the object of that sender's connection. */
  ghost predicate ClientsAre(clients: map<Addr, VirtualConn>, ids: map<Addr, ConnId>, conns: seq<Conn>)
    reads clients.Values
  {
    && clients.Keys == ids.Keys
    && (forall a <- clients :: ids[a] < |conns|)
    && (forall a <- clients :: clients[a].remote == a == conns[ids[a]].remote)
    && (forall a <- clients :: clients[a].open == conns[ids[a]].open)
  }

  /** `c` is the object of connection `id`. */
  ghost predicate IsConn(clients: map<Addr, VirtualConn>, conns: seq<Conn>, id: ConnId, c: VirtualConn?) {
    id < |conns| && conns[id].remote in clients && c == clients[conns[id].remote]
  }

  ghost predicate QueueIs(clients: map<Addr, VirtualConn>, channel: seq<VirtualConn>, queue: seq<ConnId>,
                          conns: seq<Conn>) {
    |channel| == |queue| && forall i :: 0 <= i < |queue| ==> IsConn(clients, conns, queue[i], channel[i])
  }

  lemma GrownQueue(clients: map<Addr, VirtualConn>, channel: seq<VirtualConn>, queue: seq<ConnId>, conns: seq<Conn>,
                   conn: Conn, c: VirtualConn)
    requires QueueIs(clients, channel, queue, conns) && conn.remote !in clients
    ensures QueueIs(clients[conn.remote := c], channel, queue, conns + [conn])
  {
    forall i | 0 <= i < |queue| ensures IsConn(clients[conn.remote := c], conns + [conn], queue[i], channel[i]) {
      assert IsConn(clients, conns, queue[i], channel[i]);
    }
  }

  class Listener {
    const buf: array<uint8>
    var clients: map<Addr, VirtualConn>
    var acceptChan: seq<VirtualConn>
    var closed: bool
    var socketOpen: bool

    // where readLoop stands, its locals, and the window of `buf` that its pipe write still offers
    var at: Position
    var from: Addr
    var client: VirtualConn?
    var off: nat
    var n: nat

    ghost var st: State

    ghost predicate LoopIs(pc: Pc, conns: seq<Conn>)
      reads this`clients, this`at, this`from, this`client, this`off, this`n
    {
      && at == PositionOf(pc)
      && (pc.Dispatching? ==> from == pc.from && n == pc.n)
      && (pc.Writing? ==> IsConn(clients, conns, pc.conn, client) && off == pc.off && n == pc.n)
    }

    ghost predicate PhaseIs(phase: ClosePhase)
      reads this`closed, this`socketOpen
    {
      closed == !phase.Idle? && socketOpen == phase.SocketOpen()
    }

    ghost predicate BufferIs(bytes: seq<uint8>)
      reads buf
    {
      buf[..] == bytes
    }

    /** The fields are those of the abstract state. */
    ghost predicate Refines()
      reads this, buf, clients.Values
    {
      && ClientsAre(clients, st.clients, st.conns) && QueueIs(clients, acceptChan, st.queue, st.conns)
      && LoopIs(st.pc, st.conns) && PhaseIs(st.phase) && BufferIs(st.buf)
    }

    ghost predicate Valid()
      reads this, buf, clients.Values
    {
      Refines() && Reachable(st)
    }

    /** No more than one connection waits for Accept. */
    lemma AtMostOneWaits()
      requires Valid()
      ensures |acceptChan| <= 1
    {
      AcceptedOnceInOrder(st);
    }

    /** What the connection of a sender has delivered is a prefix of what that sender sent,
        and all of it while the connection is open and readLoop waits for a datagram. */
    lemma StreamIsFaithful(a: Addr)
      requires Valid() && a in clients
      ensures a in st.clients && st.clients[a] < |st.conns|
      ensures var delivered := st.conns[st.clients[a]].delivered;
              && delivered <= Sent(st.received, a)
              && (clients[a].open && at.AtReceive? ==> delivered == Sent(st.received, a))
    {
      ReassemblyIsFaithful(st, st.clients[a]);
    }

    /** After Close the only open connection, if any, is the last one registered. */
    lemma AtMostOneOpen(a: Addr, b: Addr)
      requires Valid() && st.phase.Swept? && a in clients && b in clients && clients[a].open && clients[b].open
      ensures a == b
    {
      AtMostOneEscapes(st, st.clients[a], st.clients[b]);
    }

    constructor ()
      ensures Valid() && st == Init()
      ensures fresh(buf)
    {
      buf := new uint8[BUFFER_SIZE](i => 0);
      clients, acceptChan := map[], [];
      closed, socketOpen := false, true;
      at, from, client, off, n := AtReceive, "", null, 0, 0;
      st := Init();
      new;
      assert buf[..] == st.buf;
      assert Exec(Init(), []) == Some(Init());
    }

    method FillBuffer(payload: seq<uint8>)
      requires |payload| <= buf.Length
      modifies buf
      ensures buf[..] == payload + old(buf[..])[|payload|..]
    {
      forall i | 0 <= i < |payload| {
        buf[i] := payload[i];
      }
    }

    /** ReadFromUDP returns a datagram, copied over the front of the shared buffer. */
    method ReceiveDatagram(d: Datagram)
      requires Valid() && Enabled(st, Receive(d))
      modifies this`at, this`from, this`n, this`st, buf
      ensures Valid() && st == Step(old(st), Receive(d))
    {
      ReachableStep(st, Receive(d));
      FillBuffer(d.payload);
      at, from, n := AtDispatch, d.from, |d.payload|;
      st := Step(st, Receive(d));
    }

    /** A connection object is entered in the map. */
    method Enter(c: VirtualConn)
      requires Refines() && st.pc.Dispatching? && from !in clients
      requires c.remote == from && c.open
      modifies this`clients, this`st
      ensures Refines() && st == AddClient(old(st), from) && clients == old(clients)[from := c]
    {
      GrownQueue(clients, acceptChan, st.queue, st.conns, Conn(from, true, []), c);
      clients := clients[from := c];
      st := AddClient(st, from);
    }

    /** The sender gets a new connection object. */
    method AddSender()
      requires Refines() && st.pc.Dispatching? && from !in clients
      modifies this`clients, this`st
      ensures Refines() && st == AddClient(old(st), from)
      ensures from in clients && fresh(clients[from]) && clients == old(clients)[from := clients[from]]
    {
      var c := new VirtualConn(from);
      Enter(c);
    }

    /** The non-blocking send to the accept channel. */
    method OfferToAccept(ghost id: ConnId, c: VirtualConn)
      requires Refines() && IsConn(clients, st.conns, id, c)
      modifies this`acceptChan, this`st
      ensures Refines() && st == Offer(old(st), id)
      ensures acceptChan == if |old(acceptChan)| < ACCEPT_CAPACITY then old(acceptChan) + [c] else old(acceptChan)
    {
      if |acceptChan| < ACCEPT_CAPACITY {
        acceptChan := acceptChan + [c];
        st := st.(queue := st.queue + [id]);
      }
    }

    /** A sender without a connection gets one. */
    method Register()
      requires Refines() && st.pc.Dispatching? && from !in clients
      modifies this`clients, this`acceptChan, this`st
      ensures Refines() && st == Offer(AddClient(old(st), from), |old(st).conns|)
      ensures from in clients
      ensures |old(acceptChan)| < ACCEPT_CAPACITY ==> acceptChan == old(acceptChan) + [clients[from]]
    {
      AddSender();
      OfferToAccept(st.clients[from], clients[from]);
    }

    /** The pipe write starts. */
    method StartWrite()
      requires Refines() && st.pc.Dispatching? && from in clients
      modifies this`at, this`client, this`off, this`st
      ensures Refines() && client == clients[from]
      ensures st == old(st).(pc := Writing(old(st).clients[from], 0, n))
    {
      at, client, off := AtWrite, clients[from], 0;
      st := st.(pc := Writing(st.clients[from], 0, n));
    }

    method RegisterAndWrite()
      requires Refines() && Enabled(st, Dispatch) && from !in clients
      modifies this`clients, this`acceptChan, this`at, this`client, this`off, this`st
      ensures Refines() && st == Step(old(st), Dispatch) && client == clients[from]
      ensures |old(acceptChan)| < ACCEPT_CAPACITY ==> acceptChan == old(acceptChan) + [client]
    {
      Register();
      StartWrite();
    }

    /** The section of readLoop under clientsMu, up to the start of the pipe write.  The
        channel never turns a new connection away: it is empty when one is offered. */
    method DispatchDatagram()
      requires Valid() && Enabled(st, Dispatch)
      modifies this`clients, this`acceptChan, this`at, this`client, this`off, this`st
      ensures Valid() && st == Step(old(st), Dispatch)
      ensures client == clients[from]
      ensures from in old(clients) ==> acceptChan == old(acceptChan)
      ensures from !in old(clients) ==> old(acceptChan) == [] && acceptChan == [client]
    {
      ReachableStep(st, Dispatch);
      if from in clients {
        StartWrite();
      } else {
        AcceptQueueNeverDrops(st);
        RegisterAndWrite();
      }
    }

    /** The oldest connection leaves the channel. */
    method TakeAccepted() returns (c: VirtualConn)
      requires Refines() && Enabled(st, Accept)
      modifies this`acceptChan, this`st
      ensures Refines() && st == Step(old(st), Accept) && IsConn(clients, st.conns, old(st.queue[0]), c)
    {
      c := acceptChan[0];
      acceptChan := acceptChan[1..];
      st := Step(st, Accept);
    }

    /** Accept takes the next connection; with none waiting it fails once the listener is
        closed, and otherwise blocks.  With both ready the choice is free. */
    method AcceptConn(preferClosed: bool) returns (c: VirtualConn?)
      requires Valid() && (Enabled(st, Accept) || closed)
      modifies this`acceptChan, this`st
      ensures Valid()
      ensures c == null ==> st == old(st) && closed
      ensures c != null ==>
                && old(Enabled(st, Accept)) && st == Step(old(st), Accept)
                && IsConn(clients, st.conns, old(st.queue[0]), c)
    {
      if |acceptChan| == 0 || (preferClosed && closed) {
        return null;
      }
      ReachableStep(st, Accept);
      c := TakeAccepted();
    }

    /** Go's copy, from the window of the pending write to the reader's array. */
    method CopyWindow(b: array<uint8>) returns (count: nat)
      requires off <= n <= buf.Length && b != buf
      modifies b
      ensures count == Min(b.Length, n - off) && b[..count] == buf[off..off + count]
      ensures b[count..] == old(b[count..])
      ensures old(Refines()) ==> Refines()
    {
      count := Min(b.Length, n - off);
      forall i | 0 <= i < count {
        b[i] := buf[off + i];
      }
    }

    /** The reader has its bytes. */
    ghost method Deliver(id: ConnId, chunk: seq<uint8>)
      requires Refines() && id < |st.conns|
      modifies this`st
      ensures Refines() && st == old(st).(conns := Delivered(old(st).conns, id, chunk))
    {
      st := st.(conns := Delivered(st.conns, id, chunk));
    }

    /** The window of the pending write shrinks, and the write returns when it is used up. */
    method Shrink(count: nat)
      requires Refines() && st.pc.Writing? && off + count <= n
      modifies this`at, this`off, this`st
      ensures Refines() && st == old(st).(pc := After(old(st).pc, count))
      ensures at.AtReceive? <==> old(off) + count == n
    {
      ghost var pc := After(st.pc, count);
      off := off + count;
      if off == n {
        at := AtReceive;
      }
      st := st.(pc := pc);
    }

    method Advance(ghost id: ConnId, ghost room: nat, count: nat)
      requires Refines() && Enabled(st, Read(id, room)) && count == Min(room, n - off)
      modifies this`at, this`off, this`st
      ensures Refines() && st == Step(old(st), Read(id, room))
      ensures at.AtReceive? <==> old(off) + count == n
    {
      Deliver(id, st.buf[off..off + count]);
      Shrink(count);
    }

    /** The rendezvous itself: it copies what fits into the reader's array and releases
        readLoop when it takes the last byte. */
    method TakeBytes(ghost id: ConnId, b: array<uint8>, ghost chunk: seq<uint8>) returns (count: nat)
      requires Refines() && Enabled(st, Read(id, b.Length)) && b != buf
      requires chunk == st.buf[st.pc.off..st.pc.off + Min(b.Length, st.pc.n - st.pc.off)]
      modifies this`at, this`off, this`st, b
      ensures Refines() && st == Step(old(st), Read(id, b.Length))
      ensures count == |chunk| <= b.Length && b[..count] == chunk && b[count..] == old(b[count..])
      ensures at.AtReceive? <==> old(off) + count == n
    {
      count := CopyWindow(b);
      assert b[..count] == chunk;
      Advance(id, b.Length, count);
    }

    /** One read that meets the pending write.  It returns the next bytes of the datagram
        being written, which the sender of that connection sent last, and they follow those
        that the connection has delivered before. */
    method ReadInto(ghost id: ConnId, b: array<uint8>) returns (count: nat, ghost d: Datagram)
      requires Valid() && Enabled(st, Read(id, b.Length)) && b != buf
      modifies this`at, this`off, this`st, b
      ensures Valid() && st == Step(old(st), Read(id, b.Length))
      ensures old(off) <= n == |d.payload| && count == Min(b.Length, n - old(off))
      ensures at.AtReceive? <==> old(off) + count == n
      ensures b[count..] == old(b[count..])
      ensures st.conns[id].delivered == old(st).conns[id].delivered + b[..count]
      ensures old(st).received != [] && d == old(st).received[|old(st).received| - 1]
      ensures d.from == old(st).conns[id].remote
      ensures b[..count] == d.payload[old(off)..old(off) + count]
    {
      ghost var chunk;
      chunk, d := ReadDelivers(st, id, b.Length);
      count := TakeBytes(id, b, chunk);
    }

    /** A consumer reads a connection it was given: a closed one fails, and an open one
        blocks until it meets a write. */
    method ReadConn(c: VirtualConn, b: array<uint8>) returns (count: Option<nat>)
      requires Valid() && c.remote in clients && clients[c.remote] == c && b != buf
      requires c.open ==> Enabled(st, Read(st.clients[c.remote], b.Length))
      modifies this`at, this`off, this`st, b
      ensures Valid() && (count.Some? <==> old(c.open))
      ensures count.None? ==> unchanged(this) && unchanged(b)
      ensures count.Some? ==>
                var id := old(st.clients[c.remote]);
                && st == Step(old(st), Read(id, b.Length))
                && old(off) <= n && count.value == Min(b.Length, n - old(off))
                && (at.AtReceive? <==> old(off) + count.value == n)
                && st.conns[id].delivered == old(st.conns[id].delivered) + b[..count.value]
    {
      if !c.open {
        return None;
      }
      var k, _ := ReadInto(st.clients[c.remote], b);
      return Some(k);
    }

    /** The write returns because its pipe was closed. */
    method AbortWrite()
      requires Valid() && at.AtWrite? && !client.open
      modifies this`at, this`st
      ensures Valid() && at.AtReceive?
      ensures Enabled(old(st), WriteAborts) && st == Step(old(st), WriteAborts)
    {
      SenderOfConn(st, st.pc.conn);
      ReachableStep(st, WriteAborts);
      at := AtReceive;
      st := Step(st, WriteAborts);
    }

    /** The connection of a registered sender is closed. */
    method ShutClient(a: Addr)
      requires Refines() && a in clients
      modifies this`st, clients[a]
      ensures Refines() && st == old(st).(conns := Shut(old(st).conns, old(st).clients[a]))
      ensures !clients[a].open
    {
      clients[a].Close();
      st := st.(conns := Shut(st.conns, st.clients[a]));
    }

    /** A consumer closes a connection it was given. */
    method CloseConnection(c: VirtualConn)
      requires Valid() && c.remote in clients && clients[c.remote] == c
      requires Enabled(st, CloseConn(st.clients[c.remote]))
      modifies this`st, c
      ensures Valid() && !c.open && st == Step(old(st), CloseConn(old(st.clients[c.remote])))
    {
      ReachableStep(st, CloseConn(st.clients[c.remote]));
      ShutClient(c.remote);
    }

    /** The sweep holds the mutex and has the connections of `todo` still to close. */
    ghost predicate SweepAt(todo: set<Addr>)
      reads this
    {
      todo <= clients.Keys && todo <= st.clients.Keys && st.phase == Sweeping(Ids(st.clients, todo))
    }

    /** The sweep takes the mutex. */
    method LockForSweep() returns (todo: set<Addr>)
      requires Valid() && Enabled(st, LockClients)
      modifies this`st
      ensures Valid() && st == Step(old(st), LockClients)
      ensures SweepAt(todo) && todo == clients.Keys
    {
      ReachableStep(st, LockClients);
      st := Step(st, LockClients);
      todo := clients.Keys;
      assert st.clients.Values == Ids(st.clients, todo);
    }

    /** The sweep goes on. */
    ghost method MovePhase(phase: ClosePhase)
      requires Refines() && st.phase.Sweeping? && phase.Sweeping?
      modifies this`st
      ensures Refines() && st == old(st).(phase := phase)
    {
      st := st.(phase := phase);
    }

    /** The sweep closes the connection of one of the senders still `todo`. */
    method SweepNext(todo: set<Addr>) returns (rest: set<Addr>, ghost e: Event)
      requires Valid() && SweepAt(todo) && todo != {}
      modifies this`st, clients.Values
      ensures Valid() && SweepAt(rest) && rest < todo
      ensures Enabled(old(st), e) && st == Step(old(st), e) && st.pc == old(st).pc
    {
      var a :| a in todo;
      rest := todo - {a};
      e := SweepConn(st.clients[a]);
      IdsWithout(st, todo, a);
      ReachableStep(st, e);
      ShutClient(a);
      MovePhase(Sweeping(st.phase.todo - {st.clients[a]}));
    }

    /** The sweep is over and releases the mutex. */
    method Unlock()
      requires Valid() && Enabled(st, UnlockClients)
      modifies this`st
      ensures Valid() && st == Step(old(st), UnlockClients)
    {
      ReachableStep(st, UnlockClients);
      st := Step(st, UnlockClients);
    }

    method SweepRest(todo: set<Addr>) returns (ghost es: seq<Event>)
      requires Valid() && SweepAt(todo)
      modifies this`st, clients.Values
      ensures Valid() && SweepAt({}) && Exec(old(st), es) == Some(st) && st.pc == old(st).pc
    {
      ghost var st0 := st;
      es := [];
      var left := todo;
      while left != {}
        invariant Valid() && SweepAt(left)
        invariant Exec(st0, es) == Some(st) && st.pc == st0.pc
        decreases left
      {
        ghost var e;
        left, e := SweepNext(left);
        ExecSnoc(st0, es, e);
        es := es + [e];
      }
    }

    /** The body of the listener's Close from the point where it takes the mutex, when no
        other goroutine interrupts it: one schedule of the system, which closes every
        connection. */
    method Sweep() returns (ghost es: seq<Event>)
      requires Valid() && Enabled(st, LockClients)
      modifies this`st, clients.Values
      ensures Valid() && Exec(old(st), es) == Some(st) && st.phase.Swept?
      ensures st.pc == old(st).pc && AllShut(st)
    {
      ghost var st0 := st;
      var todo := LockForSweep();
      es := SweepRest(todo);
      ExecAround(st0, LockClients, es, st, UnlockClients);
      es := [LockClients] + es + [UnlockClients];
      SweepShutsAll(st);
      Unlock();
    }

    /** Close flags the listener; `e` is the step of its caller. */
    method Flag(ghost e: Event)
      requires Valid() && st.phase.Idle? && Enabled(st, e) && (e.StartClose? || e.CallClose?)
      modifies this`closed, this`st
      ensures Valid() && closed && st == Step(old(st), e)
    {
      ReachableStep(st, e);
      closed := true;
      st := Step(st, e);
    }

    method CloseTheSocket()
      requires Valid() && Enabled(st, CloseSocket)
      modifies this`socketOpen, this`st
      ensures Valid() && !socketOpen && st == Step(old(st), CloseSocket)
    {
      ReachableStep(st, CloseSocket);
      socketOpen := false;
      st := Step(st, CloseSocket);
    }

    /** Close flags the listener and closes the socket. */
    method CloseSocketFirst(ghost e: Event) returns (ghost es: seq<Event>)
      requires Valid() && st.phase.Idle? && Enabled(st, e) && (e.StartClose? || e.CallClose?)
      modifies this`closed, this`socketOpen, this`st
      ensures Valid() && closed && !socketOpen && st.phase.SocketClosed?
      ensures Exec(old(st), es) == Some(st)
      ensures st == old(st).(pc := st.pc, phase := SocketClosed)
      ensures st.pc == if e.CallClose? then AwaitingClose else old(st).pc
    {
      ExecSnoc(st, [], e);
      ExecSnoc(st, [] + [e], CloseSocket);
      es := [] + [e] + [CloseSocket];
      Flag(e);
      CloseTheSocket();
    }

    /** The listener's Close, once-guarded, when no other goroutine interrupts it; `e` is the
        step of its caller. */
    method Close(ghost e: Event) returns (ghost es: seq<Event>)
      requires Valid() && (st.phase.Swept? || (st.phase.Idle? && Enabled(st, e) && (e.StartClose? || e.CallClose?)))
      modifies this`closed, this`socketOpen, this`st, clients.Values
      ensures Valid() && closed && Exec(old(st), es) == Some(st) && st.phase.Swept?
      ensures old(closed) ==> st == old(st)
      ensures old(!closed) ==> AllShut(st) && st.pc == if e.CallClose? then AwaitingClose else old(st).pc
    {
      es := [];
      if !closed {
        ghost var st0 := st;
        es := CloseSocketFirst(e);
        ghost var rest := Sweep();
        ExecConcat(st0, es, rest);
        es := es + rest;
      }
    }

    /** The receive fails and the loop looks at the flag. */
    method CheckAfterFailure() returns (ghost es: seq<Event>)
      requires Valid() && Enabled(st, ReceiveFails)
      modifies this`at, this`st
      ensures Valid() && Exec(old(st), es) == Some(st)
      ensures st == old(st).(pc := if closed then Exited else CallingClose)
    {
      ReachableStep(st, ReceiveFails);
      ReachableStep(Step(st, ReceiveFails), CheckClosed);
      ExecSnoc(st, [], ReceiveFails);
      ExecSnoc(st, [] + [ReceiveFails], CheckClosed);
      es := [] + [ReceiveFails] + [CheckClosed];
      at := if closed then Returned else AtClose;
      st := Step(Step(st, ReceiveFails), CheckClosed);
    }

    /** The loop's own call of Close returns, and so does the loop. */
    method ReturnFromClose()
      requires Valid() && Enabled(st, CloseReturns)
      modifies this`at, this`st
      ensures Valid() && st == Step(old(st), CloseReturns)
    {
      ReachableStep(st, CloseReturns);
      at := Returned;
      st := Step(st, CloseReturns);
    }

    /** The loop's own call of Close, and its return. */
    method CloseAndReturn() returns (ghost es: seq<Event>)
      requires Valid() && st.pc.CallingClose? && st.phase.Idle?
      modifies this`at, this`closed, this`socketOpen, this`st, clients.Values
      ensures Valid() && at.Returned? && closed && !socketOpen
      ensures Exec(old(st), es) == Some(st) && st.phase.Swept? && AllShut(st)
    {
      ghost var st0 := st;
      es := Close(CallClose);
      ExecSnoc(st0, es, CloseReturns);
      es := es + [CloseReturns];
      ReturnFromClose();
    }

    /** The error path of readLoop, when nothing interrupts it: the loop returns at once if
        the listener has been closed, and otherwise closes it first. */
    method FailReceive() returns (ghost es: seq<Event>)
      requires Valid() && Enabled(st, ReceiveFails)
      modifies this`at, this`closed, this`socketOpen, this`st, clients.Values
      ensures Valid() && at.Returned? && closed && Exec(old(st), es) == Some(st)
      ensures old(closed) ==> st == old(st).(pc := Exited)
      ensures old(!closed) ==> st.phase.Swept? && !socketOpen && AllShut(st)
    {
      ghost var st0 := st;
      es := CheckAfterFailure();
      if at.Returned? {
        return;
      }
      ghost var rest := CloseAndReturn();
      ExecConcat(st0, es, rest);
      es := es + rest;
    }
  }

  ghost function Ids(m: map<Addr, ConnId>, senders: set<Addr>): set<ConnId>
    requires senders <= m.Keys
  {
    set a | a in senders :: m[a]
  }

  lemma IdsWithout(t: State, senders: set<Addr>, a: Addr)
    requires forall b <- t.clients :: t.clients[b] < |t.conns| && t.conns[t.clients[b]].remote == b
    requires senders <= t.clients.Keys && a in senders
    ensures Ids(t.clients, senders - {a}) == Ids(t.clients, senders) - {t.clients[a]}
  {
    forall b | b in senders && b != a ensures t.clients[b] != t.clients[a] {
      assert t.conns[t.clients[b]].remote == b;
    }
  }
}
