/**
  From the simulator's serialized stream to the listener's reader, over a link that loses
  and reorders nothing.
 */
module EndToEnd {
  import opened Wrappers
  import opened UdpListener
  import opened UdpListenerProofs
  import opened UdpListenerTheorems
  import opened Chunker

  /** The payloads received from `a`, in order. */
  function Payloads(received: seq<Datagram>, a: Addr): seq<seq<uint8>> {
    if received == [] then []
    else
      var d := received[|received| - 1];
      Payloads(received[..|received| - 1], a) + if d.from == a then [d.payload] else []
  }

  lemma {:induction false} SentIsConcat(received: seq<Datagram>, a: Addr)
    ensures Sent(received, a) == Concat(Payloads(received, a))
    decreases |received|
  {
    if received != [] {
      var rest, d := received[..|received| - 1], received[|received| - 1];
      SentIsConcat(rest, a);
      if d.from == a {
        ConcatAppend(Payloads(rest, a), [d.payload]);
        assert [d.payload][1..] == [];
        assert Concat([d.payload]) == d.payload;
      } else {
        assert Sent(received, a) == Sent(rest, a) && Payloads(received, a) == Payloads(rest, a);
      }
    }
  }

  lemma ConcatOfPrefix(a: seq<seq<uint8>>, b: seq<seq<uint8>>)
    requires a <= b
    ensures Concat(a) <= Concat(b)
  {
    assert b == a + b[|a|..];
    ConcatAppend(a, b[|a|..]);
  }

  /** In state `s`, the link has brought the datagrams of the chunked `writes` from sender
      `a`, in order and without loss, as far as it has got. */
  ghost predicate LinkCarries(s: State, a: Addr, writes: seq<seq<uint8>>, size: nat)
    requires size >= 1
  {
    Reachable(s) && Payloads(s.received, a) <= Datagrams(writes, size)
  }

  /** Whatever the chunk size and the sizes of the reads, the reader's stream is a prefix of
      the serialized one; it is the whole once everything has arrived and readLoop has let
      go of it. */
  lemma ReaderSeesStream(s: State, c: ConnId, writes: seq<seq<uint8>>, size: nat)
    requires size >= 1 && c < |s.conns| && LinkCarries(s, s.conns[c].remote, writes, size)
    ensures s.conns[c].delivered <= Concat(writes)
    ensures Payloads(s.received, s.conns[c].remote) == Datagrams(writes, size)
            && s.conns[c].open && s.pc.Receiving?
            ==> s.conns[c].delivered == Concat(writes)
  {
    var a := s.conns[c].remote;
    ReassemblyIsFaithful(s, c);
    SentIsConcat(s.received, a);
    DatagramsCarryStream(writes, size);
    ConcatOfPrefix(Payloads(s.received, a), Datagrams(writes, size));
  }

  /** A decoder that takes one byte at a time. */
  function Decode<S, F>(step: (S, uint8) -> (S, seq<F>), start: S, bytes: seq<uint8>): (S, seq<F>)
    decreases |bytes|
  {
    if bytes == [] then (start, [])
    else
      var (mid, out) := step(start, bytes[0]);
      var (end, more) := Decode(step, mid, bytes[1..]);
      (end, out + more)
  }

  /** It goes on from where it was, and loses no frame. */
  lemma {:induction false} DecodeGoesOn<S, F>(step: (S, uint8) -> (S, seq<F>), start: S, a: seq<uint8>, b: seq<uint8>)
    ensures var (mid, out) := Decode(step, start, a);
            var (end, more) := Decode(step, mid, b);
            Decode(step, start, a + b) == (end, out + more)
    decreases |a|
  {
    if a == [] {
      NothingBefore(b);
      NothingBefore(Decode(step, start, b).1);
    } else {
      var (next, first) := step(start, a[0]);
      var (mid, out) := Decode(step, next, a[1..]);
      DecodeGoesOn(step, next, a[1..], b);
      assert (a + b)[0] == a[0] && (a + b)[1..] == a[1..] + b;
      Assoc(first, out, Decode(step, mid, b).1);
    }
  }

  lemma OneByteDecodes<S, F>(step: (S, uint8) -> (S, seq<F>), start: S, x: uint8)
    ensures Decode(step, start, [x]) == step(start, x)
  {
    assert [x][1..] == [];
    assert step(start, x).1 + [] == step(start, x).1;
  }

  lemma {:induction false} DecodePrefix<S, F>(step: (S, uint8) -> (S, seq<F>), start: S, a: seq<uint8>, b: seq<uint8>)
    requires a <= b
    ensures Decode(step, start, a).1 <= Decode(step, start, b).1
    decreases |a|
  {
    if a != [] {
      DecodePrefix(step, step(start, a[0]).0, a[1..], b[1..]);
    }
  }

  /** Two chunkings of one stream, through any two schedules of any two listeners, give any
      decoder the same frames, as far as the slower of the two has got. */
  lemma ChunkingDoesNotMatter<S, F>(
      step: (S, uint8) -> (S, seq<F>), start: S, writes: seq<seq<uint8>>,
      s: State, c: ConnId, size: nat, s': State, c': ConnId, size': nat)
    requires size >= 1 && c < |s.conns| && LinkCarries(s, s.conns[c].remote, writes, size)
    requires size' >= 1 && c' < |s'.conns| && LinkCarries(s', s'.conns[c'].remote, writes, size')
    ensures var frames, frames' :=
              Decode(step, start, s.conns[c].delivered).1, Decode(step, start, s'.conns[c'].delivered).1;
            frames <= frames' || frames' <= frames
    ensures Decode(step, start, s.conns[c].delivered).1 <= Decode(step, start, Concat(writes)).1
  {
    ReaderSeesStream(s, c, writes, size);
    ReaderSeesStream(s', c', writes, size');
    var a, b := s.conns[c].delivered, s'.conns[c'].delivered;
    DecodePrefix(step, start, a, Concat(writes));
    if |a| <= |b| {
      assert a <= b;
      DecodePrefix(step, start, a, b);
    } else {
      assert b <= a;
      DecodePrefix(step, start, b, a);
    }
  }
}
