/**
  The simulator's chunking goroutine: it reads the serialized frames from a pipe into one
  buffer of ChunkSize bytes and sends every non-empty read as a datagram.
 */
module Chunker {
  import opened Wrappers

  function Concat(parts: seq<seq<uint8>>): seq<uint8> {
    if parts == [] then [] else parts[0] + Concat(parts[1..])
  }

  /** One write to the pipe, cut into reads of at most `size` bytes. */
  function Chunks(w: seq<uint8>, size: nat): seq<seq<uint8>>
    requires size >= 1
    decreases |w|
  {
    if w == [] then []
    else if |w| <= size then [w]
    else [w[..size]] + Chunks(w[size..], size)
  }

  /** All datagrams for a sequence of writes: a read never spans two writes. */
  function Datagrams(writes: seq<seq<uint8>>, size: nat): seq<seq<uint8>>
    requires size >= 1
    decreases |writes|
  {
    if writes == [] then [] else Chunks(writes[0], size) + Datagrams(writes[1..], size)
  }

  lemma {:induction false} ConcatAppend(a: seq<seq<uint8>>, b: seq<seq<uint8>>)
    ensures Concat(a + b) == Concat(a) + Concat(b)
    decreases |a|
  {
    if a == [] {
      assert a + b == b;
    } else {
      ConcatAppend(a[1..], b);
      assert (a + b)[1..] == a[1..] + b;
    }
  }

  lemma {:induction false} ChunksPartition(w: seq<uint8>, size: nat)
    requires size >= 1
    ensures Concat(Chunks(w, size)) == w
    decreases |w|
  {
    if |w| > size {
      var rest := Chunks(w[size..], size);
      ChunksPartition(w[size..], size);
      assert ([w[..size]] + rest)[1..] == rest;
    } else if w != [] {
      assert [w][1..] == [];
    }
  }

  lemma {:induction false} ChunksAreSmall(w: seq<uint8>, size: nat, i: nat)
    requires size >= 1 && i < |Chunks(w, size)|
    ensures 1 <= |Chunks(w, size)[i]| <= size
    decreases |w|
  {
    if |w| > size && i > 0 {
      ChunksAreSmall(w[size..], size, i - 1);
    }
  }

  /** Every read of a write but the last fills the buffer. */
  lemma {:induction false} ChunksAreFull(w: seq<uint8>, size: nat, i: nat)
    requires size >= 1 && i + 1 < |Chunks(w, size)|
    ensures |Chunks(w, size)[i]| == size
    decreases |w|
  {
    if i > 0 {
      ChunksAreFull(w[size..], size, i - 1);
    }
  }

  /** The datagrams of a stream are those of its writes, one after the other: no datagram
      holds bytes of two writes. */
  lemma {:induction false} DatagramsOfWrites(before: seq<seq<uint8>>, w: seq<uint8>, after: seq<seq<uint8>>, size: nat)
    requires size >= 1
    ensures Datagrams(before + [w] + after, size)
            == Datagrams(before, size) + Chunks(w, size) + Datagrams(after, size)
    decreases |before|
  {
    var all := before + [w] + after;
    if before == [] {
      assert all[0] == w && all[1..] == after;
    } else {
      assert all[0] == before[0] && all[1..] == before[1..] + [w] + after;
      DatagramsOfWrites(before[1..], w, after, size);
    }
  }

  /** The datagrams carry the serialized stream, whole and in order. */
  lemma {:induction false} DatagramsCarryStream(writes: seq<seq<uint8>>, size: nat)
    requires size >= 1
    ensures Concat(Datagrams(writes, size)) == Concat(writes)
    decreases |writes|
  {
    if writes != [] {
      ChunksPartition(writes[0], size);
      DatagramsCarryStream(writes[1..], size);
      ConcatAppend(Chunks(writes[0], size), Datagrams(writes[1..], size));
    }
  }

  /** No datagram is empty, and none is larger than the chunk size. */
  lemma {:induction false} DatagramsAreSmall(writes: seq<seq<uint8>>, size: nat, i: nat)
    requires size >= 1 && i < |Datagrams(writes, size)|
    ensures 1 <= |Datagrams(writes, size)[i]| <= size
    decreases |writes|
  {
    var first := Chunks(writes[0], size);
    if i < |first| {
      ChunksAreSmall(writes[0], size, i);
    } else {
      DatagramsAreSmall(writes[1..], size, i - |first|);
    }
  }

  /** The datagrams still to come when `off` bytes of the write `k` have been read. */
  ghost function Remaining(writes: seq<seq<uint8>>, k: nat, off: nat, size: nat): seq<seq<uint8>>
    requires size >= 1 && k <= |writes|
    requires k < |writes| ==> off <= |writes[k]|
  {
    if k == |writes| then []
    else Chunks(writes[k][off..], size) + Datagrams(writes[k + 1..], size)
  }

  lemma RemainingStart(writes: seq<seq<uint8>>, k: nat, size: nat)
    requires size >= 1 && k <= |writes|
    ensures Remaining(writes, k, 0, size) == Datagrams(writes[k..], size)
  {
    if k < |writes| {
      assert writes[k..][1..] == writes[k + 1..];
      assert writes[k][0..] == writes[k];
    }
  }

  lemma ChunksStep(w: seq<uint8>, size: nat)
    requires size >= 1 && w != []
    ensures Chunks(w, size) == [w[..Min(|w|, size)]] + Chunks(w[Min(|w|, size)..], size)
  {
    if |w| <= size {
      assert w[..|w|] == w && w[|w|..] == [];
    }
  }

  /** One read takes the bytes of the next datagram. */
  lemma RemainingStep(writes: seq<seq<uint8>>, k: nat, off: nat, size: nat)
    requires size >= 1 && k < |writes| && off < |writes[k]|
    ensures var n := Min(|writes[k]| - off, size);
            Remaining(writes, k, off, size)
            == [writes[k][off..off + n]] + Remaining(writes, k, off + n, size)
  {
    var n := Min(|writes[k]| - off, size);
    var rest := writes[k][off..];
    ChunksStep(rest, size);
    assert rest[..n] == writes[k][off..off + n] && rest[n..] == writes[k][off + n..];
    Assoc([rest[..n]], Chunks(rest[n..], size), Datagrams(writes[k + 1..], size));
  }

  /** A write that has been read to its end leaves the next one. */
  lemma RemainingNext(writes: seq<seq<uint8>>, k: nat, size: nat)
    requires size >= 1 && k < |writes|
    ensures Remaining(writes, k, |writes[k]|, size) == Remaining(writes, k + 1, 0, size)
  {
    RemainingStart(writes, k + 1, size);
    assert Chunks(writes[k][|writes[k]|..], size) == [];
  }

  /** One turn of the goroutine, which sends nothing for an empty read. */
  lemma RemainingTurn(writes: seq<seq<uint8>>, k: nat, off: nat, size: nat, n: nat)
    requires size >= 1 && k < |writes| && off <= |writes[k]| && n == Min(|writes[k]| - off, size)
    ensures Remaining(writes, k, off, size)
            == (if n > 0 then [writes[k][off..off + n]] else []) + Remaining(writes, k, off + n, size)
  {
    if n > 0 {
      RemainingStep(writes, k, off, size);
    } else {
      NothingBefore(Remaining(writes, k, off, size));
    }
  }

  /** One read of the pipe: it copies what is left of the current write, as far as the
      buffer goes. */
  method ReadPipe(w: seq<uint8>, off: nat, buf: array<uint8>) returns (n: nat)
    requires off <= |w|
    modifies buf
    ensures n == Min(|w| - off, buf.Length)
    ensures buf[..n] == w[off..off + n]
  {
    n := Min(|w| - off, buf.Length);
    forall i | 0 <= i < n {
      buf[i] := w[off + i];
    }
  }

  /** The empty ones among the first `k` writes. */
  function Empties(writes: seq<seq<uint8>>, k: nat): nat
    requires k <= |writes|
  {
    if k == 0 then 0 else Empties(writes, k - 1) + if writes[k - 1] == [] then 1 else 0
  }

  lemma {:induction false} EmptiesGrow(writes: seq<seq<uint8>>, k: nat, k': nat)
    requires k <= k' <= |writes|
    ensures Empties(writes, k) <= Empties(writes, k')
    decreases k'
  {
    if k < k' {
      EmptiesGrow(writes, k, k' - 1);
    }
  }

  /** `off` bytes of the write `k` have been read, and the write is still pending. */
  ghost predicate Pending(writes: seq<seq<uint8>>, k: nat, off: nat) {
    k <= |writes| && (k < |writes| ==> off == 0 || off < |writes[k]|)
  }

  /** A read moves on in its write, or to the next; only that of an empty write takes nothing. */
  lemma MovesOn(writes: seq<seq<uint8>>, k: nat, off: nat, size: nat, n: nat)
    requires size >= 1 && k < |writes| && Pending(writes, k, off) && n == Min(|writes[k]| - off, size)
    ensures off + n == |writes[k]| || (n > 0 && Pending(writes, k, off + n))
    ensures Pending(writes, k + 1, 0)
    ensures Empties(writes, k + 1) == Empties(writes, k) + if n == 0 then 1 else 0
  {}

  /** What a turn sends, and what is then to come. */
  lemma TurnSends(writes: seq<seq<uint8>>, k: nat, off: nat, size: nat, n: nat) returns (rest: seq<seq<uint8>>)
    requires size >= 1 && k < |writes| && off <= |writes[k]| && n == Min(|writes[k]| - off, size)
    ensures Remaining(writes, k, off, size) == (if n > 0 then [writes[k][off..off + n]] else []) + rest
    ensures off + n < |writes[k]| ==> rest == Remaining(writes, k, off + n, size)
    ensures off + n == |writes[k]| ==> rest == Remaining(writes, k + 1, 0, size)
  {
    RemainingTurn(writes, k, off, size, n);
    rest := Remaining(writes, k, off + n, size);
    if off + n == |writes[k]| {
      RemainingNext(writes, k, size);
    }
  }

  /** One turn: read once, and send what was read unless the write was empty. */
  method ChunkOnce(writes: seq<seq<uint8>>, k: nat, off: nat, buf: array<uint8>)
    returns (k': nat, off': nat, sent: seq<seq<uint8>>)
    requires buf.Length >= 1 && k < |writes| && Pending(writes, k, off)
    modifies buf
    ensures Pending(writes, k', off') && |sent| <= 1
    ensures |sent| + Empties(writes, k') == 1 + Empties(writes, k)
    ensures Remaining(writes, k, off, buf.Length) == sent + Remaining(writes, k', off', buf.Length)
  {
    var n := ReadPipe(writes[k], off, buf);
    sent := if n > 0 then [buf[..n]] else [];
    ghost var rest := TurnSends(writes, k, off, buf.Length, n);
    MovesOn(writes, k, off, buf.Length, n);
    var done := off + n == |writes[k]|;
    k', off' := if done then k + 1 else k, if done then 0 else off + n;
  }

  /** The goroutine.  `writes` are the slices written to the pipe before it is closed, and
      `turns` bounds the iterations before the context is cancelled.  Every turn sends the
      next datagram or reads an empty write. */
  method RunChunker(writes: seq<seq<uint8>>, size: nat, turns: nat)
    returns (sent: seq<seq<uint8>>, cancelled: bool)
    requires size >= 1
    ensures sent <= Datagrams(writes, size)
    ensures !cancelled ==> sent == Datagrams(writes, size)
    ensures cancelled ==> turns <= |sent| + Empties(writes, |writes|)
  {
    var buf := new uint8[size](i => 0);
    var k: nat, off: nat, turn: nat := 0, 0, 0;
    sent, cancelled := [], true;
    RemainingStart(writes, 0, size);
    assert writes[0..] == writes;
    while turn < turns
      invariant Pending(writes, k, off) && turn <= turns && turn == |sent| + Empties(writes, k)
      invariant sent + Remaining(writes, k, off, size) == Datagrams(writes, size)
    {
      if k == |writes| {
        return sent, false;
      }
      var part;
      ghost var before := sent;
      k, off, part := ChunkOnce(writes, k, off, buf);
      Assoc(before, part, Remaining(writes, k, off, size));
      sent := sent + part;
      turn := turn + 1;
    }
    EmptiesGrow(writes, k, |writes|);
  }
}
