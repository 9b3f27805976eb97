/** A run in which the wrap in `circ_commit` (Xiomas/xiomas_export.cc:174) does damage: two admitted packets of full
    fragments, while the socket takes one write in all. */
module Wrap {
  import opened Bytes
  import opened CircularBuffer
  import opened Serio
  import opened TcpExport
  import opened Link
  import opened PacketStream
  import opened Pipeline
  import opened Admission

  const PIECE := 8 + MAX_DATA  // a full fragment behind a header of eight bytes

  /** Headers have eight bytes, and the socket is ready only when it is asked for the second time. */
  ghost predicate BusySocket(env: Env) {
    Legal(env.format) && env.format.size == 8 && forall k: nat :: env.obufEmpty(k) <==> k == 1
  }

  /** After `i` full fragments, of which the first has been written. */
  ghost predicate After(env: Env, x: Export, i: nat) {
    && Sound(env, x) && x.polls >= 2 && x.outstanding == PIECE
    && x.ring.head == PIECE && x.ring.tail == PIECE * i && 2 <= i <= 280
  }

  // --- Single steps ---

  lemma CommitMovesTail(r: Ring, data: seq<byte>)
    requires Valid(r) && 0 < |data|
    requires r.head > SIZE || r.head < r.tail
    requires Restart(r).tail + |data| < SIZE
    ensures var q := Commit(r, data);
      q.head == Restart(r).head && q.tail == Restart(r).tail + |data|
  {
  }

  lemma LoadedTail(env: Env, x: Export, p: seq<byte>)
    requires BusySocket(env) && Sound(env, x) && |p| == MAX_DATA
    requires x.ring.head > SIZE || x.ring.head < x.ring.tail
    requires Restart(x.ring).tail + PIECE < SIZE
    ensures var y := Loaded(env, x, Forwarded(p));
      y == x.(ring := y.ring) && y.ring.head == Restart(x.ring).head && y.ring.tail == Restart(x.ring).tail + PIECE
  {
    HeaderShape(env.format, p);
    ghost var hdr := Header(env.format, p);
    CommitMovesTail(x.ring, hdr);
    CommitMovesTail(Commit(x.ring, hdr), p);
    hide Commit, Legal;
  }

  lemma Stuck(env: Env, x: Export)
    requires Valid(x.ring) && !ClearToSend(env, x)
    ensures ProcessQueue(env, x) == Answer(Polled(x))
  {
  }

  /** A fragment that the socket does not take stays in the buffer. */
  lemma BusyForward(env: Env, x: Export, p: seq<byte>)
    requires BusySocket(env) && Sound(env, x) && |p| == MAX_DATA
    requires x.ring.head > SIZE || x.ring.head < x.ring.tail
    requires Restart(x.ring).tail + PIECE < SIZE && x.polls != 1
    ensures var y := TcpExport.Step(env, x, Forwarded(p));
      && y.ring.head == Restart(x.ring).head && y.ring.tail == Restart(x.ring).tail + PIECE
      && y.outstanding == x.outstanding
      && y.polls == (if x.outstanding < WINDOW then x.polls + 1 else x.polls)
  {
    LoadedTail(env, x, p);
    hide Loaded, Drained, Legal, ProcessQueue;
    Stuck(env, Loaded(env, x, Forwarded(p)));
  }

  /** The first two fragments, and the one write. */
  lemma FirstTwo(env: Env, memory: seq<byte>, p: seq<byte>)
    requires BusySocket(env) && |memory| == SIZE && |p| == MAX_DATA && Sound(env, Fresh(memory))
    ensures After(env, TcpExport.Step(env, TcpExport.Step(env, Fresh(memory), Forwarded(p)), Forwarded(p)), 2)
  {
    BusyForward(env, Fresh(memory), p);
    SecondForward(env, TcpExport.Step(env, Fresh(memory), Forwarded(p)), p);
  }

  lemma SecondForward(env: Env, x: Export, p: seq<byte>)
    requires BusySocket(env) && Sound(env, x) && |p| == MAX_DATA
    requires x.ring.head == 0 && x.ring.tail == PIECE && x.outstanding == 0 && x.polls == 1
    ensures After(env, TcpExport.Step(env, x, Forwarded(p)), 2)
  {
    LoadedTail(env, x, p);
    ghost var y := Loaded(env, x, Forwarded(p));
    ghost var t := Transmit(Polled(y), PIECE);
    hide Loaded, Drained, Legal, Contents;
    assert ProcessQueue(env, y) == ProcessQueue(env, t);
    assert ProcessQueue(env, t) == Answer(Polled(t));
  }

  lemma OneMore(env: Env, x: Export, p: seq<byte>, i: nat)
    requires BusySocket(env) && After(env, x, i) && i < 280 && |p| == MAX_DATA
    ensures After(env, TcpExport.Step(env, x, Forwarded(p)), i + 1)
  {
    BusyForward(env, x, p);
    hide TcpExport.Step, Drained, Legal;
  }

  /** With 80 bytes left before the end, the header fits and the payload does not: it wraps, and harmfully. */
  lemma LastBreaks(env: Env, x: Export, p: seq<byte>)
    requires BusySocket(env) && After(env, x, 280) && |p| == MAX_DATA
    ensures !ForwardsFaithfully(env, x.ring, p)
  {
    HeaderShape(env.format, p);
    ghost var hdr := Header(env.format, p);
    CommitMovesTail(x.ring, hdr);
    CommitAppendsExactly(Commit(x.ring, hdr), p);
    hide Commit, Contents, Legal;
  }

  // --- The run ---

  /** So many fragments in a row. */
  function Row(p: seq<byte>, n: nat): seq<TcpExport.Event> {
    if n == 0 then [] else [Forwarded(p)] + Row(p, n - 1)
  }

  lemma RowStep(env: Env, x: Export, p: seq<byte>, n: nat)
    requires Sound(env, x) && n > 0
    ensures var y := TcpExport.Step(env, x, Forwarded(p));
      && TcpExport.Run(env, x, Row(p, n)) == TcpExport.Run(env, y, Row(p, n - 1))
      && (EveryForwardFaithful(env, x, Row(p, n))
          <==> ForwardsFaithfully(env, x.ring, p) && EveryForwardFaithful(env, y, Row(p, n - 1)))
  {
    hide TcpExport.Step, Drained, Loaded, Legal, Valid, ForwardsFaithfully;
    assert Row(p, n)[1..] == Row(p, n - 1);
  }

  lemma {:induction false} RunRow(env: Env, x: Export, p: seq<byte>, i: nat, n: nat)
    requires BusySocket(env) && After(env, x, i) && i + n <= 280 && |p| == MAX_DATA
    ensures After(env, TcpExport.Run(env, x, Row(p, n)), i + n)
    decreases n
  {
    hide TcpExport.Step, Drained, Loaded, Legal, Valid, BusySocket;
    if n > 0 {
      RowStep(env, x, p, n);
      OneMore(env, x, p, i);
      RunRow(env, TcpExport.Step(env, x, Forwarded(p)), p, i + 1, n - 1);
    }
  }

  lemma {:induction false} RowBreaks(env: Env, x: Export, p: seq<byte>, i: nat)
    requires BusySocket(env) && After(env, x, i) && |p| == MAX_DATA
    ensures !EveryForwardFaithful(env, x, Row(p, 281 - i))
    decreases 280 - i
  {
    hide TcpExport.Step, Drained, Loaded, Legal, Valid, BusySocket, ForwardsFaithfully;
    RowStep(env, x, p, 281 - i);
    if i == 280 {
      LastBreaks(env, x, p);
    } else {
      OneMore(env, x, p, i);
      RowBreaks(env, TcpExport.Step(env, x, Forwarded(p)), p, i + 1);
    }
  }

  lemma {:induction false} RowIsSized(p: seq<byte>, n: nat)
    requires |p| == MAX_DATA
    ensures Sized(Payloads(Row(p, n)), MAX_DATA * n)
    decreases n
  {
    if n > 0 {
      assert Row(p, n)[1..] == Row(p, n - 1);
      RowIsSized(p, n - 1);
      assert Payloads(Row(p, n)) == [p] + Payloads(Row(p, n - 1));
    }
  }

  const FIRST := 140 * MAX_DATA   // the lengths of the two packets
  const SECOND := 141 * MAX_DATA

  lemma Requested(env: Env, x: Export, i: nat)
    requires After(env, x, i)
    ensures After(env, TcpExport.Step(env, x, AckRequested), i)
  {
  }

  lemma RoomForSecond(env: Env, x: Export)
    requires BusySocket(env) && After(env, x, 140)
    ensures Reserved(env, x, SECOND)
  {
    hide Legal;
    assert Pieces(SECOND) == 141;
  }

  /** What the exporter has been through when the second packet arrives: all of the first, and the request for its
      acknowledgement. */
  function FirstPacket(p: seq<byte>): seq<TcpExport.Event> {
    Row(p, 140) + [AckRequested]
  }

  lemma AfterFirstPacket(env: Env, memory: seq<byte>, p: seq<byte>)
    requires BusySocket(env) && |memory| == SIZE && |p| == MAX_DATA && Sound(env, Fresh(memory))
    ensures After(env, TcpExport.Run(env, Fresh(memory), FirstPacket(p)), 140)
  {
    hide TcpExport.Step, Drained, Loaded, Legal, Valid, BusySocket, After, TcpExport.Run, Row;
    ghost var x := Fresh(memory);
    ghost var y := TcpExport.Step(env, x, Forwarded(p));
    FirstTwo(env, memory, p);
    RowStep(env, x, p, 140);
    RowStep(env, y, p, 139);
    RunRow(env, TcpExport.Step(env, y, Forwarded(p)), p, 2, 138);
    RunAppend(env, x, Row(p, 140), AckRequested);
    Requested(env, TcpExport.Run(env, x, Row(p, 140)), 140);
  }

  lemma PacketsAreAccepted(env: Env, memory: seq<byte>, p: seq<byte>)
    requires BusySocket(env) && |memory| == SIZE && |p| == MAX_DATA
    ensures FIRST <= MAX_PACKET && SECOND <= MAX_PACKET
    ensures Sound(env, Fresh(memory)) && Reserved(env, Fresh(memory), FIRST)
    ensures Sized(Payloads(Row(p, 140)), FIRST) && Sized(Payloads(Row(p, 141)), SECOND)
  {
    FreshIsSound(env, memory);
    AcceptedPacketFitsEmptyBuffer(env, FIRST);
    RowIsSized(p, 140);
    RowIsSized(p, 141);
    hide Legal, SerialSize, Sized, Row;
  }

  /** From a fresh exporter, with fragments of 956 bytes only: both packets are admitted, and yet some commit of the
      second does not append what it is given. */
  lemma AdmittedPacketBreaks(env: Env, memory: seq<byte>, p: seq<byte>)
    requires BusySocket(env) && |memory| == SIZE && |p| == MAX_DATA
    ensures FIRST <= MAX_PACKET && SECOND <= MAX_PACKET
    ensures Sound(env, Fresh(memory)) && Reserved(env, Fresh(memory), FIRST)
    ensures Sized(Payloads(Row(p, 140)), FIRST) && Sized(Payloads(Row(p, 141)), SECOND)
    ensures var x := TcpExport.Run(env, Fresh(memory), FirstPacket(p));
      Reserved(env, x, SECOND) && !EveryForwardFaithful(env, x, Row(p, 141))
  {
    hide Legal, Valid, TcpExport.Run, Row, SerialSize, EveryForwardFaithful, Sized, After, Reserved, FirstPacket;
    PacketsAreAccepted(env, memory, p);
    AfterFirstPacket(env, memory, p);
    ghost var x := TcpExport.Run(env, Fresh(memory), FirstPacket(p));
    RoomForSecond(env, x);
    RowBreaks(env, x, p, 140);
  }
}
