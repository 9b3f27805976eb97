/** One TCP connection from the instrument to tm_ip_export: reads and acknowledgements in any order, from an exporter
    whose circular buffer is empty. Here the code's buffer never wraps, so everything it promises holds outright. */
module Pipeline {
  import opened Bytes
  import opened CircularBuffer
  import opened HarvardHeader
  import opened Serio
  import opened TcpExport
  import opened PacketStream
  import opened Link

  // --- Sizes ---

  /** Each fragment takes its own share of the size that was reserved for the packet. */
  lemma SerialSizeStep(env: Env, remaining: nat)
    requires remaining > 0
    ensures var n := FragmentSize(remaining);
      SerialSize(env, remaining) == env.format.size + n + SerialSize(env, remaining - n)
  {
    ghost var k, h := Pieces(remaining - FragmentSize(remaining)), env.format.size;
    assert Pieces(remaining) == k + 1;
    assert (k + 1) * h == k * h + h;
  }

  /** Every packet that the receiver accepts fits into an empty buffer, with any header of at most 248 bytes. */
  lemma AcceptedPacketFitsEmptyBuffer(env: Env, length: nat)
    requires Legal(env.format) && length <= MAX_PACKET
    ensures SerialSize(env, length) <= SIZE
  {
    assert env.format.size <= MAX_HEADER_SIZE;
    hide Legal;
    assert Pieces(length) <= 225;
    ProductBound(Pieces(length), 225, env.format.size, MAX_HEADER_SIZE);
  }

  lemma ProductBound(k: nat, k1: nat, h: nat, h1: nat)
    requires k <= k1 && h <= h1
    ensures k * h <= k1 * h1
  {
    assert k * h <= k1 * h by { assert (k1 - k) * h >= 0; }
    assert k1 * h <= k1 * h1 by { assert k1 * (h1 - h) >= 0; }
  }

  // --- Forwarding into a buffer that cannot wrap ---

  lemma {:induction false} ProcessQueueStaysLinear(env: Env, x: Export, need: nat)
    requires Valid(x.ring) && Linear(x.ring, need)
    ensures Linear(ProcessQueue(env, x).ring, need)
    decreases Length(x.ring)
  {
    if ClearToSend(env, x) && Length(x.ring) > 0 {
      ghost var n := Min(Length(x.ring), WriteLimit(env));
      LinearDrop(x.ring, n, need);
      hide Linear, Drop;
      ProcessQueueStaysLinear(env, Transmit(Polled(x), n), need);
    }
  }

  lemma LinearForward(env: Env, x: Export, payload: seq<byte>, need: nat)
    requires Sound(env, x) && |payload| < 0x1_0000
    requires Linear(x.ring, env.format.size + |payload| + need)
    ensures Linear(TcpExport.Step(env, x, Forwarded(payload)).ring, need)
    ensures Stream(TcpExport.Step(env, x, Forwarded(payload))) == Stream(x) + Packet(env.format, payload)
  {
    ghost var hdr := Header(env.format, payload);
    HeaderShape(env.format, payload);
    LinearCommit(x.ring, hdr, env.format.size + |payload| + need);
    LinearCommit(Commit(x.ring, hdr), payload, |payload| + need);
    CommitAppendsExactly(x.ring, hdr);
    CommitAppendsExactly(Commit(x.ring, hdr), payload);
    hide Commit, Harmless, Space, Contents, Linear;
    ProcessQueueStaysLinear(env, Loaded(env, x, Forwarded(payload)), need);
    CleanForwardAppends(env, x, payload);
  }

  /** The fragments have the sizes the receiver cuts. */
  ghost predicate Sized(fs: seq<seq<byte>>, remaining: nat) {
    fs != [] ==>
      && 0 < |fs[0]| == FragmentSize(remaining)
      && Sized(fs[1..], remaining - |fs[0]|)
  }

  lemma {:induction false} FragmentsAreSized(rest: seq<byte>, remaining: nat)
    ensures Sized(Fragments(rest, remaining), remaining)
    ensures |Concat(Fragments(rest, remaining))| <= remaining
    decreases remaining
  {
    ghost var n := FragmentSize(remaining);
    if n != 0 && |rest| >= n {
      FragmentsAreSized(rest[n..], remaining - n);
    }
  }

  lemma {:induction false} SizedSplits(fs: seq<seq<byte>>, gs: seq<seq<byte>>, remaining: nat)
    requires Sized(fs + gs, remaining)
    ensures Sized(fs, remaining)
    ensures |Concat(fs)| <= remaining && Sized(gs, remaining - |Concat(fs)|)
    decreases |fs|
  {
    if fs == [] {
      assert fs + gs == gs;
    } else {
      hide FragmentSize;
      assert (fs + gs)[1..] == fs[1..] + gs;
      SizedSplits(fs[1..], gs, remaining - |fs[0]|);
    }
  }

  /** What is reserved for a packet is what the serio packets of its fragments occupy: fragments that have been sent
      take their share, and the rest stays reserved. */
  lemma {:induction false} SizedOccupy(env: Env, fs: seq<seq<byte>>, remaining: nat)
    requires Legal(env.format) && Sized(fs, remaining) && |Concat(fs)| <= remaining
    ensures |Serialize(env.format, fs)| + SerialSize(env, remaining - |Concat(fs)|) == SerialSize(env, remaining)
    decreases |fs|
  {
    hide SerialSize, Header, Legal, FragmentSize;
    if fs != [] {
      ghost var f := fs[0];
      OneOccupies(env, f, remaining);
      assert |Concat(fs)| == |f| + |Concat(fs[1..])|;
      SizedOccupy(env, fs[1..], remaining - |f|);
    }
  }

  lemma OneOccupies(env: Env, f: seq<byte>, remaining: nat)
    requires Legal(env.format) && 0 < |f| == FragmentSize(remaining)
    ensures |Packet(env.format, f)| + SerialSize(env, remaining - |f|) == SerialSize(env, remaining)
  {
    SerialSizeStep(env, remaining);
    HeaderShape(env.format, f);
    hide SerialSize, Header;
  }

  /** The size that the receiver compares with the free space is exactly that of the packet's serio packets. */
  lemma SerialSizeIsExact(env: Env, packet: seq<byte>, length: nat)
    requires Legal(env.format) && |packet| >= length
    ensures |Serialize(env.format, Fragments(packet, length))| == SerialSize(env, length)
  {
    FragmentsAreSized(packet, length);
    FragmentsOfWholePacket(packet, length);
    hide Fragments, Legal, Sized, Serialize;
    assert |Concat(Fragments(packet, length))| == length;
    SizedOccupy(env, Fragments(packet, length), length);
    assert SerialSize(env, 0) == 0;
  }

  /** An admitted packet with `remaining` bytes to come, in a buffer with room for them before its end. */
  ghost predicate Flowing(env: Env, l: Link, remaining: nat) {
    l.transmitting && Sound(env, l.exporter) && Linear(l.exporter.ring, SerialSize(env, remaining))
  }

  /** Nobody waits for a callback, so none is made. */
  ghost predicate Uncalled(x: Export, y: Export) {
    !x.client ==> !y.client && y.acks == x.acks
  }

  lemma FragmentFlows(env: Env, l: Link, f: seq<byte>, remaining: nat)
    requires Flowing(env, l, remaining) && 0 < |f| == FragmentSize(remaining)
    ensures var m := PerformOne(env, l, Fragment(f));
      && Flowing(env, m, remaining - |f|)
      && Stream(m.exporter) == Stream(l.exporter) + Packet(env.format, f)
      && Uncalled(l.exporter, m.exporter)
  {
    SerialSizeStep(env, remaining);
    hide SerialSize, Linear, Packet, Legal, Stream;
    LinearForward(env, l.exporter, f, SerialSize(env, remaining - |f|));
  }

  lemma PerformFirst(env: Env, l: Link, fs: seq<seq<byte>>)
    requires Valid(l.exporter.ring) && fs != []
    ensures Perform(env, l, FragmentActions(fs))
            == Perform(env, PerformOne(env, l, Fragment(fs[0])), FragmentActions(fs[1..]))
    ensures Serialize(env.format, fs) == Packet(env.format, fs[0]) + Serialize(env.format, fs[1..])
  {
    assert FragmentActions(fs)[1..] == FragmentActions(fs[1..]);
  }

  /** The fragments of an admitted packet enter the buffer one behind the other, intact. */
  lemma {:induction false} FragmentsFlow(env: Env, l: Link, fs: seq<seq<byte>>, remaining: nat)
    requires Flowing(env, l, remaining) && Sized(fs, remaining) && |Concat(fs)| <= remaining
    ensures var m := Perform(env, l, FragmentActions(fs));
      && Flowing(env, m, remaining - |Concat(fs)|)
      && Stream(m.exporter) == Stream(l.exporter) + Serialize(env.format, fs)
      && Uncalled(l.exporter, m.exporter)
    decreases |fs|
  {
    hide Linear, SerialSize, Legal, Packet, PerformOne, Stream, Valid;
    if fs == [] {
      assert Stream(l.exporter) + [] == Stream(l.exporter);
    } else {
      hide Perform, FragmentActions, Serialize, FragmentSize;
      assert |Concat(fs)| == |fs[0]| + |Concat(fs[1..])|;
      ghost var m := PerformOne(env, l, Fragment(fs[0]));
      FragmentFlows(env, l, fs[0], remaining);
      FragmentsFlow(env, m, fs[1..], remaining - |fs[0]|);
      PerformFirst(env, l, fs);
      ConcatAssociates(Stream(l.exporter), Packet(env.format, fs[0]), Serialize(env.format, fs[1..]));
    }
  }

  // --- The connection ---

  datatype Event = Read(chunk: seq<byte>) | Acked(n: nat)

  /** What has been received on the connection, and the exporter behind it. */
  datatype Connection = Connection(stream: seq<byte>, link: Link)

  ghost function Next(env: Env, c: Connection, e: Event): (d: Connection)
    requires Valid(c.link.exporter.ring)
    ensures Valid(d.link.exporter.ring)
  {
    match e
    case Read(chunk) => Connection(c.stream + chunk, Perform(env, c.link, NewActions(c.stream, chunk)))
    case Acked(n) => c.(link := c.link.(exporter := Acknowledge(env, c.link.exporter, n)))
  }

  ghost function Run(env: Env, c: Connection, es: seq<Event>): (d: Connection)
    requires Valid(c.link.exporter.ring)
    ensures Valid(d.link.exporter.ring)
    decreases |es|
  {
    if es == [] then c else Run(env, Next(env, c, es[0]), es[1..])
  }

  function Received(es: seq<Event>): seq<byte> {
    if es == [] then [] else (if es[0].Read? then es[0].chunk else []) + Received(es[1..])
  }

  // --- Read boundaries ---

  /** Two reads in a row leave receiver and exporter as one read of both would. */
  lemma TwoReadsAreOne(env: Env, c: Connection, a: seq<byte>, b: seq<byte>)
    requires Valid(c.link.exporter.ring)
    ensures Next(env, Next(env, c, Read(a)), Read(b)) == Next(env, c, Read(a + b))
  {
    hide Actions, Perform, Valid;
    ghost var s := c.stream;
    ConcatAssociates(s, a, b);
    ActionsGrow(s, a);
    ActionsGrow(s + a, b);
    assert NewActions(s, a + b) == NewActions(s, a) + NewActions(s + a, b);
    PerformConcat(env, c.link, NewActions(s, a), NewActions(s + a, b));
  }

  function Reads(chunks: seq<seq<byte>>): seq<Event> {
    if chunks == [] then [] else [Read(chunks[0])] + Reads(chunks[1..])
  }

  /** It makes no difference how the bytes between two acknowledgements are cut into reads: stream, admission decision
      and exporter end up the same as after a single read. */
  lemma {:induction false} ReadBoundariesDoNotMatter(env: Env, c: Connection, chunks: seq<seq<byte>>)
    requires Valid(c.link.exporter.ring)
    ensures Run(env, c, Reads(chunks)) == Next(env, c, Read(Concat(chunks)))
    decreases |chunks|
  {
    hide Valid, Next;
    if chunks == [] {
      EmptyRead(env, c);
    } else {
      assert Reads(chunks)[1..] == Reads(chunks[1..]);
      ReadBoundariesDoNotMatter(env, Next(env, c, Read(chunks[0])), chunks[1..]);
      TwoReadsAreOne(env, c, chunks[0], Concat(chunks[1..]));
    }
  }

  lemma EmptyRead(env: Env, c: Connection)
    requires Valid(c.link.exporter.ring)
    ensures Next(env, c, Read([])) == c
  {
    hide Actions, Valid;
    assert c.stream + [] == c.stream;
    PerformNothing(env, c.link);
  }

  // --- The invariant of a connection ---

  /** A new connection, to an exporter `x` that may have served others but holds nothing of theirs. */
  ghost predicate Opens(env: Env, x: Export) {
    Sound(env, x) && x.ring.head > SIZE && !x.client
  }

  /** How the callback to the receiver stands: asked for once the packet is complete, given once it is written. */
  ghost predicate CalledBack(x: Export, y: Export, asked: bool)
    requires Valid(y.ring)
  {
    && x.acks <= y.acks
    && y.acks + Held(y) == x.acks + (if asked then 1 else 0)
    && (y.acks > x.acks ==> y.ring.head > SIZE)
  }

  ghost function StillToCome(s: seq<byte>): nat {
    FragmentsAreSizedIn(s);
    LengthIn(s) - |Concat(FragmentsIn(s))|
  }

  lemma FragmentsAreSizedIn(s: seq<byte>)
    ensures Sized(FragmentsIn(s), LengthIn(s)) && |Concat(FragmentsIn(s))| <= LengthIn(s)
  {
    ghost var p := FirstHeader(s, 0);
    if p < |s| {
      FragmentsAreSized(s[p..], LengthAt(s, p));
    }
  }

  /** The invariant of a connection that opened on exporter `x`: every complete fragment received so far has entered the
      buffer intact, behind what was written before, and nothing else has. */
  ghost predicate Intact(env: Env, x: Export, c: Connection)
    requires Valid(x.ring)
  {
    var y := c.link.exporter;
    && Sound(env, y)
    && Stream(y) == x.sent + Serialize(env.format, FragmentsIn(c.stream))
    && CalledBack(x, y, Complete(c.stream))
    && if FragmentsIn(c.stream) == [] then y.ring.head > SIZE
       else Flowing(env, c.link, StillToCome(c.stream))
  }

  lemma IntactAtFirst(env: Env, x: Export, transmitting: bool)
    requires Opens(env, x)
    ensures Intact(env, x, Connection([], Link(transmitting, x)))
  {
    assert FirstHeader([], 0) == 0;
    assert x.sent + [] == x.sent;
  }

  /** What an acknowledgement does to an exporter. */
  lemma AckedMoves(env: Env, y: Export, n: nat)
    requires Sound(env, y)
    ensures var z := Acknowledge(env, y, n);
      && Sound(env, z) && Stream(z) == Stream(y)
      && (y.ring.head > SIZE ==> z.ring.head > SIZE)
      && z.client == (y.client && z.ring.head <= SIZE)
      && z.acks + Held(z) == y.acks + Held(y) && z.acks >= y.acks
  {
    ghost var loaded := Loaded(env, y, TcpExport.Acknowledged(n));
    ghost var z := TcpExport.Step(env, y, TcpExport.Acknowledged(n));
    hide ProcessQueue, Stream, Length, Legal;
    StreamIgnoresBookkeeping(y, loaded);
    EmptyStaysEmpty(loaded, z);
  }

  lemma AckedStaysLinear(env: Env, y: Export, n: nat, need: nat)
    requires Sound(env, y) && Linear(y.ring, need)
    ensures Linear(Acknowledge(env, y, n).ring, need)
  {
    hide Linear, ProcessQueue;
    ProcessQueueStaysLinear(env, Loaded(env, y, TcpExport.Acknowledged(n)), need);
  }

  lemma AckedKeepsIntact(env: Env, x: Export, c: Connection, n: nat)
    requires Valid(x.ring) && Intact(env, x, c)
    ensures Intact(env, x, Next(env, c, Acked(n)))
  {
    hide Acknowledge, Linear, Serialize, FragmentsIn, Complete, StillToCome, SerialSize, Legal, Stream, Sound;
    AckedMoves(env, c.link.exporter, n);
    if FragmentsIn(c.stream) != [] {
      AckedStaysLinear(env, c.link.exporter, n, SerialSize(env, StillToCome(c.stream)));
    }
  }

  lemma EmptyStaysEmpty(y: Export, z: Export)
    requires Valid(y.ring) && Valid(z.ring) && Stream(z) == Stream(y) && |y.sent| <= |z.sent|
    ensures y.ring.head > SIZE ==> z.ring.head > SIZE
    ensures Length(z.ring) == 0 <==> z.ring.head > SIZE
  {
    assert |Stream(z)| == |z.sent| + Length(z.ring) && |Stream(y)| == |y.sent| + Length(y.ring);
  }

  // --- What a read does to the invariant, action by action ---

  /** The link is ready for the fragments of `s` beyond the first `k`, having taken those. */
  ghost predicate Ready(env: Env, x: Export, l: Link, s: seq<byte>, k: nat)
    requires Valid(x.ring) && k <= |FragmentsIn(s)|
  {
    var fs := FragmentsIn(s)[..k];
    && |Concat(fs)| <= LengthIn(s)
    && Flowing(env, l, LengthIn(s) - |Concat(fs)|)
    && Stream(l.exporter) == x.sent + Serialize(env.format, fs)
  }

  lemma AcceptIsReady(env: Env, x: Export, l: Link, s: seq<byte>)
    requires Opens(env, x) && FragmentsIn(s) != []
    requires Sound(env, l.exporter) && l.exporter.ring.head > SIZE && Stream(l.exporter) == x.sent
    ensures var m := Perform(env, l, [Accept(LengthIn(s))]);
      Ready(env, x, m, s, 0) && m.exporter == l.exporter
  {
    ghost var m := PerformOne(env, l, Accept(LengthIn(s)));
    AcceptedPacketFitsEmptyBuffer(env, LengthIn(s));
    assert Perform(env, l, [Accept(LengthIn(s))]) == m;
    hide SerialSize, LengthIn, Legal, Valid, FragmentsIn;
    assert FragmentsIn(s)[..0] == [];
    assert x.sent + [] == x.sent;
  }

  lemma ReadyTakesTheRest(env: Env, x: Export, l: Link, s: seq<byte>, k: nat)
    requires Valid(x.ring) && k <= |FragmentsIn(s)| && Ready(env, x, l, s, k)
    ensures var m := Perform(env, l, FragmentActions(FragmentsIn(s)[k..]));
      Ready(env, x, m, s, |FragmentsIn(s)|) && Uncalled(l.exporter, m.exporter)
  {
    hide FragmentsIn, LengthIn, Legal, Linear, SerialSize, Stream, Sized, Perform, Concat, Serialize, FragmentActions;
    ghost var gs := FragmentsIn(s);
    ghost var fs, more := gs[..k], gs[k..];
    assert gs == fs + more && gs[..|gs|] == gs;
    FragmentsAreSizedIn(s);
    SizedSplits(fs, more, LengthIn(s));
    ConcatAppend(fs, more);
    FragmentsFlow(env, l, more, LengthIn(s) - |Concat(fs)|);
    SerializeAppend(env.format, fs, more);
    ConcatAssociates(x.sent, Serialize(env.format, fs), Serialize(env.format, more));
  }

  /** The part of a read before the packet is complete: accept if this is due, then cut. */
  ghost function Taken(env: Env, c: Connection, t: seq<byte>): (m: Link)
    requires Valid(c.link.exporter.ring)
    ensures Valid(m.exporter.ring)
  {
    var fs, gs := FragmentsIn(c.stream), FragmentsIn(c.stream + t);
    FragmentsInGrow(c.stream, t);
    Perform(env, if fs == [] && gs != [] then Perform(env, c.link, [Accept(LengthIn(c.stream + t))]) else c.link,
            FragmentActions(gs[|fs|..]))
  }

  lemma ReadIsTakenThenFinished(env: Env, c: Connection, t: seq<byte>)
    requires Valid(c.link.exporter.ring)
    ensures Next(env, c, Read(t)).link
            == Perform(env, Taken(env, c, t), if Complete(c.stream + t) && !Complete(c.stream) then [Finish] else [])
  {
    hide Valid, FragmentsIn, LengthIn, Complete, Perform, FragmentActions, NewActions;
    ghost var s := c.stream;
    ghost var fs, gs := FragmentsIn(s), FragmentsIn(s + t);
    NewActionsAreThese(s, t);
    ghost var a := if fs == [] && gs != [] then [Accept(LengthIn(s + t))] else [];
    ghost var b := FragmentActions(gs[|fs|..]);
    PerformNothing(env, c.link);
    PerformConcat(env, c.link, a, b);
    PerformConcat(env, c.link, a + b, if Complete(s + t) && !Complete(s) then [Finish] else []);
  }

  lemma PerformFinish(env: Env, l: Link)
    requires Valid(l.exporter.ring)
    ensures Perform(env, l, [Finish]) == l.(exporter := RequestAck(l.exporter))
  {
    assert Perform(env, l, [Finish]) == Perform(env, PerformOne(env, l, Finish), []);
  }

  /** After the read the fragments are all taken, and as long as the packet was incomplete nobody has asked for a
      callback. */
  lemma TakenIsReady(env: Env, x: Export, c: Connection, t: seq<byte>)
    requires Opens(env, x) && Intact(env, x, c) && FragmentsIn(c.stream + t) != []
    ensures var m := Taken(env, c, t);
      && Ready(env, x, m, c.stream + t, |FragmentsIn(c.stream + t)|)
      && (Complete(c.stream) ==> m == c.link)
      && (!Complete(c.stream) ==> !m.exporter.client && m.exporter.acks == x.acks)
  {
    hide FragmentsIn, LengthIn, Complete, Legal, Linear, SerialSize, Stream, Perform, FragmentActions, Serialize;
    ghost var s, u := c.stream, c.stream + t;
    ghost var fs, gs := FragmentsIn(s), FragmentsIn(u);
    FragmentsInGrow(s, t);
    SerializeNone(env.format);
    if fs == [] {
      AcceptHere(env, x, c, u);
      ReadyTakesTheRest(env, x, Perform(env, c.link, [Accept(LengthIn(u))]), u, 0);
    } else {
      assert gs[..|fs|] == fs;
      ReadyTakesTheRest(env, x, c.link, u, |fs|);
      if Complete(s) {
        NothingMore(env, c.link);
      }
    }
  }

  lemma NothingMore(env: Env, l: Link)
    requires Valid(l.exporter.ring)
    ensures forall gs: seq<seq<byte>> :: Perform(env, l, FragmentActions(gs[|gs|..])) == l
  {
  }

  lemma AcceptHere(env: Env, x: Export, c: Connection, u: seq<byte>)
    requires Opens(env, x) && Intact(env, x, c) && FragmentsIn(c.stream) == [] && FragmentsIn(u) != []
    ensures var m := Perform(env, c.link, [Accept(LengthIn(u))]);
      && Ready(env, x, m, u, 0) && m.exporter == c.link.exporter
      && !m.exporter.client && m.exporter.acks == x.acks && !Complete(c.stream)
  {
    assert x.sent + [] == x.sent;
    AcceptIsReady(env, x, c.link, u);
  }

  lemma ReadKeepsIntact(env: Env, x: Export, c: Connection, t: seq<byte>)
    requires Opens(env, x) && Intact(env, x, c)
    ensures Intact(env, x, Next(env, c, Read(t)))
  {
    hide Intact, FragmentsIn;
    FragmentsInGrow(c.stream, t);
    if FragmentsIn(c.stream + t) == [] {
      IdleReadKeepsIntact(env, x, c, t);
    } else {
      BusyReadKeepsIntact(env, x, c, t);
    }
  }

  lemma IdleReadKeepsIntact(env: Env, x: Export, c: Connection, t: seq<byte>)
    requires Opens(env, x) && Intact(env, x, c)
    requires FragmentsIn(c.stream) == [] && FragmentsIn(c.stream + t) == []
    ensures Intact(env, x, Next(env, c, Read(t)))
  {
    hide FragmentsIn, Complete, Stream, Legal, Serialize, Perform, Taken;
    CompleteHasFragments(c.stream);
    CompleteHasFragments(c.stream + t);
    ReadIsTakenThenFinished(env, c, t);
    NothingTaken(env, c, t);
    PerformNothing(env, c.link);
  }

  lemma BusyReadKeepsIntact(env: Env, x: Export, c: Connection, t: seq<byte>)
    requires Opens(env, x) && Intact(env, x, c) && FragmentsIn(c.stream + t) != []
    ensures Intact(env, x, Next(env, c, Read(t)))
  {
    hide FragmentsIn, LengthIn, Complete, Stream, Legal, Serialize, Perform, Taken, Linear, SerialSize;
    ghost var u, m := c.stream + t, Taken(env, c, t);
    FragmentsInGrow(c.stream, t);
    ReadIsTakenThenFinished(env, c, t);
    TakenIsReady(env, x, c, t);
    PerformNothing(env, m);
    PerformFinish(env, m);
    assert FragmentsIn(u)[..|FragmentsIn(u)|] == FragmentsIn(u);
    StreamIgnoresBookkeeping(m.exporter, RequestAck(m.exporter));
  }

  lemma NothingTaken(env: Env, c: Connection, t: seq<byte>)
    requires Valid(c.link.exporter.ring)
    requires FragmentsIn(c.stream + t) == [] && FragmentsIn(c.stream) == []
    ensures Taken(env, c, t) == c.link
  {
    hide FragmentsIn;
    NothingMore(env, c.link);
  }

  lemma {:induction false} StaysIntact(env: Env, x: Export, c: Connection, es: seq<Event>)
    requires Opens(env, x) && Intact(env, x, c)
    ensures Intact(env, x, Run(env, c, es))
    ensures Run(env, c, es).stream == c.stream + Received(es)
    decreases |es|
  {
    hide Perform, FragmentsIn, Complete, Legal, Serialize, Flowing, CalledBack, Stream;
    if es == [] {
      assert c.stream + [] == c.stream;
    } else {
      match es[0] {
        case Read(t) =>
          ReadKeepsIntact(env, x, c, t);
          ConcatAssociates(c.stream, t, Received(es[1..]));
        case Acked(n) =>
          AckedKeepsIntact(env, x, c, n);
          assert [] + Received(es[1..]) == Received(es[1..]);
      }
      StaysIntact(env, x, Next(env, c, es[0]), es[1..]);
    }
  }

  // --- What a connection promises ---

  /** Whatever reads and acknowledgements a connection consists of, and whatever the socket answers: what has been
      written and what still waits are the serio packets of the complete fragments of the first acceptable packet in
      the stream, in order; at most one write beyond the window is unacknowledged; and once the packet is complete,
      and not before, the receiver either waits for its callback or has had it, which it has only when the whole packet
      has been written. */
  lemma EndToEnd(env: Env, x: Export, transmitting: bool, es: seq<Event>)
    requires Opens(env, x)
    ensures var s := Received(es);
      var c := Run(env, Connection([], Link(transmitting, x)), es);
      var y := c.link.exporter;
      && c.stream == s
      && Stream(y) == x.sent + Serialize(env.format, FragmentsIn(s))
      && y.outstanding <= Bound(env)
      && x.acks <= y.acks <= x.acks + 1
      && y.acks + Held(y) == x.acks + (if Complete(s) then 1 else 0)
      && (y.acks > x.acks ==> Complete(s) && y.sent == x.sent + Serialize(env.format, FragmentsIn(s)))
  {
    hide Run, FragmentsIn, Complete, Legal, Serialize, Flowing;
    ghost var c := Connection([], Link(transmitting, x));
    IntactAtFirst(env, x, transmitting);
    StaysIntact(env, x, c, es);
    assert [] + Received(es) == Received(es);
  }

  /** After any acknowledgement the receiver of a complete packet has had its callback if and only if the buffer is
      empty. */
  lemma CallbackComes(env: Env, x: Export, transmitting: bool, es: seq<Event>, n: nat)
    requires Opens(env, x) && Complete(Received(es))
    ensures var c := Run(env, Connection([], Link(transmitting, x)), es);
      var y := Next(env, c, Acked(n)).link.exporter;
      y.acks == x.acks + 1 <==> y.ring.head > SIZE
  {
    ghost var c := Connection([], Link(transmitting, x));
    IntactAtFirst(env, x, transmitting);
    StaysIntact(env, x, c, es);
    assert [] + Received(es) == Received(es);
    AnsweredWhenEmpty(env, x, Run(env, c, es), n);
  }

  lemma AnsweredWhenEmpty(env: Env, x: Export, c: Connection, n: nat)
    requires Valid(x.ring) && Intact(env, x, c) && Complete(c.stream)
    ensures var y := Next(env, c, Acked(n)).link.exporter;
      y.acks == x.acks + 1 <==> y.ring.head > SIZE
  {
    hide Acknowledge, Linear, Serialize, FragmentsIn, Complete, StillToCome, SerialSize, Legal, Stream, Sound;
    AckedMoves(env, c.link.exporter, n);
    AckedKeepsIntact(env, x, c, n);
  }

  /** No read makes the callback, not even one that completes a packet which leaves the buffer at once: the receiver is
      told by the next acknowledgement. */
  lemma CallbackOnlyByAcknowledgement(env: Env, x: Export, transmitting: bool, es: seq<Event>, t: seq<byte>)
    requires Opens(env, x)
    ensures var c := Run(env, Connection([], Link(transmitting, x)), es);
      Next(env, c, Read(t)).link.exporter.acks == c.link.exporter.acks
  {
    hide Run, Next, Intact;
    ghost var c := Connection([], Link(transmitting, x));
    IntactAtFirst(env, x, transmitting);
    StaysIntact(env, x, c, es);
    ReadNeverAnswers(env, x, Run(env, c, es), t);
  }

  lemma ReadNeverAnswers(env: Env, x: Export, c: Connection, t: seq<byte>)
    requires Opens(env, x) && Intact(env, x, c)
    ensures Next(env, c, Read(t)).link.exporter.acks == c.link.exporter.acks
  {
    hide FragmentsIn, LengthIn, Complete, Stream, Legal, Serialize, Perform, Taken, Linear, SerialSize;
    ghost var u, m := c.stream + t, Taken(env, c, t);
    FragmentsInGrow(c.stream, t);
    ReadIsTakenThenFinished(env, c, t);
    PerformNothing(env, m);
    PerformFinish(env, m);
    if FragmentsIn(u) == [] {
      NothingTaken(env, c, t);
    } else {
      TakenIsReady(env, x, c, t);
    }
  }

  /** The accepted packet itself: so many bytes from where its header starts. */
  function PacketIn(s: seq<byte>): seq<byte>
    requires Complete(s)
  {
    s[FirstHeader(s, 0)..][..LengthIn(s)]
  }

  /** The payloads are the fewest that can carry the packet, all full but the last. */
  ghost predicate Reassembles(payloads: seq<seq<byte>>, packet: seq<byte>) {
    && Concat(payloads) == packet
    && |payloads| == Pieces(|packet|)
    && (forall i | 0 <= i < |payloads| - 1 :: |payloads[i]| == MAX_DATA)
  }

  lemma PacketIsItsFragments(s: seq<byte>)
    requires Complete(s)
    ensures Reassembles(FragmentsIn(s), PacketIn(s))
    ensures AllShort(FragmentsIn(s))
  {
    ghost var p, length := FirstHeader(s, 0), LengthIn(s);
    FragmentsOfWholePacket(s[p..], length);
    FragmentsAreShort(s[p..], length);
  }

  /** Fragment and reassemble: once the packet has arrived completely and the buffer has drained, a reader that cuts
      the written bytes by the serio length fields and checks every header against its payload gets the packet back. */
  lemma PacketRoundTrip(env: Env, x: Export, transmitting: bool, es: seq<Event>)
    requires Opens(env, x) && Complete(Received(es))
    ensures var y := Run(env, Connection([], Link(transmitting, x)), es).link.exporter;
      y.ring.head > SIZE ==>
        && x.sent <= y.sent
        && Reassembles(Parse(env.format, y.sent[|x.sent|..]), PacketIn(Received(es)))
  {
    hide Run, FragmentsIn, Complete, Serialize, PacketIn, Legal, Parse, Reassembles, AllShort;
    ghost var s := Received(es);
    ghost var y := Run(env, Connection([], Link(transmitting, x)), es).link.exporter;
    EndToEnd(env, x, transmitting, es);
    PacketIsItsFragments(s);
    ParseSerialize(env.format, FragmentsIn(s));
    if y.ring.head > SIZE {
      assert Stream(y) == y.sent;
      assert y.sent[|x.sent|..] == Serialize(env.format, FragmentsIn(s));
    }
  }
}
