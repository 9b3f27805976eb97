/** The exporter towards tm_ip_export: fragments go into the circular buffer behind a serio header and leave it under
    a window of unacknowledged bytes (Xiomas/xiomas_export.cc:15-200, Xiomas/xiomas_export.h:18-113). */
module TcpExport {
  import opened Bytes
  import opened CircularBuffer
  import opened Serio

  const WINDOW := 2000  // hard-coded protocol value of CTS()

  /** What the exporter finds around it: the header layout, and the answer to its k-th `obuf_empty()`. */
  datatype Env = Env(format: Format, obufEmpty: nat -> bool)

  /** The exporter's fields, with the bytes handed to `iwrite` so far and the callbacks made to the receiver. */
  datatype Export = Export(
    ring: Ring, outstanding: u32, polls: nat, sent: seq<byte>,
    client: bool, references: int, acks: nat)

  function Fresh(memory: seq<byte>): Export {
    Export(Ring(memory, SIZE + 1, 0), 0, 0, [], false, 0, 0)
  }

  // --- Operations ---

  ghost function Transmit(x: Export, n: nat): Export
    requires Valid(x.ring) && n <= Length(x.ring)
  {
    x.(ring := Drop(x.ring, n),
       sent := x.sent + Contents(x.ring)[..n],
       outstanding := Wrap32(x.outstanding + n))
  }

  function WriteLimit(env: Env): nat {
    MAX_DATA + env.format.size
  }

  /** `CTS()`: the socket is asked only while the window is open. */
  predicate ClearToSend(env: Env, x: Export) {
    x.outstanding < WINDOW && env.obufEmpty(x.polls)
  }

  function Polled(x: Export): Export {
    if x.outstanding < WINDOW then x.(polls := x.polls + 1) else x
  }

  /** An empty buffer answers the receiver that waits for it. */
  function Answer(x: Export): Export {
    if Length(x.ring) == 0 && x.client then
      x.(client := false, references := x.references - 1, acks := x.acks + 1)
    else x
  }

  /** `process_queue`: write while the window is open and the socket takes it, then report an empty buffer. */
  ghost function ProcessQueue(env: Env, x: Export): (y: Export)
    requires Valid(x.ring)
    ensures Valid(y.ring)
    decreases Length(x.ring)
  {
    if ClearToSend(env, x) && Length(x.ring) > 0 then
      ProcessQueue(env, Transmit(Polled(x), Min(Length(x.ring), WriteLimit(env))))
    else Answer(Polled(x))
  }

  ghost function Forward(env: Env, x: Export, payload: seq<byte>): (y: Export)
    requires Valid(x.ring)
    ensures Valid(y.ring)
  {
    ProcessQueue(env, x.(ring := Commit(Commit(x.ring, Header(env.format, payload)), payload)))
  }

  ghost function Acknowledge(env: Env, x: Export, n: nat): (y: Export)
    requires Valid(x.ring)
    ensures Valid(y.ring)
  {
    ProcessQueue(env, x.(outstanding := if n > x.outstanding then 0 else x.outstanding - n))
  }

  function RequestAck(x: Export): Export {
    x.(client := true, references := (if x.client then x.references - 1 else x.references) + 1)
  }

  // --- What one call of ProcessQueue does ---

  function Bound(env: Env): nat {
    WINDOW - 1 + WriteLimit(env)
  }

  function Held(x: Export): nat {
    if x.client then 1 else 0
  }

  /** Everything accepted so far: what has been written, then what waits. */
  ghost function Stream(x: Export): seq<byte>
    requires Valid(x.ring)
  {
    x.sent + Contents(x.ring)
  }

  /** The relation between the states before and after a run of `process_queue`. */
  ghost predicate Drained(env: Env, x: Export, y: Export)
    requires Valid(x.ring)
  {
    && Valid(y.ring)
    // Bytes leave at the front, in order, and are counted as outstanding.
    && |x.sent| <= |y.sent|
    && Stream(y) == Stream(x)
    && y.outstanding - x.outstanding == |y.sent| - |x.sent|
    // The window is overrun by at most one write.
    && (y.outstanding == x.outstanding || y.outstanding <= Bound(env))
    // It stops only when it has to.
    && (Length(y.ring) == 0 || y.outstanding >= WINDOW || (y.polls > x.polls && !env.obufEmpty(y.polls - 1)))
    // An empty buffer, and only that, answers the waiting receiver.
    && y.client == (x.client && Length(y.ring) != 0)
    && y.acks - x.acks == Held(x) - Held(y) == x.references - y.references
  }

  lemma TransmitMovesBytes(env: Env, x: Export, n: nat)
    requires Valid(x.ring) && Legal(env.format)
    requires n <= Length(x.ring) && n <= WriteLimit(env) && x.outstanding < WINDOW
    ensures var t := Transmit(x, n);
      && Valid(t.ring)
      && Length(t.ring) == Length(x.ring) - n
      && |t.sent| == |x.sent| + n
      && Stream(t) == Stream(x)
      && t.client == x.client && t.references == x.references && t.acks == x.acks && t.polls == x.polls
      && t.outstanding == x.outstanding + n <= Bound(env)
  {
    ghost var t := Transmit(x, n);
    DropRemovesTheFront(x.ring, n);
    assert Stream(t) == x.sent + (Contents(x.ring)[..n] + Contents(x.ring)[n..]);
    assert Contents(x.ring)[..n] + Contents(x.ring)[n..] == Contents(x.ring);
  }

  lemma StreamIgnoresBookkeeping(x: Export, y: Export)
    requires Valid(x.ring) && y.ring == x.ring && y.sent == x.sent
    ensures Stream(y) == Stream(x)
  {
  }

  lemma {:induction false} ProcessQueueDrains(env: Env, x: Export)
    requires Valid(x.ring) && Legal(env.format)
    requires x.outstanding <= Bound(env)
    ensures Drained(env, x, ProcessQueue(env, x))
    decreases Length(x.ring)
  {
    hide Transmit, Stream, Legal, Wrap32;
    if ClearToSend(env, x) && Length(x.ring) > 0 {
      ghost var n := Min(Length(x.ring), WriteLimit(env));
      StreamIgnoresBookkeeping(x, Polled(x));
      TransmitMovesBytes(env, Polled(x), n);
      ProcessQueueDrains(env, Transmit(Polled(x), n));
    } else {
      StreamIgnoresBookkeeping(x, Answer(Polled(x)));
    }
  }

  // --- Runs ---

  datatype Event = Forwarded(payload: seq<byte>) | Acknowledged(n: nat) | AckRequested

  ghost predicate Sound(env: Env, x: Export) {
    Valid(x.ring) && Legal(env.format) && x.outstanding <= Bound(env) && x.references == Held(x)
  }

  lemma FreshIsSound(env: Env, memory: seq<byte>)
    requires |memory| == SIZE && Legal(env.format)
    ensures Sound(env, Fresh(memory))
  {
  }

  /** The state an event hands to `process_queue`. */
  function Loaded(env: Env, x: Export, e: Event): Export
    requires Valid(x.ring)
  {
    match e
    case Forwarded(payload) => x.(ring := Commit(Commit(x.ring, Header(env.format, payload)), payload))
    case Acknowledged(n) => x.(outstanding := if n > x.outstanding then 0 else x.outstanding - n)
    case AckRequested => RequestAck(x)
  }

  ghost function Step(env: Env, x: Export, e: Event): (y: Export)
    requires Sound(env, x)
    ensures Sound(env, y)
    ensures !e.AckRequested? ==> Drained(env, Loaded(env, x, e), y)
  {
    if e.AckRequested? then RequestAck(x)
    else
      ProcessQueueDrains(env, Loaded(env, x, e));
      match e
      case Forwarded(payload) => Forward(env, x, payload)
      case Acknowledged(n) => Acknowledge(env, x, n)
  }

  ghost function Run(env: Env, x: Export, es: seq<Event>): (y: Export)
    requires Sound(env, x)
    ensures Sound(env, y)
    decreases |es|
  {
    if es == [] then x else Run(env, Step(env, x, es[0]), es[1..])
  }

  /** However many bytes are waiting, and whatever acknowledgements arrive, no reachable state has more than one write
      beyond the window outstanding. */
  lemma WindowSafety(env: Env, memory: seq<byte>, es: seq<Event>)
    requires |memory| == SIZE && Legal(env.format)
    ensures Sound(env, Fresh(memory))
    ensures Run(env, Fresh(memory), es).outstanding <= WINDOW - 1 + MAX_DATA + env.format.size
  {
    FreshIsSound(env, memory);
  }

  // --- The ledger ---

  /** What an acknowledgement is worth: one that exceeds the outstanding count only clears it. */
  function Credit(x: Export, e: Event): nat {
    if e.Acknowledged? then Min(e.n, x.outstanding) else 0
  }

  ghost function Credited(env: Env, x: Export, es: seq<Event>): nat
    requires Sound(env, x)
    decreases |es|
  {
    if es == [] then 0 else Credit(x, es[0]) + Credited(env, Step(env, x, es[0]), es[1..])
  }

  function AckTotal(es: seq<Event>): nat {
    if es == [] then 0 else (if es[0].Acknowledged? then es[0].n else 0) + AckTotal(es[1..])
  }

  ghost predicate NoAckExceeds(env: Env, x: Export, es: seq<Event>)
    requires Sound(env, x)
    decreases |es|
  {
    es != [] ==>
      (es[0].Acknowledged? ==> es[0].n <= x.outstanding) && NoAckExceeds(env, Step(env, x, es[0]), es[1..])
  }

  /** Bytes written are bytes credited plus bytes outstanding, over every run. */
  lemma {:induction false} WrittenIsCreditedPlusOutstanding(env: Env, x: Export, es: seq<Event>)
    requires Sound(env, x)
    ensures var y := Run(env, x, es);
      |y.sent| - |x.sent| == Credited(env, x, es) + y.outstanding - x.outstanding
    decreases |es|
  {
    if es != [] {
      WrittenIsCreditedPlusOutstanding(env, Step(env, x, es[0]), es[1..]);
    }
  }

  /** The credit is the sum of the acknowledgements exactly when none of them exceeded the outstanding count. */
  lemma {:induction false} CreditIsAckTotalExactly(env: Env, x: Export, es: seq<Event>)
    requires Sound(env, x)
    ensures Credited(env, x, es) <= AckTotal(es)
    ensures Credited(env, x, es) == AckTotal(es) <==> NoAckExceeds(env, x, es)
    decreases |es|
  {
    if es != [] {
      CreditIsAckTotalExactly(env, Step(env, x, es[0]), es[1..]);
    }
  }

  // --- Bytes in order ---

  function PayloadOf(e: Event): seq<seq<byte>> {
    if e.Forwarded? then [e.payload] else []
  }

  function Payloads(es: seq<Event>): seq<seq<byte>> {
    if es == [] then [] else PayloadOf(es[0]) + Payloads(es[1..])
  }

  /** Both commits of a forwarded fragment fit, and neither wraps harmfully. */
  ghost predicate ForwardsCleanly(env: Env, r: Ring, payload: seq<byte>)
    requires Valid(r)
  {
    var hdr := Header(env.format, payload);
    && |hdr| <= Space(r) && Harmless(r, |hdr|)
    && |payload| <= Space(Commit(r, hdr)) && Harmless(Commit(r, hdr), |payload|)
  }

  ghost predicate EveryForwardClean(env: Env, x: Export, es: seq<Event>)
    requires Sound(env, x)
    decreases |es|
  {
    es != [] ==>
      && (es[0].Forwarded? ==> ForwardsCleanly(env, x.ring, es[0].payload))
      && EveryForwardClean(env, Step(env, x, es[0]), es[1..])
  }

  /** The two commits of a fragment append its header and its payload to the queue. */
  ghost predicate ForwardsFaithfully(env: Env, r: Ring, payload: seq<byte>)
    requires Valid(r)
  {
    var hdr := Header(env.format, payload);
    && Contents(Commit(r, hdr)) == Contents(r) + hdr
    && Contents(Commit(Commit(r, hdr), payload)) == Contents(Commit(r, hdr)) + payload
  }

  ghost predicate EveryForwardFaithful(env: Env, x: Export, es: seq<Event>)
    requires Sound(env, x)
    decreases |es|
  {
    es != [] ==>
      && (es[0].Forwarded? ==> ForwardsFaithfully(env, x.ring, es[0].payload))
      && EveryForwardFaithful(env, Step(env, x, es[0]), es[1..])
  }

  /** Over every run each commit does what it should if and only if each commit is clean, which its caller can check. */
  lemma {:induction false} CleanExactlyWhenFaithful(env: Env, x: Export, es: seq<Event>)
    requires Sound(env, x)
    ensures EveryForwardClean(env, x, es) <==> EveryForwardFaithful(env, x, es)
    decreases |es|
  {
    hide Step, Legal, Valid, Commit, Contents, Harmless, Space, Drained;
    if es != [] {
      CleanExactlyWhenFaithful(env, Step(env, x, es[0]), es[1..]);
      if es[0].Forwarded? {
        ghost var hdr := Header(env.format, es[0].payload);
        CommitAppendsExactly(x.ring, hdr);
        CommitAppendsExactly(Commit(x.ring, hdr), es[0].payload);
      }
    }
  }

  /** A clean forward puts one serio packet behind everything already accepted. */
  lemma CleanForwardAppends(env: Env, x: Export, payload: seq<byte>)
    requires Sound(env, x) && ForwardsCleanly(env, x.ring, payload)
    ensures Stream(Step(env, x, Forwarded(payload))) == Stream(x) + Packet(env.format, payload)
  {
    hide Commit, Harmless, Contents, Space;
    ghost var hdr := Header(env.format, payload);
    CommitAppendsExactly(x.ring, hdr);
    CommitAppendsExactly(Commit(x.ring, hdr), payload);
    calc {
      Stream(Loaded(env, x, Forwarded(payload)));
      x.sent + (Contents(x.ring) + hdr + payload);
      x.sent + Contents(x.ring) + (hdr + payload);
    }
  }

  lemma CleanStepAppends(env: Env, x: Export, e: Event)
    requires Sound(env, x)
    requires e.Forwarded? ==> ForwardsCleanly(env, x.ring, e.payload)
    ensures Stream(Step(env, x, e)) == Stream(x) + Serialize(env.format, PayloadOf(e))
  {
    match e
    case Forwarded(payload) =>
      CleanForwardAppends(env, x, payload);
      hide Stream, Step, Packet, Legal;
      SerializeOne(env.format, payload);
    case Acknowledged(n) =>
      hide ProcessQueue;
      assert Stream(Loaded(env, x, e)) == Stream(x);
    case AckRequested =>
  }

  /** Over any run of clean forwards the socket has received, up to what still waits, the serio packets of the
      forwarded fragments in order; acknowledgements and the state of the socket only decide how much still waits. */
  lemma {:induction false} WrittenThenQueuedIsCommitted(env: Env, x: Export, es: seq<Event>)
    requires Sound(env, x) && EveryForwardClean(env, x, es)
    ensures Stream(Run(env, x, es)) == Stream(x) + Serialize(env.format, Payloads(es))
    decreases |es|
  {
    hide Legal, Valid, Stream, Step, Drained, ForwardsCleanly, Serialize, PayloadOf;
    if es == [] {
      SerializeNone(env.format);
    } else {
      ghost var here := Serialize(env.format, PayloadOf(es[0]));
      ghost var rest := Serialize(env.format, Payloads(es[1..]));
      CleanStepAppends(env, x, es[0]);
      WrittenThenQueuedIsCommitted(env, Step(env, x, es[0]), es[1..]);
      SerializeAppend(env.format, PayloadOf(es[0]), Payloads(es[1..]));
      assert Stream(x) + here + rest == Stream(x) + (here + rest);
    }
  }

  // --- Callbacks ---

  function Requests(es: seq<Event>): nat {
    if es == [] then 0 else (if es[0].AckRequested? then 1 else 0) + Requests(es[1..])
  }

  /** Each request is answered at most once, and the receiver is referenced exactly while it waits. */
  lemma {:induction false} CallbacksMatchRequests(env: Env, x: Export, es: seq<Event>)
    requires Sound(env, x)
    ensures var y := Run(env, x, es);
      && y.acks + Held(y) <= x.acks + Held(x) + Requests(es)
      && y.references == Held(y)
    decreases |es|
  {
    if es != [] {
      CallbacksMatchRequests(env, Step(env, x, es[0]), es[1..]);
    }
  }

  /** A callback comes only when all that was ever accepted has been written; over a run of clean forwards this is every
      serio packet of every fragment. */
  lemma CallbackMeansWritten(env: Env, x: Export, es: seq<Event>, e: Event)
    requires Sound(env, x)
    ensures var y := Run(env, x, es);
      var z := Step(env, y, e);
      z.acks > y.acks ==>
        && z.ring.head > SIZE && z.sent == Stream(z)
        && (EveryForwardClean(env, x, es + [e]) ==>
              z.sent == Stream(x) + Serialize(env.format, Payloads(es + [e])))
  {
    ghost var y := Run(env, x, es);
    ghost var z := Step(env, y, e);
    if z.acks > y.acks {
      CallbackMeansEmpty(env, y, e);
      hide Step, Commit, Drained, EveryForwardClean, Run;
      assert Stream(z) == z.sent;
      if EveryForwardClean(env, x, es + [e]) {
        RunAppend(env, x, es, e);
        WrittenThenQueuedIsCommitted(env, x, es + [e]);
      }
    }
  }

  lemma CallbackMeansEmpty(env: Env, x: Export, e: Event)
    requires Sound(env, x) && Step(env, x, e).acks > x.acks
    ensures Step(env, x, e).ring.head > SIZE && x.client
  {
  }

  lemma {:induction false} RunAppend(env: Env, x: Export, es: seq<Event>, e: Event)
    requires Sound(env, x)
    ensures Run(env, x, es + [e]) == Step(env, Run(env, x, es), e)
    decreases |es|
  {
    hide Valid, Legal, Step, Drained, Loaded;
    if es == [] {
      assert es + [e] == [e];
    } else {
      RunAppend(env, Step(env, x, es[0]), es[1..], e);
      assert (es + [e])[1..] == es[1..] + [e];
    }
  }
}
