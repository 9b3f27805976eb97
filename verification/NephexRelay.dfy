/** From framed Nephex packets to tm_ip_export: each packet is logged, and some are forwarded under the window and the
    decimation table (Nephex/nephex_export.cc:95-168, 192-247, Nephex/nephex_export.h:31-49). */
module NephexRelay {
  import opened Bytes
  import opened Serio
  import opened NephexStream
  import opened Decimation
  import opened TcpExport

  datatype Relay = Relay(defs: Table, outstanding: u32, handled: nat, sent: seq<byte>)

  /** The low ten bits of the word behind the sync. */
  function ApidOf(frame: seq<byte>): nat
    requires |frame| >= HEADER
  {
    var lo: int, hi: int := frame[2], frame[3];
    (lo + 0x100 * hi) % 0x400
  }

  /** The type of a packet is the low ten bits of the type word that the instrument wrote. */
  lemma ApidOfBuilt(word: u16, sequence: u16, data: seq<byte>)
    requires Sendable(data)
    ensures ApidOf(Build(word, sequence, data)) == word % 0x400
  {
    ghost var p := Build(word, sequence, data);
    assert p[2] == word % 0x100 && p[3] == word / 0x100;
  }

  /** `CTS()`. Between two packets the socket may change, but not while one packet is handled: the answer for the
      packet at hand is that to question number `handled`, however often it is asked. */
  predicate Open(env: Env, x: Relay) {
    x.outstanding < WINDOW && env.obufEmpty(x.handled)
  }

  /** `forward_packet`. */
  function Write(env: Env, x: Relay, frame: seq<byte>): Relay {
    x.(outstanding := Wrap32(x.outstanding + env.format.size + |frame|), sent := x.sent + Packet(env.format, frame))
  }

  /** One framed packet: the table is asked only while the exporter is clear to send. */
  function Take(env: Env, x: Relay, frame: seq<byte>): Relay
    requires |frame| >= HEADER
  {
    var y := x.(handled := x.handled + 1);
    if Open(env, x) then
      var (defs, ok) := Ask(x.defs, ApidOf(frame));
      if ok then Write(env, y.(defs := defs), frame) else y.(defs := defs)
    else y
  }

  function Acknowledge(x: Relay, n: nat): Relay {
    x.(outstanding := if n > x.outstanding then 0 else x.outstanding - n)
  }

  datatype Event = Framed(frame: seq<byte>) | Acked(n: nat)

  /** Frames have at least their header and fit the input buffer. */
  predicate Possible(e: Event) {
    e.Framed? ==> HEADER <= |e.frame| <= BUFFER_SIZE
  }

  predicate AllPossible(es: seq<Event>) {
    forall e | e in es :: Possible(e)
  }

  function Next(env: Env, x: Relay, e: Event): Relay
    requires Possible(e)
  {
    match e
    case Framed(frame) => Take(env, x, frame)
    case Acked(n) => Acknowledge(x, n)
  }

  function Run(env: Env, x: Relay, es: seq<Event>): Relay
    requires AllPossible(es)
    decreases |es|
  {
    if es == [] then x else Run(env, Next(env, x, es[0]), es[1..])
  }

  function Bound(env: Env): nat {
    WINDOW - 1 + env.format.size + BUFFER_SIZE
  }

  /** At most one packet beyond the window is unacknowledged, over every run of packets and acknowledgements. */
  lemma {:induction false} WindowSafety(env: Env, x: Relay, es: seq<Event>)
    requires Legal(env.format) && AllPossible(es) && x.outstanding <= Bound(env)
    ensures Run(env, x, es).outstanding <= Bound(env) == 1999 + env.format.size + 50000
    decreases |es|
  {
    hide Legal, Packet, Ask, ApidOf;
    assert env.format.size <= MAX_HEADER_SIZE by { SizeLimit(env.format); }
    if es != [] {
      assert es[0] in es;
      WindowSafety(env, Next(env, x, es[0]), es[1..]);
    }
  }

  lemma SizeLimit(f: Format)
    requires Legal(f)
    ensures f.size <= MAX_HEADER_SIZE
  {
  }

  // --- The ledger ---

  /** What an acknowledgement is worth: one that exceeds the outstanding count only clears it. */
  function Credit(x: Relay, e: Event): nat {
    if e.Acked? then Min(e.n, x.outstanding) else 0
  }

  function Credited(env: Env, x: Relay, es: seq<Event>): nat
    requires AllPossible(es)
    decreases |es|
  {
    if es == [] then 0 else Credit(x, es[0]) + Credited(env, Next(env, x, es[0]), es[1..])
  }

  function AckTotal(es: seq<Event>): nat {
    if es == [] then 0 else (if es[0].Acked? then es[0].n else 0) + AckTotal(es[1..])
  }

  predicate NoAckExceeds(env: Env, x: Relay, es: seq<Event>)
    requires AllPossible(es)
    decreases |es|
  {
    es != [] ==>
      (es[0].Acked? ==> es[0].n <= x.outstanding) && NoAckExceeds(env, Next(env, x, es[0]), es[1..])
  }

  /** What has been framed, in order. */
  function FramesOf(es: seq<Event>): seq<seq<byte>> {
    if es == [] then [] else (if es[0].Framed? then [es[0].frame] else []) + FramesOf(es[1..])
  }

  lemma LedgerStep(env: Env, x: Relay, e: Event)
    requires Legal(env.format) && Possible(e) && x.outstanding <= Bound(env)
    ensures var y := Next(env, x, e);
      && y.outstanding <= Bound(env)
      && |y.sent| - |x.sent| == Credit(x, e) + y.outstanding - x.outstanding
      && y.handled == x.handled + (if e.Framed? then 1 else 0)
  {
    SizeLimit(env.format);
    if e.Framed? {
      HeaderShape(env.format, e.frame);
    }
    hide Legal, Header, Ask, ApidOf;
  }

  /** Bytes written are bytes credited plus bytes outstanding, over every run; and each packet is handled once. */
  lemma {:induction false} WrittenIsCreditedPlusOutstanding(env: Env, x: Relay, es: seq<Event>)
    requires Legal(env.format) && AllPossible(es) && x.outstanding <= Bound(env)
    ensures var y := Run(env, x, es);
      && |y.sent| - |x.sent| == Credited(env, x, es) + y.outstanding - x.outstanding
      && y.handled == x.handled + |FramesOf(es)|
    decreases |es|
  {
    hide Next, Legal;
    if es != [] {
      assert es[0] in es;
      LedgerStep(env, x, es[0]);
      WrittenIsCreditedPlusOutstanding(env, Next(env, x, es[0]), es[1..]);
    }
  }

  /** The credit is the sum of the acknowledgements exactly when none of them exceeded the outstanding count. */
  lemma {:induction false} CreditIsAckTotalExactly(env: Env, x: Relay, es: seq<Event>)
    requires AllPossible(es)
    ensures Credited(env, x, es) <= AckTotal(es)
    ensures Credited(env, x, es) == AckTotal(es) <==> NoAckExceeds(env, x, es)
    decreases |es|
  {
    hide Next;
    if es != [] {
      assert es[0] in es;
      CreditIsAckTotalExactly(env, Next(env, x, es[0]), es[1..]);
    }
  }

  // --- The bound is reached ---

  /** Laser power packets are of type 143, and all of them are forwarded. */
  function LaserPower(size: nat): seq<byte>
    requires 9 <= size <= BUFFER_SIZE
  {
    Build(143, 0, seq(size - 8, _ => 0))
  }

  ghost predicate LaserDue(env: Env, x: Relay) {
    && x.outstanding < WINDOW && env.obufEmpty(x.handled)
    && Transmits(x.defs[143]) && x.defs[143].rate == 1 && x.defs[143].toSkip == 1
  }

  lemma LaserIsWritten(env: Env, x: Relay, size: nat)
    requires Legal(env.format) && LaserDue(env, x) && 9 <= size <= BUFFER_SIZE
    ensures var y := Next(env, x, Framed(LaserPower(size)));
      y.outstanding == x.outstanding + env.format.size + size && y.defs == x.defs
  {
    SizeLimit(env.format);
    ApidOfBuilt(143, 0, seq(size - 8, _ => 0));
    hide Legal, Build, ApidOf;
  }

  /** The bound of `WindowSafety` cannot be lowered, and the window is used up to its last byte: two packets on a new
      relay reach it, the second as large as the input buffer. */
  lemma WindowBoundIsReached(env: Env, x: Relay)
    requires Legal(env.format) && IsFirstTable(x.defs) && x.outstanding == 0
    requires env.obufEmpty(x.handled) && env.obufEmpty(x.handled + 1)
    ensures var es := [Framed(LaserPower(WINDOW - 1 - env.format.size)), Framed(LaserPower(BUFFER_SIZE))];
      AllPossible(es) && Run(env, x, es).outstanding == 1999 + env.format.size + 50000
  {
    SizeLimit(env.format);
    TransmittedTypes(x.defs, 143);
    hide Legal, Next, Take;
    ghost var p, q := LaserPower(WINDOW - 1 - env.format.size), LaserPower(BUFFER_SIZE);
    ghost var es := [Framed(p), Framed(q)];
    LaserIsWritten(env, x, |p|);
    ghost var y := Next(env, x, es[0]);
    LaserIsWritten(env, y, |q|);
    assert es[1..] == [es[1]] && es[1..][1..] == [];
    assert Run(env, x, es) == Run(env, y, es[1..]) == Run(env, Next(env, y, es[1]), []);
  }

  // --- What is forwarded ---

  /** The packets of a run that decimation lets through, `before` having arrived earlier at a table that was `defs` when
      it was new: each type's first, (d+1)-st, (2d+1)-st packet to find the exporter clear. */
  function Chosen(env: Env, x: Relay, es: seq<Event>, defs: Table, before: seq<Arrival>): seq<seq<byte>>
    requires AllPossible(es)
    decreases |es|
  {
    if es == [] then []
    else
      var y := Next(env, x, es[0]);
      match es[0]
      case Framed(frame) =>
        var a := Arrival(ApidOf(frame), x.outstanding < 2000 && env.obufEmpty(x.handled));
        (if Passes(defs, before, a) then [frame] else []) + Chosen(env, y, es[1..], defs, before + [a])
      case Acked(_) => Chosen(env, y, es[1..], defs, before)
  }

  predicate Passes(defs: Table, before: seq<Arrival>, a: Arrival) {
    a.open && a.apid <= MAX_APID && Transmits(defs[a.apid]) && Count(before, a.apid) % defs[a.apid].rate == 0
  }

  lemma TakeWritesIfPasses(env: Env, x: Relay, frame: seq<byte>, defs: Table, before: seq<Arrival>)
    requires HEADER <= |frame| && IsNew(defs) && x.defs == After(defs, before)
    ensures var a, y := Arrival(ApidOf(frame), Open(env, x)), Take(env, x, frame);
      && y.defs == After(defs, before + [a])
      && y.sent == x.sent + (if Passes(defs, before, a) then Packet(env.format, frame) else [])
    ensures Open(env, x) <==> x.outstanding < 2000 && env.obufEmpty(x.handled)
  {
    ghost var a := Arrival(ApidOf(frame), Open(env, x));
    DecimationIsExact(defs, before, a);
    hide IsNew, Ask, ApidOf, Packet, Transmits, Count;
    assert (before + [a])[..|before|] == before;
    assert x.sent + [] == x.sent;
  }

  /** Over every run, whatever the acknowledgements and the socket do, exactly the chosen packets are written, each
      once, intact and in order. */
  lemma {:induction false} WritesTheChosen(env: Env, x: Relay, es: seq<Event>, defs: Table, before: seq<Arrival>)
    requires AllPossible(es) && IsNew(defs) && x.defs == After(defs, before)
    ensures Run(env, x, es).sent == x.sent + Serialize(env.format, Chosen(env, x, es, defs, before))
    decreases |es|
  {
    hide IsNew, After, ApidOf, Open, Passes, Serialize, Packet, Take;
    SerializeNone(env.format);
    if es == [] {
      assert x.sent + [] == x.sent;
    } else {
      assert es[0] in es;
      match es[0] {
        case Acked(n) =>
          WritesTheChosen(env, Acknowledge(x, n), es[1..], defs, before);
        case Framed(frame) =>
          ghost var a, y := Arrival(ApidOf(frame), Open(env, x)), Take(env, x, frame);
          TakeWritesIfPasses(env, x, frame, defs, before);
          WritesTheChosen(env, y, es[1..], defs, before + [a]);
          ghost var here := if Passes(defs, before, a) then [frame] else [];
          ghost var rest := Chosen(env, y, es[1..], defs, before + [a]);
          SerializeOne(env.format, frame);
          SerializeAppend(env.format, here, rest);
          ConcatAssociates(x.sent, Serialize(env.format, here), Serialize(env.format, rest));
      }
    }
  }

  lemma {:induction false} ChosenAreFrames(env: Env, x: Relay, es: seq<Event>, defs: Table, before: seq<Arrival>)
    requires AllPossible(es)
    ensures AllShort(Chosen(env, x, es, defs, before))
    decreases |es|
  {
    hide Next, Passes;
    if es != [] {
      assert es[0] in es;
      ghost var a := Arrival(if es[0].Framed? then ApidOf(es[0].frame) else 0,
                             x.outstanding < 2000 && env.obufEmpty(x.handled));
      ChosenAreFrames(env, Next(env, x, es[0]), es[1..], defs, if es[0].Framed? then before + [a] else before);
    }
  }

  /** A reader that checks the headers gets the chosen packets, and nothing else. */
  lemma ReaderGetsTheChosen(env: Env, x: Relay, es: seq<Event>)
    requires Legal(env.format) && AllPossible(es) && IsNew(x.defs) && x.sent == []
    ensures Parse(env.format, Run(env, x, es).sent) == Chosen(env, x, es, x.defs, [])
  {
    hide Run, Chosen, Legal, Parse, Serialize, AllShort;
    WritesTheChosen(env, x, es, x.defs, []);
    ChosenAreFrames(env, x, es, x.defs, []);
    ParseSerialize(env.format, Chosen(env, x, es, x.defs, []));
    ghost var all := Serialize(env.format, Chosen(env, x, es, x.defs, []));
    assert [] + all == all;
  }

  // --- Framed packets as events ---

  function Framings(frames: seq<seq<byte>>): seq<Event> {
    if frames == [] then [] else [Framed(frames[0])] + Framings(frames[1..])
  }

  lemma {:induction false} FramingsArePossible(frames: seq<seq<byte>>)
    requires forall f | f in frames :: HEADER <= |f| <= BUFFER_SIZE
    ensures AllPossible(Framings(frames))
    decreases |frames|
  {
    if frames != [] {
      assert frames[0] in frames;
      FramingsArePossible(frames[1..]);
    }
  }

  ghost function TakeAll(env: Env, x: Relay, s: seq<byte>): Relay
    requires |s| <= BUFFER_SIZE
  {
    FramesFit(s);
    FramingsArePossible(Frames(s));
    Run(env, x, Framings(Frames(s)))
  }

  lemma TakeFirst(env: Env, x: Relay, s: seq<byte>)
    requires |s| <= BUFFER_SIZE && SyncAt(s, 0) && !Incomplete(s)
    ensures var n := FrameSize(s);
      TakeAll(env, x, s) == TakeAll(env, Take(env, x, s[..n]), s[n..])
  {
    ghost var n := FrameSize(s);
    FramesFit(s);
    FramingsArePossible(Frames(s));
    hide Take, FrameSize;
    assert Frames(s) == [s[..n]] + Frames(s[n..]);
    assert Framings(Frames(s))[1..] == Framings(Frames(s[n..]));
  }
}
