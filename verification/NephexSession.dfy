/** The code's Nephex receiver and exporter at work: a run of the objects is a run of `NephexRelay`. */
module NephexSession {
  import opened Bytes
  import opened Serio
  import opened TcpExport
  import opened NephexStream
  import D = Decimation
  import NephexRelay
  import R = NephexReceiver

  datatype Event = Read(chunk: seq<byte>) | Acked(n: nat)

  /** What the receiver keeps of the bytes at hand. */
  function KeptAfter(rest: seq<byte>, e: Event): seq<byte> {
    if e.Read? then Rest(rest + e.chunk) else rest
  }

  /** No read exceeds the room that the bytes kept so far leave in the buffer. */
  predicate Fits(rest: seq<byte>, es: seq<Event>)
    decreases |es|
  {
    es != [] ==>
      && (es[0].Read? ==> |rest| + |es[0].chunk| <= BUFFER_SIZE)
      && Fits(KeptAfter(rest, es[0]), es[1..])
  }

  function Received(es: seq<Event>): seq<byte> {
    if es == [] then [] else (if es[0].Read? then es[0].chunk else []) + Received(es[1..])
  }

  /** What one event is to the relay, with `rest` kept from earlier reads. */
  function OfferedBy(rest: seq<byte>, e: Event): seq<NephexRelay.Event> {
    match e
    case Read(chunk) => NephexRelay.Framings(Frames(rest + chunk))
    case Acked(n) => [NephexRelay.Acked(n)]
  }

  function Offered(rest: seq<byte>, es: seq<Event>): seq<NephexRelay.Event>
    decreases |es|
  {
    if es == [] then [] else OfferedBy(rest, es[0]) + Offered(KeptAfter(rest, es[0]), es[1..])
  }

  lemma {:induction false} OfferedArePossible(rest: seq<byte>, es: seq<Event>)
    requires Fits(rest, es)
    ensures NephexRelay.AllPossible(Offered(rest, es))
    decreases |es|
  {
    hide Rest, Frames, NephexRelay.Framings;
    if es != [] {
      if es[0].Read? {
        FramesFit(rest + es[0].chunk);
        NephexRelay.FramingsArePossible(Frames(rest + es[0].chunk));
      }
      OfferedArePossible(KeptAfter(rest, es[0]), es[1..]);
    }
  }

  lemma {:induction false} RunConcat(env: Env, x: NephexRelay.Relay,
                                     a: seq<NephexRelay.Event>, b: seq<NephexRelay.Event>)
    requires NephexRelay.AllPossible(a) && NephexRelay.AllPossible(b)
    ensures NephexRelay.AllPossible(a + b)
    ensures NephexRelay.Run(env, x, a + b) == NephexRelay.Run(env, NephexRelay.Run(env, x, a), b)
    decreases |a|
  {
    hide NephexRelay.Next, NephexRelay.Possible;
    if a == [] {
      assert a + b == b;
    } else {
      assert (a + b)[1..] == a[1..] + b;
      assert a[0] in a;
      RunConcat(env, NephexRelay.Next(env, x, a[0]), a[1..], b);
    }
  }

  /** One event: a read by the receiver, or an acknowledgement to the exporter. */
  method Handle(r: R.Receiver, e: Event)
    requires r.Valid() && Fits(r.buf, [e])
    modifies r, r.exp, r.apids.defs
    ensures r.Valid() && r.buf == KeptAfter(old(r.buf), e)
    ensures r.stream == old(r.stream) + (if e.Read? then e.chunk else [])
    ensures NephexRelay.AllPossible(OfferedBy(old(r.buf), e))
    ensures r.Relay() == NephexRelay.Run(r.exp.env, old(r.Relay()), OfferedBy(old(r.buf), e))
  {
    hide Frames, Rest, NephexRelay.Take;
    ghost var x, rest := r.Relay(), r.buf;
    OneOffered(r.exp.env, x, rest, e);
    match e
    case Read(chunk) =>
      FramingResumes(r.stream, chunk);
      r.ProtocolInput(chunk);
    case Acked(n) =>
      r.exp.Acknowledged(n);
  }

  lemma OneOffered(env: Env, x: NephexRelay.Relay, rest: seq<byte>, e: Event)
    requires Fits(rest, [e])
    ensures e.Read? ==> |rest| + |e.chunk| <= BUFFER_SIZE
    ensures NephexRelay.AllPossible(OfferedBy(rest, e))
    ensures NephexRelay.Run(env, x, OfferedBy(rest, e))
            == if e.Read? then NephexRelay.TakeAll(env, x, rest + e.chunk) else NephexRelay.Acknowledge(x, e.n)
  {
    hide Frames, Rest, NephexRelay.Take;
    if e.Read? {
      FramesFit(rest + e.chunk);
      NephexRelay.FramingsArePossible(Frames(rest + e.chunk));
    } else {
      ghost var a := NephexRelay.Acked(e.n);
      assert [a][1..] == [];
      assert NephexRelay.Run(env, x, [a]) == NephexRelay.Run(env, NephexRelay.Next(env, x, a), []);
    }
  }

  method HandleAll(r: R.Receiver, es: seq<Event>)
    requires r.Valid() && Fits(r.buf, es)
    modifies r, r.exp, r.apids.defs
    ensures r.Valid() && r.stream == old(r.stream) + Received(es)
    ensures NephexRelay.AllPossible(Offered(old(r.buf), es))
    ensures r.Relay() == NephexRelay.Run(r.exp.env, old(r.Relay()), Offered(old(r.buf), es))
    decreases |es|
  {
    hide Frames, Rest, NephexRelay.Next, OfferedBy, NephexRelay.AllPossible;
    OfferedArePossible(r.buf, es);
    if es != [] {
      ghost var x, rest, s := r.Relay(), r.buf, r.stream;
      FirstFits(rest, es);
      Handle(r, es[0]);
      OfferedArePossible(r.buf, es[1..]);
      RunConcat(r.exp.env, x, OfferedBy(rest, es[0]), Offered(r.buf, es[1..]));
      ConcatAssociates(s, Received([es[0]]), Received(es[1..]));
      HandleAll(r, es[1..]);
    } else {
      assert r.stream + [] == r.stream;
    }
  }

  lemma FirstFits(rest: seq<byte>, es: seq<Event>)
    requires es != [] && Fits(rest, es)
    ensures Fits(rest, [es[0]]) && Fits(KeptAfter(rest, es[0]), es[1..])
    ensures Received([es[0]]) == if es[0].Read? then es[0].chunk else []
  {
    hide Rest;
    assert [es[0]][1..] == [];
  }

  /** However the reads cut the stream, what the relay is offered is what is framed in it. */
  lemma {:induction false} OfferedIsFramed(rest: seq<byte>, es: seq<Event>)
    requires Frames(rest) == []
    ensures NephexRelay.FramesOf(Offered(rest, es)) == Frames(rest + Received(es))
    decreases |es|
  {
    hide Frames, Rest;
    if es == [] {
      assert rest + [] == rest;
    } else {
      ghost var kept := KeptAfter(rest, es[0]);
      FramesOfConcat(OfferedBy(rest, es[0]), Offered(kept, es[1..]));
      if es[0].Read? {
        ghost var s := rest + es[0].chunk;
        RestIsABeginning(s);
        OfferedIsFramed(kept, es[1..]);
        FramesOfFramings(Frames(s));
        FramingResumes(s, Received(es[1..]));
        ConcatAssociates(rest, es[0].chunk, Received(es[1..]));
      } else {
        OfferedIsFramed(rest, es[1..]);
        assert [] + Received(es[1..]) == Received(es[1..]);
        assert [NephexRelay.Acked(es[0].n)][1..] == [];
      }
    }
  }

  lemma {:induction false} FramesOfConcat(a: seq<NephexRelay.Event>, b: seq<NephexRelay.Event>)
    ensures NephexRelay.FramesOf(a + b) == NephexRelay.FramesOf(a) + NephexRelay.FramesOf(b)
    decreases |a|
  {
    if a == [] {
      assert a + b == b;
    } else {
      assert (a + b)[1..] == a[1..] + b;
      FramesOfConcat(a[1..], b);
    }
  }

  lemma {:induction false} FramesOfFramings(frames: seq<seq<byte>>)
    ensures NephexRelay.FramesOf(NephexRelay.Framings(frames)) == frames
    decreases |frames|
  {
    if frames != [] {
      assert NephexRelay.Framings(frames)[1..] == NephexRelay.Framings(frames[1..]);
      FramesOfFramings(frames[1..]);
    }
  }

  /** Whatever the reads and acknowledgements of a new connection with a new table are: the log holds exactly the
      packets of the stream; the relay was offered those, in order; a reader of what was written gets exactly the chosen
      ones; and written bytes are credited bytes plus outstanding ones, with at most one packet beyond the window. */
  method Serve(r: R.Receiver, es: seq<Event>)
    requires r.Valid() && r.stream == [] && Fits([], es) && Legal(r.exp.env.format)
    requires D.IsNew(r.apids.Rows()) && r.exp.outstanding == 0 && r.exp.sent == []
    modifies r, r.exp, r.apids.defs
    ensures r.Valid() && r.stream == Received(es) && r.logged == Frames(Received(es))
    ensures var x, offered := old(r.Relay()), Offered([], es);
      && NephexRelay.AllPossible(offered) && NephexRelay.FramesOf(offered) == Frames(Received(es))
      && Parse(r.exp.env.format, r.exp.sent) == NephexRelay.Chosen(r.exp.env, x, offered, x.defs, [])
      && |r.exp.sent| == NephexRelay.Credited(r.exp.env, x, offered) + r.exp.outstanding
      && r.exp.outstanding <= NephexRelay.Bound(r.exp.env)
  {
    hide Frames, Rest, Legal, Parse, D.IsNew, NephexRelay.Run, NephexRelay.Chosen, NephexRelay.Credited, Offered;
    ghost var x, env, offered := r.Relay(), r.exp.env, Offered([], es);
    NothingKept();
    HandleAll(r, es);
    OfferedIsFramed([], es);
    assert [] + Received(es) == Received(es);
    NephexRelay.ReaderGetsTheChosen(env, x, offered);
    NephexRelay.WrittenIsCreditedPlusOutstanding(env, x, offered);
    NephexRelay.WindowSafety(env, x, offered);
  }

  lemma NothingKept()
    ensures Frames([]) == [] && Rest([]) == []
  {
  }
}
