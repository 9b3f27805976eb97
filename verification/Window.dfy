/** The bound of `TcpExport.WindowSafety` cannot be lowered: full fragments of one packet and a single acknowledgement
    reach it. */
module Window {
  import opened Bytes
  import opened CircularBuffer
  import opened Serio
  import opened TcpExport

  lemma LoadedLength(env: Env, x: Export, payload: seq<byte>)
    requires Sound(env, x) && x.ring.head > SIZE && |payload| == MAX_DATA
    ensures Length(Loaded(env, x, Forwarded(payload)).ring) == WriteLimit(env)
  {
    ghost var hdr := Header(env.format, payload);
    HeaderShape(env.format, payload);
    LinearCommit(x.ring, hdr, SIZE);
    LinearCommit(Commit(x.ring, hdr), payload, SIZE - |hdr|);
    hide Commit, Contents;
    assert |Contents(x.ring)| == 0 by { EmptyHasNoContents(x.ring); }
  }

  lemma OneWrite(env: Env, x: Export)
    requires Valid(x.ring) && x.outstanding < WINDOW && Length(x.ring) == WriteLimit(env)
    requires Legal(env.format) && env.obufEmpty(x.polls)
    ensures var y := ProcessQueue(env, x);
      Length(y.ring) == 0 && y.outstanding == x.outstanding + WriteLimit(env)
  {
    ghost var t := Transmit(Polled(x), WriteLimit(env));
    TransmitMovesBytes(env, Polled(x), WriteLimit(env));
    hide Transmit, Legal;
    assert ProcessQueue(env, x) == ProcessQueue(env, t);
    assert ProcessQueue(env, t) == Answer(Polled(t));
  }

  /** From an empty buffer, with the window open and the socket ready, a full fragment is written at once. */
  lemma FullFragmentIsWritten(env: Env, x: Export, payload: seq<byte>)
    requires Sound(env, x) && x.ring.head > SIZE && |payload| == MAX_DATA
    requires x.outstanding < WINDOW && env.obufEmpty(x.polls)
    ensures var y := TcpExport.Step(env, x, Forwarded(payload));
      y.ring.head > SIZE && y.outstanding == x.outstanding + WriteLimit(env)
  {
    LoadedLength(env, x, payload);
    hide Commit, Legal, ProcessQueue, Drained;
    OneWrite(env, Loaded(env, x, Forwarded(payload)));
    EmptyMeansHead(TcpExport.Step(env, x, Forwarded(payload)).ring);
  }

  lemma EmptyMeansHead(r: Ring)
    requires Valid(r)
    ensures Length(r) == 0 <==> r.head > SIZE
  {
  }

  lemma AcknowledgedWhenEmpty(env: Env, x: Export, n: nat)
    requires Sound(env, x) && x.ring.head > SIZE && n <= x.outstanding
    ensures var y := TcpExport.Step(env, x, Acknowledged(n));
      y.ring.head > SIZE && y.outstanding == x.outstanding - n
  {
    hide Legal, Drained;
  }

  lemma TwoFragments(env: Env, x: Export, p: seq<byte>)
    requires Sound(env, x) && x.ring.head > SIZE && |p| == MAX_DATA
    requires x.outstanding + WriteLimit(env) < WINDOW && forall k: nat :: env.obufEmpty(k)
    ensures var y := TcpExport.Step(env, TcpExport.Step(env, x, Forwarded(p)), Forwarded(p));
      y.ring.head > SIZE && y.outstanding == x.outstanding + 2 * WriteLimit(env)
  {
    hide Legal, Valid, TcpExport.Step, Loaded, Drained;
    FullFragmentIsWritten(env, x, p);
    FullFragmentIsWritten(env, TcpExport.Step(env, x, Forwarded(p)), p);
  }

  /** Two full fragments, an acknowledgement that leaves just enough outstanding, and two more full fragments. */
  function TightRun(env: Env, p: seq<byte>): seq<Event> {
    [Forwarded(p), Forwarded(p), Acknowledged(2 * WriteLimit(env) - (WINDOW - 1 - WriteLimit(env))),
     Forwarded(p), Forwarded(p)]
  }

  lemma WindowBoundIsReached(env: Env, memory: seq<byte>, p: seq<byte>)
    requires |memory| == SIZE && Legal(env.format) && |p| == MAX_DATA && forall k: nat :: env.obufEmpty(k)
    ensures Sound(env, Fresh(memory))
    ensures TcpExport.Run(env, Fresh(memory), TightRun(env, p)).outstanding == 1999 + 956 + env.format.size
  {
    FreshIsSound(env, memory);
    SizeIsSmall(env.format);
    hide Legal, Valid, TcpExport.Step, Loaded, Drained;
    ghost var n := 2 * WriteLimit(env) - (WINDOW - 1 - WriteLimit(env));
    ghost var x := Fresh(memory);
    TwoFragments(env, x, p);
    ghost var y := TcpExport.Step(env, TcpExport.Step(env, x, Forwarded(p)), Forwarded(p));
    AcknowledgedWhenEmpty(env, y, n);
    TwoFragments(env, TcpExport.Step(env, y, Acknowledged(n)), p);
    FiveSteps(env, x, TightRun(env, p));
  }

  lemma SizeIsSmall(f: Format)
    requires Legal(f)
    ensures f.size <= MAX_HEADER_SIZE
  {
  }

  lemma FiveSteps(env: Env, x: Export, es: seq<Event>)
    requires Sound(env, x) && |es| == 5
    ensures TcpExport.Run(env, x, es)
            == TcpExport.Step(env, TcpExport.Step(env, TcpExport.Step(env, TcpExport.Step(env,
                 TcpExport.Step(env, x, es[0]), es[1]), es[2]), es[3]), es[4])
  {
    hide Legal, Valid, TcpExport.Step, Loaded, Drained;
    ghost var y := TcpExport.Step(env, TcpExport.Step(env, x, es[0]), es[1]);
    assert TcpExport.Run(env, x, es) == TcpExport.Run(env, y, es[1..][1..]);
    ghost var z := TcpExport.Step(env, TcpExport.Step(env, y, es[2]), es[3]);
    assert es[1..][1..] == es[2..] && es[2..][1..][1..] == es[4..];
    assert TcpExport.Run(env, y, es[2..]) == TcpExport.Run(env, z, es[4..]);
    assert TcpExport.Run(env, z, es[4..]) == TcpExport.Run(env, TcpExport.Step(env, z, es[4]), es[4..][1..]);
  }
}
