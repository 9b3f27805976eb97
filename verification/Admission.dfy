/** The receiver admits a packet when the buffer has room for all of its serio packets
    (Xiomas/xiomas_export.cc:390-400). Here the buffer need not be empty. */
module Admission {
  import opened Bytes
  import opened CircularBuffer
  import opened Serio
  import opened TcpExport
  import opened Link
  import opened PacketStream
  import opened Pipeline

  ghost predicate Reserved(env: Env, x: Export, remaining: nat) {
    SerialSize(env, remaining) <= Space(x.ring)
  }

  /** What each of the two commits of a fragment copies, cut to the room there is, wraps harmlessly. */
  ghost predicate ForwardsHarmlessly(env: Env, r: Ring, payload: seq<byte>)
    requires Valid(r)
  {
    var hdr := Header(env.format, payload);
    var q := Commit(r, hdr);
    Harmless(r, Min(|hdr|, Space(r))) && Harmless(q, Min(|payload|, Space(q)))
  }

  ghost predicate EveryForwardHarmless(env: Env, x: Export, es: seq<TcpExport.Event>)
    requires Sound(env, x)
    decreases |es|
  {
    es != [] ==>
      && (es[0].Forwarded? ==> ForwardsHarmlessly(env, x.ring, es[0].payload))
      && EveryForwardHarmless(env, TcpExport.Step(env, x, es[0]), es[1..])
  }

  /** With the room reserved, neither commit of the next fragment is cut short. */
  lemma ReservedForwardFits(env: Env, x: Export, payload: seq<byte>, remaining: nat)
    requires Sound(env, x) && Reserved(env, x, remaining)
    requires 0 < |payload| == FragmentSize(remaining)
    requires ForwardsHarmlessly(env, x.ring, payload)
    ensures ForwardsCleanly(env, x.ring, payload)
    ensures Reserved(env, TcpExport.Step(env, x, Forwarded(payload)), remaining - |payload|)
  {
    hide SerialSize, Commit, Harmless, Legal, Header, Checks;
    ghost var hdr := Header(env.format, payload);
    SerialSizeStep(env, remaining);
    HeaderShape(env.format, payload);
    CommitAppendsExactly(x.ring, hdr);
    CommitAppendsExactly(Commit(x.ring, hdr), payload);
    SpaceAfter(Loaded(env, x, Forwarded(payload)), TcpExport.Step(env, x, Forwarded(payload)));
  }

  /** Whatever leaves a buffer only makes room. */
  lemma SpaceAfter(y: Export, z: Export)
    requires Valid(y.ring) && Valid(z.ring) && Stream(z) == Stream(y) && |y.sent| <= |z.sent|
    ensures Space(z.ring) >= Space(y.ring)
  {
    assert |Stream(z)| == |z.sent| + Length(z.ring) && |Stream(y)| == |y.sent| + Length(y.ring);
  }

  lemma ReservedThroughout(env: Env, x: Export, e: TcpExport.Event, remaining: nat)
    requires Sound(env, x) && Reserved(env, x, remaining) && !e.Forwarded?
    ensures Reserved(env, TcpExport.Step(env, x, e), remaining)
  {
    hide SerialSize, ProcessQueue, Legal;
    if e.Acknowledged? {
      assert Stream(Loaded(env, x, e)) == Stream(x);
      SpaceAfter(Loaded(env, x, e), TcpExport.Step(env, x, e));
    }
  }

  /** Admission is all or nothing: over every run that forwards the fragments of an admitted packet, between
      acknowledgements in any pattern, the reservation holds until the end and no commit is cut short, provided only
      that no commit wraps harmfully. */
  lemma {:induction false} ReservationHolds(env: Env, x: Export, es: seq<TcpExport.Event>, remaining: nat)
    requires Sound(env, x) && Reserved(env, x, remaining)
    requires Sized(Payloads(es), remaining)
    requires EveryForwardHarmless(env, x, es)
    ensures EveryForwardClean(env, x, es)
    ensures |Concat(Payloads(es))| <= remaining
    ensures Reserved(env, TcpExport.Run(env, x, es), remaining - |Concat(Payloads(es))|)
    decreases |es|
  {
    hide Reserved, ForwardsHarmlessly, ForwardsCleanly, TcpExport.Step, Loaded, Valid, Legal, Drained, Payloads, Concat;
    NoPayloads();
    if es != [] {
      PayloadsSplit(es, remaining);
      ghost var y := TcpExport.Step(env, x, es[0]);
      if es[0].Forwarded? {
        ReservedForwardFits(env, x, es[0].payload, remaining);
        ReservationHolds(env, y, es[1..], remaining - |es[0].payload|);
      } else {
        ReservedThroughout(env, x, es[0], remaining);
        ReservationHolds(env, y, es[1..], remaining);
      }
    }
  }

  lemma NoPayloads()
    ensures Concat(Payloads([])) == []
  {
  }

  lemma PayloadsSplit(es: seq<TcpExport.Event>, remaining: nat)
    requires es != [] && Sized(Payloads(es), remaining)
    ensures if es[0].Forwarded? then
        var n := |es[0].payload|;
        && 0 < n == FragmentSize(remaining) <= remaining
        && Sized(Payloads(es[1..]), remaining - n)
        && |Concat(Payloads(es))| == n + |Concat(Payloads(es[1..]))|
      else Payloads(es) == Payloads(es[1..])
  {
    if es[0].Forwarded? {
      assert Payloads(es)[0] == es[0].payload && Payloads(es)[1..] == Payloads(es[1..]);
    } else {
      assert Payloads(es) == Payloads(es[1..]);
    }
  }

  /** For an admitted packet the wrap condition alone decides: over every such run each commit appends what it is given
      if and only if what is copied always wraps harmlessly. */
  lemma {:induction false} ReservedIsFaithfulExactly(env: Env, x: Export, es: seq<TcpExport.Event>, remaining: nat)
    requires Sound(env, x) && Reserved(env, x, remaining) && Sized(Payloads(es), remaining)
    ensures EveryForwardHarmless(env, x, es) <==> EveryForwardFaithful(env, x, es)
    decreases |es|
  {
    hide Reserved, ForwardsHarmlessly, ForwardsFaithfully, ForwardsCleanly, TcpExport.Step, Loaded, Valid, Legal;
    hide Drained, Payloads, Concat;
    if es != [] {
      PayloadsSplit(es, remaining);
      ghost var y := TcpExport.Step(env, x, es[0]);
      if es[0].Forwarded? {
        ghost var payload := es[0].payload;
        FaithfulIsClean(env, x.ring, payload);
        if ForwardsHarmlessly(env, x.ring, payload) {
          ReservedForwardFits(env, x, payload, remaining);
          ReservedIsFaithfulExactly(env, y, es[1..], remaining - |payload|);
        }
      } else {
        ReservedThroughout(env, x, es[0], remaining);
        ReservedIsFaithfulExactly(env, y, es[1..], remaining);
      }
    }
  }

  lemma FaithfulIsClean(env: Env, r: Ring, payload: seq<byte>)
    requires Valid(r)
    ensures ForwardsFaithfully(env, r, payload) <==> ForwardsCleanly(env, r, payload)
    ensures ForwardsCleanly(env, r, payload) ==> ForwardsHarmlessly(env, r, payload)
  {
    hide Commit, Contents, Harmless, Space;
    ghost var hdr := Header(env.format, payload);
    CommitAppendsExactly(r, hdr);
    CommitAppendsExactly(Commit(r, hdr), payload);
  }

  /** The receiver's decision on a packet settles it all. It is admitted if and only if the serio packets of its
      fragments fit the free space. Admitted, and whatever acknowledgements come
      in between: each commit appends what it is given if and only if what is copied always wraps harmlessly, and then
      every fragment has entered the buffer whole and in order. Refused: none leaves a trace. */
  lemma AllOrNothing(env: Env, l: Link, packet: seq<byte>, length: u32, es: seq<TcpExport.Event>)
    requires Sound(env, l.exporter) && |packet| == length && Sized(Payloads(es), length)
    ensures var m := Perform(env, l, [Accept(length)]);
      && m.exporter == l.exporter
      && (m.transmitting <==> |Serialize(env.format, Fragments(packet, length))| <= Space(l.exporter.ring))
      && (m.transmitting ==>
            && (EveryForwardHarmless(env, l.exporter, es) <==> EveryForwardFaithful(env, l.exporter, es))
            && (EveryForwardHarmless(env, l.exporter, es) ==>
                  Stream(TcpExport.Run(env, m.exporter, es))
                  == Stream(l.exporter) + Serialize(env.format, Payloads(es))))
      && (!m.transmitting ==> Perform(env, m, FragmentActions(Payloads(es))).exporter == l.exporter)
  {
    hide Legal, Valid, Sized, EveryForwardHarmless, EveryForwardFaithful, TcpExport.Run, Serialize, Payloads;
    ghost var m := PerformOne(env, l, Accept(length));
    SerialSizeIsExact(env, packet, length);
    PerformNothing(env, m);
    PerformAppend(env, l, [], Accept(length));
    PerformNothing(env, l);
    assert [] + [Accept(length)] == [Accept(length)];
    if m.transmitting {
      ReservedIsFaithfulExactly(env, l.exporter, es, length);
      if EveryForwardHarmless(env, l.exporter, es) {
        ReservationHolds(env, l.exporter, es, length);
        WrittenThenQueuedIsCommitted(env, l.exporter, es);
      }
    } else {
      RefusedPacketLeavesNothing(env, m, Payloads(es));
    }
  }
}
