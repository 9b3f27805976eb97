/** The code's receiver and exporter at work on one connection: a run of the objects is a run of `Pipeline`. */
module Session {
  import opened Bytes
  import opened CircularBuffer
  import opened Serio
  import opened TcpExport
  import opened PacketStream
  import opened Pipeline
  import R = TcpReceiver

  ghost function ConnectionOf(r: R.Receiver): Connection
    reads r, r.exp, r.exp.circ
  {
    Connection(r.g.stream, r.Link())
  }

  /** One event of the connection: a read by the receiver, or an acknowledgement to the exporter. */
  method Handle(r: R.Receiver, e: Pipeline.Event)
    requires r.Valid()
    modifies r, r.exp, r.exp.circ
    ensures r.Valid() && ConnectionOf(r) == Next(r.exp.env, old(ConnectionOf(r)), e)
  {
    match e
    case Read(chunk) =>
      ghost var s := r.g.stream;
      r.ProtocolInput(chunk);
      NewActionsAre(s, chunk, r.did);
    case Acked(n) =>
      r.exp.Acknowledged(n);
  }

  lemma NewActionsAre(s: seq<byte>, t: seq<byte>, did: seq<Action>)
    requires Actions(s + t) == Actions(s) + did
    ensures NewActions(s, t) == did
  {
  }

  method HandleAll(r: R.Receiver, es: seq<Pipeline.Event>)
    requires r.Valid()
    modifies r, r.exp, r.exp.circ
    ensures r.Valid() && ConnectionOf(r) == Pipeline.Run(r.exp.env, old(ConnectionOf(r)), es)
    decreases |es|
  {
    hide Next, CircularBuffer.Valid;
    if es != [] {
      Handle(r, es[0]);
      HandleAll(r, es[1..]);
    }
  }

  /** Whatever the events of a new connection to an exporter with an empty buffer are: the code has written, up to what
      still waits, the serio packets of the complete fragments of the first acceptable packet, in order, within the
      window; and it has called the receiver back, or still holds it for that, exactly if the packet is complete, the
      former only if all of it is written. */
  method Serve(r: R.Receiver, es: seq<Pipeline.Event>)
    requires r.Valid() && r.g.stream == [] && Opens(r.exp.env, r.exp.State())
    modifies r, r.exp, r.exp.circ
    ensures r.Valid() && r.g.stream == Received(es)
    ensures Stream(r.exp.State()) == old(r.exp.sent) + Serialize(r.exp.env.format, FragmentsIn(Received(es)))
    ensures r.exp.outstanding <= Bound(r.exp.env)
    ensures old(r.exp.acks) <= r.exp.acks <= old(r.exp.acks) + 1
    ensures r.exp.acks + Held(r.exp.State()) == old(r.exp.acks) + (if Complete(Received(es)) then 1 else 0)
    ensures r.exp.acks > old(r.exp.acks) ==>
      Complete(Received(es)) && r.exp.sent == Stream(r.exp.State())
  {
    hide Opens, Next, Pipeline.Run, FragmentsIn, Complete, Serialize, Stream, CircularBuffer.Valid;
    ghost var x, transmitting := r.exp.State(), r.transmitting;
    EndToEnd(r.exp.env, x, transmitting, es);
    HandleAll(r, es);
  }
}
