/** What the receiver's actions do to the exporter behind it (Xiomas/xiomas_export.cc:390-424). */
module Link {
  import opened Bytes
  import opened CircularBuffer
  import opened Serio
  import opened TcpExport
  import opened PacketStream

  /** The receiver's decision about the current packet, and the exporter. */
  datatype Link = Link(transmitting: bool, exporter: Export)

  /** The size of a packet once each of its pieces has a serio header. */
  function SerialSize(env: Env, length: nat): nat {
    length + Pieces(length) * env.format.size
  }

  ghost function PerformOne(env: Env, l: Link, a: Action): (m: Link)
    requires Valid(l.exporter.ring)
    ensures Valid(m.exporter.ring)
  {
    match a
    case Accept(length) => l.(transmitting := SerialSize(env, length) <= Space(l.exporter.ring))
    case Fragment(payload) => if l.transmitting then l.(exporter := Forward(env, l.exporter, payload)) else l
    case Finish => l.(exporter := RequestAck(l.exporter))
  }

  ghost function Perform(env: Env, l: Link, acts: seq<Action>): (m: Link)
    requires Valid(l.exporter.ring)
    ensures Valid(m.exporter.ring)
    decreases |acts|
  {
    if acts == [] then l else Perform(env, PerformOne(env, l, acts[0]), acts[1..])
  }

  lemma PerformNothing(env: Env, l: Link)
    requires Valid(l.exporter.ring)
    ensures Perform(env, l, []) == l
  {
  }

  lemma {:induction false} PerformAppend(env: Env, l: Link, acts: seq<Action>, a: Action)
    requires Valid(l.exporter.ring)
    ensures Perform(env, l, acts + [a]) == PerformOne(env, Perform(env, l, acts), a)
    decreases |acts|
  {
    hide Valid, PerformOne;
    if acts == [] {
      assert acts + [a] == [a];
      assert Perform(env, PerformOne(env, l, a), []) == PerformOne(env, l, a);
    } else {
      assert (acts + [a])[1..] == acts[1..] + [a];
      PerformAppend(env, PerformOne(env, l, acts[0]), acts[1..], a);
    }
  }

  lemma {:induction false} PerformConcat(env: Env, l: Link, a: seq<Action>, b: seq<Action>)
    requires Valid(l.exporter.ring)
    ensures Perform(env, l, a + b) == Perform(env, Perform(env, l, a), b)
    decreases |a|
  {
    hide Valid, PerformOne;
    if a == [] {
      assert a + b == b;
    } else {
      assert (a + b)[1..] == a[1..] + b;
      PerformConcat(env, PerformOne(env, l, a[0]), a[1..], b);
    }
  }

  /** None of a packet that was not admitted enters the buffer. */
  lemma {:induction false} RefusedPacketLeavesNothing(env: Env, l: Link, fs: seq<seq<byte>>)
    requires Valid(l.exporter.ring) && !l.transmitting
    ensures Perform(env, l, FragmentActions(fs)) == l
    decreases |fs|
  {
    if fs != [] {
      assert FragmentActions(fs)[1..] == FragmentActions(fs[1..]);
      RefusedPacketLeavesNothing(env, l, fs[1..]);
    }
  }
}
