/** The exporter as the code runs it: index arithmetic on a fixed array, loops and in-place updates. Every method is
    proved against the functions of `TcpExport`. */
module TcpExporter {
  import opened Bytes
  import opened CircularBuffer
  import opened Serio
  import opened TcpExport

  class Exporter {
    const env: Env
    const circ: array<byte>
    var head: nat
    var tail: nat
    var outstanding: u32
    var client: bool
    var references: int

    // The world around the exporter: polls of obuf_empty(), bytes and calls of iwrite(), callbacks.
    var polls: nat
    ghost var sent: seq<byte>
    ghost var writes: nat
    var acks: nat

    ghost function State(): Export
      reads this, circ
    {
      Export(Ring(circ[..], head, tail), outstanding, polls, sent, client, references, acks)
    }

    ghost predicate Valid()
      reads this, circ
    {
      CircularBuffer.Valid(State().ring)
    }

    constructor (env: Env)
      ensures this.env == env && fresh(circ)
      ensures Valid() && State() == Fresh(circ[..])
    {
      this.env := env;
      circ := new byte[SIZE];
      head, tail, outstanding := SIZE + 1, 0, 0;
      client, references := false, 0;
      polls, sent, writes, acks := 0, [], 0, 0;
    }

    method CircLength() returns (n: nat)
      requires Valid()
      ensures n == |Contents(State().ring)| == Length(State().ring)
    {
      n := if head > SIZE then 0
           else if tail > head then tail - head
           else SIZE - head + tail;
    }

    method CircSpace() returns (n: nat)
      requires Valid()
      ensures n == SIZE - |Contents(State().ring)| == Space(State().ring)
    {
      var length := CircLength();
      n := SIZE - length;
    }

    /** `circ_commit`; its assertions hold for every call. */
    method CircCommit(data: seq<byte>)
      requires Valid()
      modifies this, circ
      ensures Valid()
      ensures State() == old(State()).(ring := Commit(old(State()).ring, data))
    {
      hide Contents;
      var n := |data|;
      var space := CircSpace();
      if n > space {
        n := space;
      }
      if n > 0 {
        CommitSome(data[..n]);
      }
    }

    /** The branch of `circ_commit` that copies: the buffer is known not to be full. */
    method CommitSome(data: seq<byte>)
      requires Valid() && 0 < |data| <= Space(State().ring)
      modifies this, circ
      ensures Valid()
      ensures State() == old(State()).(ring := CommitFitting(old(State()).ring, data))
    {
      hide Contents, Overlay;
      var n := |data|;
      if head > SIZE {
        head, tail := 0, 0;
      }
      var first := if tail >= head then SIZE - tail else head - tail;
      if n < first {
        first := n;
      }
      CopyIn(tail, data[..first]);
      tail := tail + first;
      assert tail <= SIZE;
      if tail == SIZE {
        tail := 0;
      }
      n := n - first;
      if n > 0 {
        assert tail == 0 && n <= head;
        CopyIn(tail, data[first..]);
        tail := tail + first;
      }
    }

    /** `memcpy` into the buffer. */
    method CopyIn(at: nat, data: seq<byte>)
      requires at + |data| <= circ.Length
      modifies circ
      ensures circ[..] == Overlay(old(circ[..]), at, data)
    {
      forall i | 0 <= i < |data| {
        circ[at + i] := data[i];
      }
    }

    /** `circ_head_bytes`, with the difference taken as written. */
    method CircHeadBytes() returns (n: u32)
      requires Valid()
      ensures n == HeadBytes(State().ring)
    {
      if head > SIZE {
        n := 0;
      } else {
        n := if tail > head then Wrap32(head - tail) else SIZE - head;
      }
    }

    /** `circ_consume` of a contiguous span: its assertion holds, and the span leaves the queue. Consuming nothing from
        a full buffer would empty it; no caller does. */
    method CircConsume(n: nat)
      requires Valid() && n <= ContiguousBytes(State().ring)
      modifies this
      ensures Valid() && writes == old(writes)
      ensures n > 0 || old(head) != old(tail) ==>
        State() == old(State()).(ring := Drop(old(State()).ring, n), outstanding := Wrap32(old(outstanding) + n))
      ensures n == 0 && old(head) == old(tail) ==>
        State() == old(State()).(ring := old(State()).ring.(head := SIZE + 1)) && Length(State().ring) == 0
    {
      var bytes := CircHeadBytes();
      assert n <= bytes;
      outstanding := Wrap32(outstanding + n);
      head := head + n;
      if head == SIZE {
        head := 0;
      }
      if head == tail {
        head := SIZE + 1;
      }
    }

    /** One turn of the loop in `circ_transmit`: `iwrite` of a contiguous span, then `circ_consume`. */
    method WriteSpan(n: nat)
      requires Valid() && 0 < n <= ContiguousBytes(State().ring)
      modifies this
      ensures Valid()
      ensures State() == Transmit(old(State()), n) && writes == old(writes) + 1
    {
      assert circ[head..head + n] == Contents(State().ring)[..n];
      sent, writes := sent + circ[head..head + n], writes + 1;
      CircConsume(n);
    }

    /** `circ_transmit` of bytes that are there: they go out in order, in at most two writes. */
    method CircTransmit(n: nat)
      requires Valid() && n <= Length(State().ring)
      modifies this
      ensures Valid()
      ensures State() == Transmit(old(State()), n)
      ensures writes <= old(writes) + 2
    {
      ghost var x := State();
      ghost var total := writes + Writes(x.ring, n);
      AtMostTwoWrites(x.ring, n);
      var left := n;
      hide State, Valid, Transmit, Writes, HeadBytes, ContiguousBytes, Length, CircularBuffer.Valid;
      while left > 0
        invariant Valid() && 0 <= left <= Length(State().ring)
        invariant Transmit(State(), left) == Transmit(x, n)
        invariant writes + Writes(State().ring, left) == total
      {
        Turn(State(), left);
        var bytes := CircHeadBytes();
        assert bytes > 0;
        if left < bytes {
          bytes := left;
        }
        WriteSpan(bytes);
        left := left - bytes;
      }
      TransmitNothing(State());
    }

    method CTS() returns (clear: bool)
      requires Valid()
      modifies this
      ensures Valid() && State() == Polled(old(State()))
      ensures clear == ClearToSend(env, old(State()))
    {
      clear := outstanding < WINDOW;
      if clear {
        clear, polls := env.obufEmpty(polls), polls + 1;
      }
    }

    /** The end of `process_queue`: an empty buffer acknowledges the waiting receiver and lets go of it. */
    method AnswerClient(length: nat)
      requires Valid() && length == Length(State().ring)
      modifies this
      ensures Valid() && State() == Answer(old(State()))
    {
      if length == 0 && client {
        acks := acks + 1;
        references := references - 1;
        client := false;
      }
    }

    /** `process_queue` terminates: every turn but the last takes something out of the buffer. */
    method ProcessQueue()
      requires Valid()
      modifies this
      ensures Valid()
      ensures State() == TcpExport.ProcessQueue(env, old(State()))
    {
      hide State, Transmit, Length, CircularBuffer.Valid, TcpExport.ProcessQueue, ClearToSend, Polled, Answer;
      while true
        invariant Valid()
        invariant TcpExport.ProcessQueue(env, State()) == TcpExport.ProcessQueue(env, old(State()))
        decreases Length(State().ring)
      {
        Turns(env, State());
        var length := CircLength();
        var clear := CTS();
        if clear && length > 0 {
          if length > MAX_DATA + env.format.size {
            length := MAX_DATA + env.format.size;
          }
          TransmitShortens(State(), length);
          CircTransmit(length);
        } else {
          AnswerClient(length);
          return;
        }
      }
    }

    method ForwardPacket(payload: seq<byte>)
      requires Valid()
      modifies this, circ
      ensures Valid()
      ensures State() == Forward(env, old(State()), payload)
    {
      var hdr := MakeHeader(env.format, payload);
      CircCommit(hdr);
      CircCommit(payload);
      ProcessQueue();
    }

    /** The ACK case of `app_input`. */
    method Acknowledged(n: nat)
      requires Valid()
      modifies this
      ensures Valid()
      ensures State() == Acknowledge(env, old(State()), n)
    {
      if n > outstanding {
        outstanding := 0;
      } else {
        outstanding := outstanding - n;
      }
      ProcessQueue();
    }

    method RequestAck()
      requires Valid()
      modifies this
      ensures Valid()
      ensures State() == TcpExport.RequestAck(old(State()))
    {
      if client {
        references := references - 1;
      }
      client := true;
      references := references + 1;
    }
  }

  /** How many writes `n` bytes take, one for each contiguous span. */
  ghost function Writes(r: Ring, n: nat): nat
    requires CircularBuffer.Valid(r) && n <= Length(r)
    decreases n
  {
    if n == 0 then 0
    else if n <= ContiguousBytes(r) then 1
    else 1 + Writes(Drop(r, ContiguousBytes(r)), n - ContiguousBytes(r))
  }

  /** The contents lie in at most two spans. */
  lemma AtMostTwoWrites(r: Ring, n: nat)
    requires CircularBuffer.Valid(r) && n <= Length(r)
    ensures Writes(r, n) <= 2
  {
  }

  /** One turn of `process_queue`. */
  lemma Turns(env: Env, x: Export)
    requires CircularBuffer.Valid(x.ring)
    ensures Polled(x).ring == x.ring
    ensures ClearToSend(env, x) && Length(x.ring) > 0 ==>
      TcpExport.ProcessQueue(env, x)
      == TcpExport.ProcessQueue(env, Transmit(Polled(x), Min(Length(x.ring), WriteLimit(env))))
    ensures !(ClearToSend(env, x) && Length(x.ring) > 0) ==>
      TcpExport.ProcessQueue(env, x) == Answer(Polled(x))
  {
  }

  lemma TransmitShortens(x: Export, n: nat)
    requires CircularBuffer.Valid(x.ring) && n <= Length(x.ring)
    ensures Length(Transmit(x, n).ring) == Length(x.ring) - n
  {
  }

  lemma TransmitNothing(x: Export)
    requires CircularBuffer.Valid(x.ring)
    ensures Transmit(x, 0) == x && Writes(x.ring, 0) == 0
  {
  }

  /** Writing the span at the head leaves the rest of the request to do. */
  lemma Turn(x: Export, left: nat)
    requires CircularBuffer.Valid(x.ring) && 0 < left <= Length(x.ring)
    ensures var span := Min(left, HeadBytes(x.ring));
      && 0 < span <= ContiguousBytes(x.ring) && span <= Length(x.ring)
      && var t := Transmit(x, span);
      && CircularBuffer.Valid(t.ring) && left - span <= Length(t.ring)
      && Transmit(t, left - span) == Transmit(x, left)
      && Writes(t.ring, left - span) + 1 == Writes(x.ring, left)
  {
    HeadBytesSuffice(x.ring, left);
    ghost var span := Min(left, HeadBytes(x.ring));
    TransmitTwice(x, span, left - span);
  }

  lemma TransmitTwice(x: Export, m: nat, n: nat)
    requires CircularBuffer.Valid(x.ring) && m + n <= Length(x.ring)
    ensures Length(Drop(x.ring, m)) == Length(x.ring) - m
    ensures Transmit(Transmit(x, m), n) == Transmit(x, m + n)
  {
    DropTwice(x.ring, m, n);
    DropRemovesTheFront(x.ring, m);
    Wrap32Twice(x.outstanding + m, n);
    hide Drop, Contents, Wrap32;
    TakeTwice(x.sent, Contents(x.ring), m, n);
  }

  lemma TakeTwice(sent: seq<byte>, c: seq<byte>, m: nat, n: nat)
    requires m + n <= |c|
    ensures sent + c[..m] + c[m..][..n] == sent + c[..m + n]
  {
  }

  lemma DropTwice(r: Ring, m: nat, n: nat)
    requires CircularBuffer.Valid(r) && m + n <= Length(r)
    ensures Length(Drop(r, m)) == Length(r) - m
    ensures Drop(Drop(r, m), n) == Drop(r, m + n)
  {
  }
}
