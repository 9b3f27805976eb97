/** The receiver of the instrument's TCP stream as the code runs it (Xiomas/xiomas_export.cc:266-430), with the exporter
    behind it. The framework is taken to call `protocol_input` with `cp == 0` and with `buf` holding the bytes that are
    not yet consumed. The fragments in `g.emitted` are also those that go to the log. */
module TcpReceiver {
  import opened Bytes
  import opened HarvardHeader
  import opened PacketStream
  import opened ReceiverProgress
  import opened TcpExport
  import opened TcpExporter
  import opened Serio
  import L = Link
  import CircularBuffer

  datatype Verdict = Incomplete | TurnedDown | Accepted
  datatype Outcome = Again | ReturnAndDrop | ReturnAndKeep

  class Receiver {
    const exp: Exporter
    var buf: seq<byte>
    var phase: Phase
    var remaining: u32
    var discarding: u32
    var transmitting: bool

    ghost var g: Progress
    ghost var did: seq<Action>  // actions of the latest call
    ghost var consumed: nat    // bytes that have left the buffer
    ghost var waiting: nat     // bytes passed over but still in the buffer
    ghost var recounted: nat   // counted in `discarding` a second time

    ghost function Link(): L.Link
      reads this`transmitting, exp, exp.circ
    {
      L.Link(transmitting, exp.State())
    }

    /** The parse position is `cp` bytes into the buffer. */
    ghost predicate Placed(cp: int)
      reads this`buf, this`consumed, this`g, this`phase, this`remaining
    {
      && consumed <= |g.stream| && buf == g.stream[consumed..]
      && 0 <= cp <= |buf| && g.pos == consumed + cp
      && phase == g.phase && (phase == MidPacket ==> remaining == g.remaining)
    }

    /** `bytes_discarding` is the number of bytes other than '$' that have been passed over, and those counted again. */
    ghost predicate Counted()
      reads this`discarding, this`g, this`phase, this`recounted
    {
      phase != MidPacket ==> g.pos <= |g.stream| && discarding == Wrap32(PassedPlain(g) + recounted)
    }

    ghost predicate Valid()
      reads this, exp, exp.circ
    {
      && exp.Valid()
      && Placed(waiting)
      && Counted()
      && Settled(g)
      && (waiting > 0 ==> phase == Idle && HeaderAt(g.stream, g.pos))
    }

    constructor (exp: Exporter)
      requires exp.Valid()
      ensures Valid() && this.exp == exp && g.stream == [] && buf == [] && waiting == 0 && recounted == 0
    {
      this.exp := exp;
      buf, phase, remaining, discarding, transmitting := [], Lost, 0, 0, false;
      g, consumed, waiting, recounted := Progress([], 0, Lost, 0, 0, [], []), 0, 0, 0;
      did := [];
    }

    /** The call began in state `link`; the exporter has seen what was done since. */
    ghost predicate Linked(link: L.Link)
      reads this`transmitting, this`did, exp, exp.circ
    {
      && exp.Valid()
      && CircularBuffer.Valid(link.exporter.ring)
      && Link() == L.Perform(exp.env, link, did)
    }

    /** `not_found('$')`: the offset of the next '$', or the end of the buffer. */
    method Seek(cp: nat) returns (at: nat)
      requires cp <= |buf|
      ensures cp <= at <= |buf|
      ensures forall i | cp <= i < at :: buf[i] != DOLLAR
      ensures at < |buf| ==> buf[at] == DOLLAR
    {
      at := cp;
      while at < |buf| && buf[at] != DOLLAR
        invariant cp <= at <= |buf|
        invariant forall i | cp <= i < at :: buf[i] != DOLLAR
      {
        at := at + 1;
      }
    }

    /** `get_txmit_size`: the size of the next fragment once it has arrived, otherwise 0. */
    method TxmitSize(cp: nat) returns (n: nat)
      requires cp <= |buf|
      ensures n == (if Fragments(buf[cp..], remaining) == [] then 0 else FragmentSize(remaining))
    {
      n := if remaining >= MAX_DATA then MAX_DATA else remaining;
      if |buf| - cp < n {
        n := 0;
      }
    }

    /** `consume`. */
    method Consume(cp: nat)
      requires Placed(cp)
      modifies this`buf, this`consumed
      ensures Placed(0) && consumed == old(consumed) + cp
    {
      buf := buf[cp..];
      consumed := consumed + cp;
    }

    /** The case `xtr_lost`. */
    method SeekStart(cp: nat) returns (at: nat)
      requires phase == Lost && Placed(cp) && Working(g) && Counted()
      modifies this`discarding, this`phase, this`g
      ensures Placed(at) && Working(g) && Counted()
      ensures g == old(g).(pos := g.pos, phase := phase)
      ensures cp <= at && (if at == |buf| then phase == Lost else phase == Idle)
    {
      hide Working, HeaderAt, PassedPlain;
      at := Seek(cp);
      discarding := Wrap32(discarding + at - cp);
      Wrap32Twice(PassedPlain(g) + recounted, at - cp);
      PassOver(g, consumed + at);
      if at < |buf| {
        phase := Idle;
      }
      ghost var h := g.(pos := consumed + at, phase := phase);
      CountPassOver(g, h);
      g := h;
    }

    /** A candidate header is turned down: parsing resumes one byte further on. */
    method TurnDown(cp: nat)
      requires phase == Idle && Placed(cp) && Working(g) && Counted()
      requires g.pos + HEADER_SIZE <= |g.stream| && !HeaderAt(g.stream, g.pos)
      modifies this`phase, this`g
      ensures Placed(cp + 1) && Working(g) && Counted()
      ensures phase == Lost && g == old(g).(pos := old(g.pos) + 1, phase := Lost)
    {
      ReceiverProgress.Reject(g);
      CountReject(g);
      phase := Lost;
      g := g.(pos := g.pos + 1, phase := Lost);
    }

    /** The decision whether the packet may enter the circular buffer. */
    method Admit(length: u32, ghost link: L.Link)
      requires Linked(link)
      modifies this`transmitting, this`did
      ensures Linked(link) && did == old(did) + [Accept(length)]
    {
      var pieces := (length + MAX_DATA - 1) / MAX_DATA;
      var total := length + pieces * exp.env.format.size;
      var space := exp.CircSpace();
      transmitting := total <= space;
      L.PerformAppend(exp.env, link, did, Accept(length));
      did := did + [Accept(length)];
    }

    /** A fragment goes to the exporter, if its packet was admitted. */
    method Send(payload: seq<byte>, ghost link: L.Link)
      requires Linked(link)
      modifies this`did, exp, exp.circ
      ensures Linked(link) && did == old(did) + [Fragment(payload)]
    {
      if transmitting {
        exp.ForwardPacket(payload);
      }
      L.PerformAppend(exp.env, link, did, Fragment(payload));
      did := did + [Fragment(payload)];
    }

    /** The last fragment asks for an acknowledgement. */
    method Finished(ghost link: L.Link)
      requires Linked(link)
      modifies this`did, exp
      ensures Linked(link) && did == old(did) + [Finish]
    {
      exp.RequestAck();
      L.PerformAppend(exp.env, link, did, Finish);
      did := did + [Finish];
    }

    /** An acceptable header whose first fragment has arrived. */
    method BeginPacket(cp: nat, length: u32, ghost link: L.Link)
      requires phase == Idle && Placed(cp) && Working(g) && Linked(link)
      requires HeaderAt(g.stream, g.pos) && length == LengthAt(g.stream, g.pos)
      modifies this`discarding, this`phase, this`remaining, this`transmitting, this`g, this`did
      ensures phase == MidPacket && Placed(cp) && InPacket(g) && Linked(link)
      ensures remaining == length
      ensures g.pos == old(g.pos) && g.stream == old(g.stream)
      ensures old(g.actions) == [] && g.actions == [Accept(length)] && did == old(did) + [Accept(length)]
    {
      hide InPacket, Working, HeaderAt, L.Perform;
      Begin(g);
      discarding := 0;
      Admit(length, link);
      phase, remaining := MidPacket, length;
      g := g.(phase := MidPacket, at := g.pos, remaining := length, emitted := [], actions := [Accept(length)]);
    }

    /** One complete fragment is logged and sent. */
    method TakeFragment(cp: nat, n: nat, ghost link: L.Link)
      requires phase == MidPacket && Placed(cp) && InPacket(g) && Linked(link)
      requires 0 < n == FragmentSize(remaining) && cp + n <= |buf|
      modifies this`remaining, this`g, this`did, exp, exp.circ
      ensures phase == MidPacket && Placed(cp + n) && Working(g) && Linked(link)
      ensures g.pos == old(g.pos) + n && g.stream == old(g.stream)
      ensures old(did) <= did && g.actions == old(g.actions) + did[|old(did)|..]
    {
      hide InPacket, Working, L.Perform;
      var payload := buf[cp..cp + n];
      SliceOfTail(g.stream, consumed, cp, n);
      Cut(g, n);
      Send(payload, link);
      remaining := remaining - n;
      ghost var more := [Fragment(payload)] + Ends(remaining);
      if remaining == 0 {
        Finished(link);
      }
      assert did == old(did) + more;
      assert g.actions + [Fragment(payload)] + Ends(remaining) == g.actions + more;
      g := g.(pos := g.pos + n, phase := MidPacket, remaining := remaining, emitted := g.emitted + [payload],
              actions := g.actions + more);
    }

    /** A read appends to the buffer; what an earlier call passed over without dropping is scanned again. */
    method Fill(chunk: seq<byte>)
      requires Valid()
      modifies this`buf, this`g, this`waiting, this`recounted
      ensures exp.Valid() && Placed(0) && Counted() && Working(g) && waiting == 0
      ensures g.stream == old(g.stream) + chunk && g.actions == old(g.actions)
      ensures recounted == old(recounted) + Recount(old(buf)[..old(waiting)]) && buf == old(buf) + chunk
    {
      hide Settled, Working, HeaderAt, PassedPlain, Recount;
      BufferGrows(g.stream, consumed, waiting, chunk);
      Rewind(g, consumed);
      Grow(g.(pos := consumed), chunk);
      if phase != MidPacket {
        CountRewind(g, consumed, chunk);
      }
      recounted := recounted + Recount(buf[..waiting]);
      buf := buf + chunk;
      g := g.(pos := consumed, stream := g.stream + chunk);
      waiting := 0;
    }

    /** `protocol_input` after a read of `chunk`. However the stream is cut into reads, what has been done since the
        connection opened is what the whole stream asks for, and the exporter has seen exactly what is new. */
    method ProtocolInput(chunk: seq<byte>)
      requires Valid()
      modifies this, exp, exp.circ
      ensures Valid() && g.stream == old(g.stream) + chunk
      ensures Actions(g.stream) == Actions(old(g.stream)) + did
      ensures phase == PhaseOf(g.stream)
      ensures Link() == L.Perform(exp.env, old(Link()), did)
      ensures recounted == old(recounted) + Recount(old(buf)[..old(waiting)])
      ensures phase == Idle && HeaderAt(g.stream, g.pos) ==> buf == old(buf) + chunk
      ensures |buf| < MAX_DATA <==> LeavesLess(g.stream, |old(buf) + chunk|, MAX_DATA)
      ensures |buf| < BUFFER_SIZE <==> LeavesLess(g.stream, |old(buf) + chunk|, BUFFER_SIZE)
    {
      hide Actions, PhaseOf, HeaderAt, LengthAt, L.Perform, Settled, Working;
      SettledIsComplete(g);
      ghost var link, start := Link(), g.actions;
      Fill(chunk);
      did := [];
      assert start + [] == start;
      L.PerformNothing(exp.env, link);
      Parse(link, start);
      SettledIsComplete(g);
      LeftoverExactly(g, |buf|, |old(buf) + chunk|, MAX_DATA);
      LeftoverExactly(g, |buf|, |old(buf) + chunk|, BUFFER_SIZE);
    }

    /** The loop of `protocol_input`. It terminates: a turn moves on, or finds the '$' it stands on. */
    method Parse(ghost link: L.Link, ghost start: seq<Action>)
      requires Placed(0) && Counted() && Working(g) && waiting == 0
      requires Linked(link) && g.actions == start + did
      modifies this, exp, exp.circ
      ensures Valid() && Linked(link) && g.actions == start + did && g.stream == old(g.stream)
      ensures recounted == old(recounted)
      ensures phase == Idle && HeaderAt(g.stream, g.pos) ==> buf == old(buf)
    {
      hide Working, InPacket, Settled, HeaderAt, LengthAt, L.Perform, Counted;
      ghost var s := g.stream;
      var cp, outcome := 0, Again;
      while cp < |buf| && outcome == Again
        invariant Placed(cp) && Counted() && Working(g) && waiting == 0
        invariant outcome != Again ==> Settled(g)
        invariant outcome == ReturnAndKeep ==> phase == Idle && HeaderAt(g.stream, g.pos)
        invariant outcome == ReturnAndDrop ==> !(phase == Idle && HeaderAt(g.stream, g.pos))
        invariant Linked(link) && g.actions == start + did && g.stream == s
        invariant recounted == old(recounted) && buf == old(buf)
        decreases |buf| - cp, if phase == Lost then 1 else 0, if outcome == Again then 1 else 0
      {
        if phase == Lost {
          cp := SeekStart(cp);
        } else if phase == Idle {
          cp, outcome := IdleTurn(cp, link, start);
        } else {
          cp, outcome := PacketTurn(cp, link, start);
        }
      }
      if outcome == Again {
        EndOfBuffer(g);
      }
      if outcome == ReturnAndKeep {
        waiting := cp;
      } else {
        Consume(cp);
      }
    }

    /** What `xhgValidateHeader` and the size limit say about the bytes at the position. */
    method CheckHeader(cp: nat) returns (v: Verdict)
      requires phase == Idle && Placed(cp)
      modifies this`remaining
      ensures Placed(cp)
      ensures v == Incomplete <==> |g.stream| < g.pos + HEADER_SIZE
      ensures v == Accepted <==> HeaderAt(g.stream, g.pos)
      ensures v == Accepted ==> remaining == LengthAt(g.stream, g.pos)
    {
      if |buf| - cp < HEADER_SIZE {
        return Incomplete;
      }
      var hdr := buf[cp..cp + HEADER_SIZE];
      SliceOfTail(g.stream, consumed, cp, HEADER_SIZE);
      hide ValidateHeader, PacketLength;
      HeaderFound(g.stream, g.pos);
      remaining := PacketLength(hdr);
      if !ValidateHeader(hdr, remaining) {
        v := TurnedDown;
      } else if remaining > MAX_PACKET {
        v := TurnedDown;
      } else {
        v := Accepted;
      }
    }

    /** The case `xtr_idle`. */
    method IdleTurn(cp: nat, ghost link: L.Link, ghost start: seq<Action>) returns (next: nat, outcome: Outcome)
      requires phase == Idle && Placed(cp) && Counted() && Working(g) && waiting == 0
      requires Linked(link) && g.actions == start + did
      modifies this, exp, exp.circ
      ensures Placed(next) && Counted() && Working(g) && waiting == 0
      ensures outcome != Again ==> Settled(g)
      ensures outcome == ReturnAndKeep ==> phase == Idle && HeaderAt(g.stream, g.pos)
      ensures outcome == ReturnAndDrop ==> !HeaderAt(g.stream, g.pos)
      ensures Linked(link) && g.actions == start + did && g.stream == old(g.stream)
      ensures recounted == old(recounted)
      ensures buf == old(buf) && if outcome == Again then cp < next else cp == next && phase == Idle
    {
      hide Working, InPacket, Settled, HeaderAt, LengthAt, L.Perform, Linked, Counted;
      next, outcome := cp, Again;
      var v := CheckHeader(cp);
      if v == Incomplete {
        WaitForHeader(g);
        outcome := ReturnAndDrop;
      } else if v == TurnedDown {
        TurnDown(cp);
        next := cp + 1;
      } else {
        var n := TxmitSize(cp);
        SliceOfDrop(g.stream, consumed, cp);
        if n == 0 {
          WaitForFragment(g);
          outcome := ReturnAndKeep;
        } else {
          AcceptPacket(cp, n, link, start);
          next := cp + n;
        }
      }
    }

    /** A packet is set up and its first fragment taken. */
    method AcceptPacket(cp: nat, n: nat, ghost link: L.Link, ghost start: seq<Action>)
      requires phase == Idle && Placed(cp) && Working(g)
      requires HeaderAt(g.stream, g.pos) && remaining == LengthAt(g.stream, g.pos)
      requires 0 < n == FragmentSize(remaining) && cp + n <= |buf|
      requires Linked(link) && g.actions == start + did
      modifies this, exp, exp.circ
      ensures phase == MidPacket && Placed(cp + n) && Counted() && Working(g)
      ensures Linked(link) && g.actions == start + did && g.stream == old(g.stream)
      ensures buf == old(buf) && waiting == old(waiting) && recounted == old(recounted)
    {
      hide Working, InPacket, HeaderAt, LengthAt, L.Perform;
      BeginPacket(cp, remaining, link);
      TakeFragment(cp, n, link);
    }

    /** The case `xtr_mid_pkt`. */
    method PacketTurn(cp: nat, ghost link: L.Link, ghost start: seq<Action>) returns (next: nat, outcome: Outcome)
      requires phase == MidPacket && Placed(cp) && Working(g) && waiting == 0
      requires Linked(link) && g.actions == start + did
      modifies this, exp, exp.circ
      ensures phase == MidPacket && Placed(next) && Counted() && Working(g) && waiting == 0
      ensures outcome != Again ==> outcome == ReturnAndDrop && Settled(g)
      ensures Linked(link) && g.actions == start + did && g.stream == old(g.stream)
      ensures recounted == old(recounted)
      ensures buf == old(buf) && if outcome == Again then cp < next else cp == next
    {
      hide Working, InPacket, Settled, L.Perform, Linked;
      var n := TxmitSize(cp);
      SliceOfDrop(g.stream, consumed, cp);
      if n == 0 {
        WaitForFragment(g);
        next, outcome := cp, ReturnAndDrop;
      } else {
        Continue(g);
        TakeFragment(cp, n, link);
        next, outcome := cp + n, Again;
      }
    }
  }

  lemma SliceOfDrop(s: seq<byte>, from: nat, at: nat)
    requires from + at <= |s|
    ensures s[from..][at..] == s[from + at..]
  {
  }

  lemma BufferGrows(s: seq<byte>, from: nat, at: nat, chunk: seq<byte>)
    requires from + at <= |s|
    ensures s[from..] + chunk == (s + chunk)[from..]
    ensures s[from..][..at] == s[from..from + at]
  {
  }

  lemma SliceOfTail(s: seq<byte>, from: nat, at: nat, n: nat)
    requires from + at + n <= |s|
    ensures s[from..][at..at + n] == s[from + at..from + at + n]
  {
  }

  /** Bytes passed over are bytes counted as discarded plus candidates turned down, in 32-bit arithmetic, if and only if
      what was counted a second time is a multiple of 2^32. */
  lemma DiscardCountExactly(r: Receiver)
    requires r.Valid() && r.phase != MidPacket
    ensures var passed := r.g.pos;
      var turnedDown := passed - Plain(r.g.stream[..passed]);
      Wrap32(r.discarding + turnedDown) == Wrap32(passed) <==> Wrap32(r.recounted) == 0
  {
    PassedIsPlainAndTurnedDown(r.g);
    hide Settled;
    ghost var plain := PassedPlain(r.g);
    Wrap32Twice(plain + r.recounted, r.g.pos - plain);
    WrapShift(r.g.pos, r.recounted);
  }

  lemma WrapShift(a: nat, b: nat)
    ensures Wrap32(a + b) == Wrap32(a) <==> Wrap32(b) == 0
  {
  }

  /** A receiver that has read junk and then part of a packet: it stands at the packet's header. */
  lemma BehindJunk(r: Receiver, junk: seq<byte>, h: header, t: seq<byte>)
    requires r.Valid() && r.g.stream == junk + h + t
    requires DOLLAR !in junk && Acceptable(h) && HEADER_SIZE + |t| < FragmentSize(PacketLength(h))
    ensures r.phase == Idle && r.g.pos == |junk| && HeaderAt(r.g.stream, r.g.pos)
    ensures r.discarding == Wrap32(|junk| + r.recounted)
    ensures r.buf == r.g.stream ==> r.waiting == |junk| && r.buf[..r.waiting] == junk
  {
    hide Acceptable, PacketLength, Settled, HeaderAt, Plain;
    StandsBehindJunk(r.g, junk, h, t);
    PassedIsPlainAndTurnedDown(r.g);
    PlainThroughout(junk);
    assert r.g.stream[..|junk|] == junk;
  }

  /** A connection opens, and something is read. */
  method Open(env: Env, chunk: seq<byte>) returns (r: Receiver)
    ensures r.Valid() && fresh(r) && fresh(r.exp) && fresh(r.exp.circ)
    ensures r.g.stream == chunk && r.recounted == 0
    ensures r.phase == Idle && HeaderAt(r.g.stream, r.g.pos) ==> r.buf == r.g.stream
  {
    hide Settled, Actions, L.Perform, PhaseOf, LeavesLess, HeaderAt, Plain;
    var exp := new Exporter(env);
    r := new Receiver(exp);
    r.ProtocolInput(chunk);
  }

  /** Its first read is bytes without '$' and a header whose first fragment is to come. */
  method OpenBehindJunk(env: Env, junk: seq<byte>, h: header) returns (r: Receiver)
    requires DOLLAR !in junk && Acceptable(h) && HEADER_SIZE < FragmentSize(PacketLength(h))
    ensures r.Valid() && fresh(r) && fresh(r.exp) && fresh(r.exp.circ)
    ensures r.phase == Idle && r.g.pos == |junk| && HeaderAt(r.g.stream, |junk|)
    ensures r.buf == r.g.stream == junk + h && r.buf[..r.waiting] == junk && r.recounted == 0
    ensures r.discarding == Wrap32(|junk|)
  {
    hide Acceptable, PacketLength, Settled, HeaderAt;
    r := Open(env, junk + h);
    assert junk + h == junk + h + [];
    BehindJunk(r, junk, h, []);
  }

  /** A connection whose first read fills the buffer for good: it waits for 956 bytes and has room for none. */
  method OneReadFillsTheBuffer(env: Env, junk: seq<byte>, block: u32) returns (r: Receiver)
    requires |junk| == BUFFER_SIZE - HEADER_SIZE && DOLLAR !in junk
    ensures r.Valid() && r.phase == Idle && r.buf == r.g.stream && |r.buf| == BUFFER_SIZE
    ensures HeaderAt(r.g.stream, r.g.pos) && LengthIn(r.g.stream) == 200016
  {
    hide Acceptable, PacketLength, Settled, HeaderAt, Fill, LengthIn, FirstHeader, LeavesLess;
    LongHeader(block);
    FullBufferWaits(junk, block);
    r := OpenBehindJunk(env, junk, Fill(PID_FIRE_LAYER, SRC_OPU, 0, 200000, block));
  }

  lemma JunkRecounted(junk: seq<byte>)
    requires junk != [] && DOLLAR !in junk
    ensures Recount(junk) == |junk| - 1
  {
    PlainThroughout(junk[1..]);
  }

  /** Held bytes are counted twice: junk, then the start of an acceptable packet, then a few more of its bytes. All but
      one byte of the junk is in the count a second time. */
  method HeldBytesAreCountedTwice(env: Env, junk: seq<byte>, h: header, t: seq<byte>) returns (r: Receiver)
    requires junk != [] && DOLLAR !in junk && Acceptable(h)
    requires HEADER_SIZE + |t| < FragmentSize(PacketLength(h))
    ensures r.Valid() && r.phase == Idle && r.g.stream == junk + h + t && r.g.pos == |junk|
    ensures r.recounted == |junk| - 1
    ensures r.discarding == Wrap32(2 * |junk| - 1)
  {
    hide Acceptable, PacketLength, Settled, Actions, L.Perform, PhaseOf, LeavesLess, HeaderAt, Plain, Recount;
    r := OpenBehindJunk(env, junk, h);
    JunkRecounted(junk);
    r.ProtocolInput(t);
    BehindJunk(r, junk, h, t);
  }
}
