/** The receiver of the instrument's UDP packets and its rate control by CTS and NCTS replies
    (Xiomas/xiomas_export.cc:501-604). */
module UdpReceiver {
  import opened Bytes
  import opened HarvardHeader

  const PACKETS_BEFORE_HOLD := 10

  /** What the receiver sees in a datagram; `rts` is the RTS flag. */
  datatype Message = Rejected | Control(rts: bool) | Status(rts: bool) | Other(rts: bool)

  datatype Reply = Silence | CTS | NCTS

  /** `pkts_recd` and `block_count`. */
  datatype Rate = Rate(received: byte, blocks: u32)

  /** A datagram counts when its length is the one its header announces and it comes from the scanner. */
  function Classify(datagram: seq<byte>): Message {
    if |datagram| < HEADER_SIZE || |datagram| >= 0x1_0000_0000 then Rejected
    else
      var h: header := datagram[..HEADER_SIZE];
      if !ValidateHeader(h, |datagram|) || h[SOURCE] != SRC_SCANNER then Rejected
      else if h[PACKET_ID] == PID_GW_CONTROL then Control(HasRTS(h[FLAGS]))
      else if h[PACKET_ID] == PID_XIO_STATUS then Status(HasRTS(h[FLAGS]))
      else Other(HasRTS(h[FLAGS]))
  }

  function Requests(m: Message): bool {
    !m.Rejected? && m.rts
  }

  /** A request takes one packet off the count, or is granted when the count is zero; a status packet adds one, and
      above ten the sender is told to hold off. `ready` is the state of the reply socket. */
  function React(r: Rate, m: Message, ready: bool): (Rate, Reply) {
    var request := Requests(m) && ready;
    var granted := request && r.received == 0;
    var received := if request && r.received > 0 then r.received - 1 else r.received;
    if m.Status? then
      var received := Wrap8(received + 1);
      if received > PACKETS_BEFORE_HOLD then (Rate(received, Wrap32(r.blocks + 1)), NCTS)
      else if granted then (Rate(received, Wrap32(r.blocks + 1)), CTS)
      else (Rate(received, r.blocks), Silence)
    else if granted then (Rate(received, Wrap32(r.blocks + 1)), CTS)
    else (Rate(received, r.blocks), Silence)
  }

  function FlagOf(reply: Reply): byte
    requires reply != Silence
  {
    if reply == CTS then FLAG_CTS else FLAG_NCTS
  }

  /** The headers that go out on the reply socket, at most one for a message. */
  function Wire(r: Rate, m: Message, ready: bool): seq<header> {
    var (s, reply) := React(r, m, ready);
    if reply == Silence || !ready then [] else [Fill(PID_GW_CONTROL, SRC_GATEWAY, FlagOf(reply), 0, s.blocks)]
  }

  class Receiver {
    var received: byte
    var blocks: u32
    var forwarded: seq<seq<byte>>  // status packets logged and handed to the exporter
    var sent: seq<header>          // headers written to the reply socket

    ghost function Count(): Rate
      reads this
    {
      Rate(received, blocks)
    }

    constructor ()
      ensures Count() == Rate(0, 0) && forwarded == [] && sent == []
    {
      received, blocks, forwarded, sent := 0, 0, [], [];
    }

    /** `sendFlag`: the block count rises even when the socket does not take the reply. */
    method SendFlag(flag: byte, ready: bool)
      modifies this
      ensures Count() == Rate(old(received), Wrap32(old(blocks) + 1)) && forwarded == old(forwarded)
      ensures sent == old(sent) + (if ready then [Fill(PID_GW_CONTROL, SRC_GATEWAY, flag, 0, blocks)] else [])
    {
      var hdr := new byte[HEADER_SIZE];
      blocks := Wrap32(blocks + 1);
      var length := FillHeader(hdr, PID_GW_CONTROL, SRC_GATEWAY, flag, 0, blocks);
      if ready {
        sent := sent + [hdr[..]];
      }
    }

    /** `protocol_input` for one datagram. */
    method ProtocolInput(datagram: seq<byte>, ready: bool)
      requires |datagram| < 0x1_0000_0000
      modifies this
      ensures Count() == React(old(Count()), Classify(datagram), ready).0
      ensures sent == old(sent) + Wire(old(Count()), Classify(datagram), ready)
      ensures forwarded == old(forwarded) + (if Classify(datagram).Status? then [datagram] else [])
    {
      hide ValidateHeader, Fill;
      if |datagram| < HEADER_SIZE {
        return;
      }
      var hdr: header := datagram[..HEADER_SIZE];
      if !ValidateHeader(hdr, |datagram|) {
        return;
      }
      if hdr[SOURCE] != SRC_SCANNER {
        return;
      }
      if HasRTS(hdr[FLAGS]) && ready {
        if received > 0 {
          received := received - 1;
        } else {
          SendFlag(FLAG_CTS, ready);
        }
      }
      if hdr[PACKET_ID] == PID_XIO_STATUS {
        received := Wrap8(received + 1);
        if received > PACKETS_BEFORE_HOLD {
          SendFlag(FLAG_NCTS, ready);
        }
        forwarded := forwarded + [datagram];
      }
    }
  }

  // --- Which datagrams are taken for what ---

  /** The bytes of a packet with these fields, legal ones, and a payload of the announced length. */
  ghost predicate IsPacket(datagram: seq<byte>, pid: byte, src: byte, flags: byte, block: u32) {
    && HEADER_SIZE <= |datagram| < 0x1_0000_0000
    && LegalFields(pid, src, flags, |datagram| - HEADER_SIZE)
    && datagram[..HEADER_SIZE] == Fill(pid, src, flags, |datagram| - HEADER_SIZE, block)
  }

  /** A datagram is taken for a status packet, or for a control message, if and only if it is what source 2 writes with
      packet identifier 3, or 1, around some payload; it requests if and only if flag 0x40 is among its flags. */
  lemma ClassifiedExactly(datagram: seq<byte>, rts: bool)
    ensures Classify(datagram) == Status(rts)
            <==> exists flags, block :: IsPacket(datagram, 3, 2, flags, block) && rts == (flags >= 0x40)
    ensures Classify(datagram) == Control(rts)
            <==> exists flags, block :: IsPacket(datagram, 1, 2, flags, block) && rts == (flags >= 0x40)
    ensures Classify(datagram) == Rejected
            <==> !exists pid, flags, block :: IsPacket(datagram, pid, 2, flags, block)
  {
    hide Fill, ValidateHeader, LegalFields;
    forall pid, flags, block | IsPacket(datagram, pid, 2, flags, block)
      ensures Classify(datagram) == Kind(pid, flags >= 0x40)
    {
      PacketIsClassified(datagram, pid, flags, block);
    }
    if Classify(datagram) != Rejected {
      ClassifiedIsPacket(datagram);
    }
  }

  function Kind(pid: byte, rts: bool): Message {
    if pid == 1 then Control(rts) else if pid == 3 then Status(rts) else Other(rts)
  }

  lemma PacketIsClassified(datagram: seq<byte>, pid: byte, flags: byte, block: u32)
    requires IsPacket(datagram, pid, 2, flags, block)
    ensures Classify(datagram) == Kind(pid, flags >= 0x40)
  {
    ghost var payload: u32 := |datagram| - HEADER_SIZE;
    FillValidates(pid, 2, flags, payload, block, |datagram|);
    FilledFields(pid, 2, flags, payload, block);
    RequestIsHighFlag(flags);
    hide Fill, ValidateHeader, LegalPacketID, LegalSource, LegalFlags, HasRTS, BlockCount;
  }

  lemma RequestIsHighFlag(flags: byte)
    requires LegalFlags(flags)
    ensures HasRTS(flags) == (flags >= 0x40)
  {
  }

  lemma FilledFields(pid: byte, src: byte, flags: byte, payload: u32, block: u32)
    ensures var h := Fill(pid, src, flags, payload, block);
      h[PACKET_ID] == pid && h[SOURCE] == src && h[FLAGS] == flags && BlockCount(h) == block
  {
    FieldsReadBack(pid, src, Lrc(Fields(pid, src, 0, flags, payload, block)), flags, payload, block);
    hide Lrc, Fields, BlockCount;
  }

  lemma ClassifiedIsPacket(datagram: seq<byte>)
    requires Classify(datagram) != Rejected
    ensures var h: header := datagram[..HEADER_SIZE];
      && IsPacket(datagram, h[PACKET_ID], 2, h[FLAGS], BlockCount(h))
      && Classify(datagram) == Kind(h[PACKET_ID], h[FLAGS] >= 0x40)
  {
    ghost var h: header := datagram[..HEADER_SIZE];
    ValidatedIsFilled(h, |datagram|);
    LengthIsPayload(h, |datagram|);
    RequestIsHighFlag(h[FLAGS]);
    hide Fill, Lrc, BlockCount, PayloadLength, HasRTS;
  }

  lemma LengthIsPayload(h: header, length: u32)
    requires ValidateHeader(h, length) && length >= HEADER_SIZE
    ensures PayloadLength(h) == length - HEADER_SIZE
  {
    hide PayloadLength, Lrc;
  }

  // --- What a peer makes of the replies ---

  /** A peer goes by the bytes it receives: flag 0x10 of an acceptable header tells it to hold off, flag 0x20 to go
      on. */
  function Hear(held: bool, h: header): bool {
    if !ValidateHeader(h, HEADER_SIZE) then held
    else if h[7] / 0x10 % 2 == 1 then true
    else if h[7] / 0x20 % 2 == 1 then false
    else held
  }

  function HearAll(held: bool, wire: seq<header>): bool
    decreases |wire|
  {
    if wire == [] then held else HearAll(Hear(held, wire[0]), wire[1..])
  }

  /** The peer that hears what is sent holds off exactly after NCTS, and goes on exactly after CTS. */
  lemma HeardAsMeant(r: Rate, m: Message, ready: bool, held: bool)
    ensures var (s, reply) := React(r, m, ready);
      HearAll(held, Wire(r, m, ready)) == if !ready || reply == Silence then held else reply == NCTS
  {
    ghost var (s, reply) := React(r, m, ready);
    hide React;
    if ready && reply != Silence {
      ReplyHeader(reply, s.blocks, held);
      hide Fill, Hear, FlagOf;
      ghost var h := Fill(PID_GW_CONTROL, SRC_GATEWAY, FlagOf(reply), 0, s.blocks);
      assert HearAll(held, [h]) == HearAll(Hear(held, h), []);
    }
  }

  lemma ReplyHeader(reply: Reply, blocks: u32, held: bool)
    requires reply != Silence
    ensures var h := Fill(PID_GW_CONTROL, SRC_GATEWAY, FlagOf(reply), 0, blocks);
      ValidateHeader(h, HEADER_SIZE) && BlockCount(h) == blocks && Hear(held, h) == (reply == NCTS)
  {
    ghost var flag := FlagOf(reply);
    FillValidates(PID_GW_CONTROL, SRC_GATEWAY, flag, 0, blocks, HEADER_SIZE);
    FilledFields(PID_GW_CONTROL, SRC_GATEWAY, flag, 0, blocks);
    hide Fill, ValidateHeader, BlockCount;
  }

  /** Every reply is a header that the other side's validator accepts. */
  lemma RepliesAreValid(r: Rate, m: Message, ready: bool)
    ensures forall h | h in Wire(r, m, ready) :: ValidateHeader(h, HEADER_SIZE)
  {
    ghost var (s, reply) := React(r, m, ready);
    hide React, Fill, ValidateHeader, Hear;
    if reply != Silence {
      ReplyHeader(reply, s.blocks, false);
    }
  }

  // --- Runs ---

  /** The peer's turn: a message, and whether the reply socket was ready for the answer. */
  datatype Turn = Turn(message: Message, ready: bool)

  function After(r: Rate, turns: seq<Turn>): Rate
    decreases |turns|
  {
    if turns == [] then r else After(React(r, turns[0].message, turns[0].ready).0, turns[1..])
  }

  /** All that goes out on the reply socket. */
  function Wires(r: Rate, turns: seq<Turn>): seq<header>
    decreases |turns|
  {
    if turns == [] then []
    else Wire(r, turns[0].message, turns[0].ready)
         + Wires(React(r, turns[0].message, turns[0].ready).0, turns[1..])
  }

  function Statuses(turns: seq<Turn>): nat {
    if turns == [] then 0 else (if turns[0].message.Status? then 1 else 0) + Statuses(turns[1..])
  }

  /** The requests that took one packet off the count: those that came while the reply socket was ready and the count
      was not zero. */
  function Taken(r: Rate, turns: seq<Turn>): nat
    decreases |turns|
  {
    if turns == [] then 0
    else
      var t := turns[0];
      (if t.message != Rejected && t.message.rts && t.ready && r.received > 0 then 1 else 0)
      + Taken(React(r, t.message, t.ready).0, turns[1..])
  }

  /** Over every run the count is that of the status packets less that of the requests taken, modulo 256. */
  lemma {:induction false} CountIsBalance(r: Rate, turns: seq<Turn>)
    ensures After(r, turns).received == Wrap8(r.received + Statuses(turns) - Taken(r, turns))
    decreases |turns|
  {
    hide React, Wrap8;
    if turns == [] {
      CountFits(r.received);
    } else {
      ghost var t := turns[0];
      ghost var s := React(r, t.message, t.ready).0;
      CountIsBalance(s, turns[1..]);
      CountStep(r, t);
      ghost var here := Statuses(turns) - Statuses(turns[1..]) - (Taken(r, turns) - Taken(s, turns[1..]));
      Wrap8Twice(r.received + here, Statuses(turns[1..]) - Taken(s, turns[1..]));
    }
  }

  lemma CountFits(received: byte)
    ensures Wrap8(received) == received
  {
  }

  lemma CountStep(r: Rate, t: Turn)
    ensures React(r, t.message, t.ready).0.received
            == Wrap8(r.received + (if t.message.Status? then 1 else 0)
                     - (if t.message != Rejected && t.message.rts && t.ready && r.received > 0 then 1 else 0))
  {
  }

  /** The NCTS that were due while the reply socket was not ready. */
  function Lost(r: Rate, turns: seq<Turn>): nat
    decreases |turns|
  {
    if turns == [] then 0
    else
      var t := turns[0];
      (if t.message.Status? && !t.ready && 10 <= r.received < 0xFF then 1 else 0)
      + Lost(React(r, t.message, t.ready).0, turns[1..])
  }

  /** Over every run the block count rises by one for each reply that is sent and for each that is lost. */
  lemma {:induction false} BlocksCountReplies(r: Rate, turns: seq<Turn>)
    ensures After(r, turns).blocks == Wrap32(r.blocks + |Wires(r, turns)| + Lost(r, turns))
    decreases |turns|
  {
    hide React, Wire, Wrap32;
    if turns == [] {
      Wrap32Small(r.blocks);
    } else {
      ghost var t := turns[0];
      ghost var s := React(r, t.message, t.ready).0;
      ghost var here := |Wire(r, t.message, t.ready)| + Lost(r, turns) - Lost(s, turns[1..]);
      BlocksStep(r, t);
      BlocksCountReplies(s, turns[1..]);
      Wrap32Twice(r.blocks + here, |Wires(s, turns[1..])| + Lost(s, turns[1..]));
    }
  }

  lemma BlocksStep(r: Rate, t: Turn)
    ensures React(r, t.message, t.ready).0.blocks
            == Wrap32(r.blocks + |Wire(r, t.message, t.ready)|
                      + (if t.message.Status? && !t.ready && 10 <= r.received < 0xFF then 1 else 0))
  {
    hide Fill, FlagOf;
  }

  /** While the reply socket is always ready, the replies carry consecutive block counts, modulo 2^32. */
  lemma {:induction false} RepliesAreNumbered(r: Rate, turns: seq<Turn>)
    requires forall t | t in turns :: t.ready
    ensures var wires := Wires(r, turns);
      && After(r, turns).blocks == Wrap32(r.blocks + |wires|)
      && forall i | 0 <= i < |wires| :: BlockCount(wires[i]) == Wrap32(r.blocks + 1 + i)
    decreases |turns|
  {
    hide React, BlockCount, Wire, Wrap32;
    if turns == [] {
      Wrap32Small(r.blocks);
    } else {
      ghost var t := turns[0];
      assert t in turns;
      ghost var s := React(r, t.message, true).0;
      ghost var here, later := Wire(r, t.message, true), Wires(s, turns[1..]);
      OneReply(r, t.message);
      RepliesAreNumbered(s, turns[1..]);
      Wrap32Twice(r.blocks + |here|, |later|);
      forall i | 0 <= i < |here + later|
        ensures BlockCount((here + later)[i]) == Wrap32(r.blocks + 1 + i)
      {
        Wrap32Twice(r.blocks + |here|, 1 + i - |here|);
      }
    }
  }

  lemma OneReply(r: Rate, m: Message)
    ensures var wire := Wire(r, m, true);
      && |wire| <= 1 && React(r, m, true).0.blocks == Wrap32(r.blocks + |wire|)
      && (|wire| == 1 ==> BlockCount(wire[0]) == Wrap32(r.blocks + 1))
  {
    ghost var (s, reply) := React(r, m, true);
    hide Fill, FlagOf, BlockCount;
    if reply != Silence {
      ReplyHeader(reply, s.blocks, false);
    }
  }

  // --- The class at work ---

  /** A datagram that arrives, and whether the reply socket is ready for the answer. */
  datatype Delivery = Delivery(datagram: seq<byte>, ready: bool)

  function TurnsOf(deliveries: seq<Delivery>): seq<Turn> {
    if deliveries == [] then []
    else [Turn(Classify(deliveries[0].datagram), deliveries[0].ready)] + TurnsOf(deliveries[1..])
  }

  function StatusPackets(deliveries: seq<Delivery>): seq<seq<byte>> {
    if deliveries == [] then []
    else (if Classify(deliveries[0].datagram).Status? then [deliveries[0].datagram] else [])
         + StatusPackets(deliveries[1..])
  }

  /** The receiver goes through any deliveries as the functions on values say. */
  method Serve(r: Receiver, deliveries: seq<Delivery>)
    requires forall d | d in deliveries :: |d.datagram| < 0x1_0000_0000
    modifies r
    ensures var turns := TurnsOf(deliveries);
      r.Count() == After(old(r.Count()), turns) && r.sent == old(r.sent) + Wires(old(r.Count()), turns)
    ensures r.forwarded == old(r.forwarded) + StatusPackets(deliveries)
    decreases |deliveries|
  {
    hide Classify, React, Wire;
    if deliveries != [] {
      ghost var sent, forwarded := r.sent, r.forwarded;
      ghost var turn := Turn(Classify(deliveries[0].datagram), deliveries[0].ready);
      ghost var here := Wire(r.Count(), turn.message, turn.ready);
      r.ProtocolInput(deliveries[0].datagram, deliveries[0].ready);
      ConcatAssociates(sent, here, Wires(r.Count(), TurnsOf(deliveries[1..])));
      ConcatAssociates(forwarded, StatusPackets(deliveries[..1]), StatusPackets(deliveries[1..]));
      FirstDelivery(deliveries);
      Serve(r, deliveries[1..]);
    }
  }

  lemma FirstDelivery(deliveries: seq<Delivery>)
    requires deliveries != []
    ensures var turn := Turn(Classify(deliveries[0].datagram), deliveries[0].ready);
      TurnsOf(deliveries)[0] == turn && TurnsOf(deliveries)[1..] == TurnsOf(deliveries[1..])
    ensures StatusPackets(deliveries[..1])
            == if Classify(deliveries[0].datagram).Status? then [deliveries[0].datagram] else []
  {
    hide Classify;
    assert deliveries[..1][1..] == [];
  }

  // --- Any peer that obeys what it hears ---

  /** A held peer sends no status packets. */
  predicate Honours(r: Rate, held: bool, turns: seq<Turn>)
    decreases |turns|
  {
    turns != [] ==>
      var t := turns[0];
      && (held ==> !t.message.Status?)
      && Honours(React(r, t.message, t.ready).0, HearAll(held, Wire(r, t.message, t.ready)), turns[1..])
  }

  /** The reply socket is ready whenever a status packet arrives at a count of ten or more. */
  predicate NoNctsLost(r: Rate, turns: seq<Turn>)
    decreases |turns|
  {
    turns != [] ==>
      var t := turns[0];
      && (t.message.Status? && r.received >= 10 ==> t.ready)
      && NoNctsLost(React(r, t.message, t.ready).0, turns[1..])
  }

  /** While no NCTS is lost, the count never passes eleven with a peer that goes by what it hears, whatever else the
      peer sends and whenever the reply path is ready. */
  lemma {:induction false} ObedientPeerIsBounded(r: Rate, held: bool, turns: seq<Turn>)
    requires Honours(r, held, turns) && NoNctsLost(r, turns)
    requires r.received <= if held then PACKETS_BEFORE_HOLD + 1 else PACKETS_BEFORE_HOLD
    ensures After(r, turns).received <= PACKETS_BEFORE_HOLD + 1
    decreases |turns|
  {
    hide Wire;
    if turns != [] {
      ghost var t := turns[0];
      HeardAsMeant(r, t.message, t.ready, held);
      hide HearAll;
      ObedientPeerIsBounded(React(r, t.message, t.ready).0, HearAll(held, Wire(r, t.message, t.ready)), turns[1..]);
    }
  }

  /** A status packet comes in at count eleven, and no request in it takes one off first. */
  predicate Overruns(r: Rate, t: Turn) {
    r.received == PACKETS_BEFORE_HOLD + 1 && t.message.Status? && !(t.message.rts && t.ready)
  }

  lemma {:induction false} AfterOneMore(r: Rate, turns: seq<Turn>, i: nat)
    requires i < |turns|
    ensures After(r, turns[..i + 1]) == React(After(r, turns[..i]), turns[i].message, turns[i].ready).0
    decreases i
  {
    if i == 0 {
      assert turns[..1][1..] == [] && turns[..0] == [];
    } else {
      assert turns[..i + 1][1..] == turns[1..][..i] && turns[..i][1..] == turns[1..][..i - 1];
      AfterOneMore(React(r, turns[0].message, turns[0].ready).0, turns[1..], i - 1);
    }
  }

  lemma {:induction false} BoundedUntilOverrun(r: Rate, turns: seq<Turn>, n: nat)
    requires r.received <= PACKETS_BEFORE_HOLD + 1 && n <= |turns|
    requires forall i | 0 <= i < n :: !Overruns(After(r, turns[..i]), turns[i])
    ensures After(r, turns[..n]).received <= PACKETS_BEFORE_HOLD + 1
    decreases n
  {
    hide After, React, Overruns;
    if n == 0 {
      AfterNone(r, turns);
    } else {
      BoundedUntilOverrun(r, turns, n - 1);
      AfterOneMore(r, turns, n - 1);
      NoOverrunStays(After(r, turns[..n - 1]), turns[n - 1]);
    }
  }

  lemma AfterNone(r: Rate, turns: seq<Turn>)
    ensures After(r, turns[..0]) == r
  {
  }

  lemma NoOverrunStays(r: Rate, t: Turn)
    requires r.received <= PACKETS_BEFORE_HOLD + 1 && !Overruns(r, t)
    ensures React(r, t.message, t.ready).0.received <= PACKETS_BEFORE_HOLD + 1
  {
  }

  lemma OverrunPassesEleven(r: Rate, t: Turn)
    requires Overruns(r, t)
    ensures React(r, t.message, t.ready).0.received > PACKETS_BEFORE_HOLD + 1
  {
  }

  /** With any peer at all and any reply path, the count passes eleven at some point of a run if and only if at some
      point of it a status packet overruns. */
  lemma CountPassesElevenExactly(r: Rate, turns: seq<Turn>)
    requires r.received <= PACKETS_BEFORE_HOLD + 1
    ensures (exists n | 0 <= n <= |turns| :: After(r, turns[..n]).received > PACKETS_BEFORE_HOLD + 1)
       <==> (exists i | 0 <= i < |turns| :: Overruns(After(r, turns[..i]), turns[i]))
  {
    hide After, React;
    if i :| 0 <= i < |turns| && Overruns(After(r, turns[..i]), turns[i]) {
      AfterOneMore(r, turns, i);
      OverrunPassesEleven(After(r, turns[..i]), turns[i]);
      assert After(r, turns[..i + 1]).received > PACKETS_BEFORE_HOLD + 1;
    } else {
      forall n | 0 <= n <= |turns|
        ensures After(r, turns[..n]).received <= PACKETS_BEFORE_HOLD + 1
      {
        BoundedUntilOverrun(r, turns, n);
      }
    }
  }

  /** Twelve status packets; the reply path fails once, when the eleventh is answered by NCTS. */
  function LosingRun(): seq<Turn> {
    seq(12, i => Turn(Status(false), i != 10))
  }

  lemma UnflaggedStatus(k: nat, blocks: u32, ready: bool)
    requires k < 12
    ensures React(Rate(k, blocks), Status(false), ready)
            == if k < 10 then (Rate(k + 1, blocks), Silence) else (Rate(k + 1, Wrap32(blocks + 1)), NCTS)
    ensures var wire := Wire(Rate(k, blocks), Status(false), ready);
      && wire == (if k >= 10 && ready then [Fill(1, 1, 0x10, 0, Wrap32(blocks + 1))] else [])
      && HearAll(false, wire) == (k >= 10 && ready)
  {
    HeardAsMeant(Rate(k, blocks), Status(false), ready, false);
    hide HearAll, Fill, Wrap32;
  }

  lemma {:induction false} LosingRunFrom(k: nat, blocks: u32)
    requires blocks <= k <= 12
    ensures var turns := LosingRun()[k..];
      && Honours(Rate(k, blocks), k == 12, turns)
      && After(Rate(k, blocks), turns).received == 12
    decreases 12 - k
  {
    hide React, Wrap32, HearAll, Wire;
    if k < 12 {
      ghost var turns := LosingRun()[k..];
      assert turns[0] == Turn(Status(false), k != 10) && turns[1..] == LosingRun()[k + 1..];
      UnflaggedStatus(k, blocks, k != 10);
      Wrap32Small(blocks + 1);
      LosingRunFrom(k + 1, if k >= 10 then blocks + 1 else blocks);
    }
  }

  /** From the start, one lost NCTS takes the count to twelve, although the peer honours every NCTS it gets. */
  lemma LostNctsBreaksTheBound()
    ensures Honours(Rate(0, 0), false, LosingRun())
    ensures After(Rate(0, 0), LosingRun()).received == 12
  {
    LosingRunFrom(0, 0);
    assert LosingRun()[0..] == LosingRun();
  }

  // --- The peer on record: status packets until NCTS, then requests until CTS ---

  const CYCLE := 2 * PACKETS_BEFORE_HOLD + 3

  /** The receiver's state, what the peer has made of the replies, and the answer to the latest message. */
  datatype Exchange = Exchange(rate: Rate, held: bool, wire: seq<header>)

  function Speak(x: Exchange): Exchange {
    var m := if x.held then Control(true) else Status(false);
    var wire := Wire(x.rate, m, true);
    Exchange(React(x.rate, m, true).0, HearAll(x.held, wire), wire)
  }

  function Speaks(x: Exchange, n: nat): Exchange {
    if n == 0 then x else Speak(Speaks(x, n - 1))
  }

  /** The exchange `k` messages into its cycle, with block count `blocks`. */
  function InCycle(k: nat, blocks: u32): Exchange
    requires k < CYCLE
  {
    Exchange(Rate(if k <= 11 then k else 22 - k, blocks), k >= 11,
             if k == 0 then [Fill(1, 1, 0x20, 0, blocks)] else if k == 11 then [Fill(1, 1, 0x10, 0, blocks)] else [])
  }

  lemma OneMessage(k: nat, blocks: u32)
    requires k < CYCLE
    ensures Speak(InCycle(k, blocks))
            == InCycle(if k == 22 then 0 else k + 1, if k == 10 || k == 22 then Wrap32(blocks + 1) else blocks)
  {
    if k < 11 {
      StatusInCycle(k, blocks);
    } else {
      RequestInCycle(k, blocks);
    }
  }

  lemma StatusInCycle(k: nat, blocks: u32)
    requires k < 11
    ensures Speak(InCycle(k, blocks)) == InCycle(k + 1, if k == 10 then Wrap32(blocks + 1) else blocks)
  {
    UnflaggedStatus(k, blocks, true);
    hide HearAll, Fill, Wrap32, React, Wire;
  }

  lemma FlaggedControl(k: nat, blocks: u32)
    requires k < 12
    ensures React(Rate(k, blocks), Control(true), true)
            == if k > 0 then (Rate(k - 1, blocks), Silence) else (Rate(0, Wrap32(blocks + 1)), CTS)
    ensures var wire := Wire(Rate(k, blocks), Control(true), true);
      && wire == (if k == 0 then [Fill(1, 1, 0x20, 0, Wrap32(blocks + 1))] else [])
      && HearAll(true, wire) == (k > 0)
  {
    HeardAsMeant(Rate(k, blocks), Control(true), true, true);
    hide HearAll, Fill, Wrap32;
  }

  lemma RequestInCycle(k: nat, blocks: u32)
    requires 11 <= k < CYCLE
    ensures Speak(InCycle(k, blocks))
            == if k == 22 then InCycle(0, Wrap32(blocks + 1)) else InCycle(k + 1, blocks)
  {
    FlaggedControl(22 - k, blocks);
    hide HearAll, Fill, Wrap32, React, Wire;
  }

  /** From a clear start: eleven status packets, NCTS, twelve requests, CTS, and again, for ever; the block count rises
      by one with each reply. */
  lemma {:induction false} ExchangeIsPeriodic(blocks: u32, n: nat)
    ensures Speaks(InCycle(0, blocks), n)
            == InCycle(n % CYCLE, Wrap32(blocks + 2 * (n / CYCLE) + (if n % CYCLE >= 11 then 1 else 0)))
  {
    hide Speak, InCycle, Wrap32;
    if n == 0 {
      NothingYet(blocks);
    } else {
      ghost var k, q := (n - 1) % CYCLE, (n - 1) / CYCLE;
      ghost var replies := 2 * q + (if k >= 11 then 1 else 0);
      ExchangeIsPeriodic(blocks, n - 1);
      Successor(n - 1);
      OneMessage(k, Wrap32(blocks + replies));
      Wrap32Twice(blocks + replies, 1);
    }
  }

  lemma NothingYet(blocks: u32)
    ensures Wrap32(blocks + 2 * (0 / CYCLE) + 0) == blocks
  {
  }

  /** The peer may also start with a request: with nothing counted it is cleared at once. */
  lemma RequestClearsAtOnce(blocks: u32, wire: seq<header>)
    ensures Speak(Exchange(Rate(0, blocks), true, wire)) == InCycle(0, Wrap32(blocks + 1))
  {
    FlaggedControl(0, blocks);
    hide HearAll, Fill, React, Wire;
  }

  lemma Successor(n: nat)
    ensures (n + 1) % CYCLE == (if n % CYCLE == CYCLE - 1 then 0 else n % CYCLE + 1)
    ensures (n + 1) / CYCLE == (if n % CYCLE == CYCLE - 1 then n / CYCLE + 1 else n / CYCLE)
  {
  }
}
