/** How far the TCP receiver has got in its stream: the invariant of its parsing loop, and what each turn of the loop
    does to it (Xiomas/xiomas_export.cc:298-430). */
module ReceiverProgress {
  import opened Bytes
  import opened HarvardHeader
  import opened PacketStream
  import opened Serio

  datatype Phase = Idle | MidPacket | Lost

  /** `pos` is the parse position in the whole stream; `at` the accepted header's; `remaining` what is still to come of
      the packet; `emitted` the fragments among the actions. */
  datatype Progress = Progress(
    stream: seq<byte>, pos: nat, phase: Phase, remaining: nat,
    at: nat, emitted: seq<seq<byte>>, actions: seq<Action>)

  /** Before a packet is accepted: nothing that was passed over could have begun one. In the idle phase the position
      is at a '$' or at a complete header. */
  ghost predicate Scanning(g: Progress) {
    && g.pos <= |g.stream|
    && DeadUpTo(g.stream, g.pos)
    && g.actions == []
    && (g.phase == Idle ==>
          g.pos < |g.stream| && (g.stream[g.pos] == DOLLAR || g.pos + HEADER_SIZE <= |g.stream|))
  }

  /** In the accepted packet: the fragments cut so far are its bytes up to the position. */
  ghost predicate InPacket(g: Progress) {
    && g.at <= g.pos <= |g.stream|
    && g.at + HEADER_SIZE <= |g.stream|
    && FirstHeader(g.stream, 0) == g.at
    && var length := LengthAt(g.stream, g.at);
    && g.remaining == length - (g.pos - g.at)
    && Covered(g.stream[g.at..g.pos], length)
    && g.emitted == Fragments(g.stream[g.at..g.pos], length)
    && g.actions == [Accept(length)] + FragmentActions(g.emitted)
                    + (if g.emitted != [] && g.remaining == 0 then [Finish] else [])
  }

  ghost predicate Working(g: Progress) {
    if g.phase == MidPacket then InPacket(g) && g.emitted != [] else Scanning(g)
  }

  /** Nothing more can be done until more bytes arrive. In the idle phase the position is at the start of a possible
      header, at an accepted one whose first fragment is incomplete, or at one that announces a length of zero. */
  ghost predicate Settled(g: Progress) {
    && Working(g)
    && match g.phase
       case Lost => g.pos == |g.stream|
       case Idle =>
         || (g.stream[g.pos] == DOLLAR && |g.stream| < g.pos + HEADER_SIZE)
         || (HeaderAt(g.stream, g.pos) && Fragments(g.stream[g.pos..], LengthAt(g.stream, g.pos)) == [])
       case MidPacket => Fragments(g.stream[g.pos..], g.remaining) == []
  }

  function PhaseOf(s: seq<byte>): Phase {
    if Actions(s) != [] then MidPacket
    else if forall q | 0 <= q < |s| :: Dead(s, q) then Lost
    else Idle
  }

  /** A settled receiver has done all that its stream asks for, and its phase depends on the stream alone. */
  lemma SettledIsComplete(g: Progress)
    requires Settled(g)
    ensures g.actions == Actions(g.stream)
    ensures g.phase == PhaseOf(g.stream)
  {
    match g.phase
    case Lost => ScannedAll(g.stream);
    case Idle =>
      if HeaderAt(g.stream, g.pos) {
        ScannedToHeader(g.stream, g.pos);
      } else {
        ScannedToStart(g.stream, g.pos);
      }
    case MidPacket => SettledInPacket(g);
  }

  lemma SettledInPacket(g: Progress)
    requires g.phase == MidPacket && Settled(g)
    ensures g.actions == Actions(g.stream) && g.actions != []
  {
    ghost var length := LengthAt(g.stream, g.at);
    ghost var done, rest := g.stream[g.at..g.pos], g.stream[g.pos..];
    hide LengthAt, Covered, FirstHeader, FragmentActions;
    CutAfterCovered(done, rest, length);
    assert g.stream[g.at..] == done + rest;
    assert Fragments(done + rest, length) == g.emitted;
    assert |rest| >= g.remaining <==> g.remaining == 0;
  }

  /** Where a settled receiver stands depends on the stream alone: two of them that have received the same bytes, cut
      into whatever reads, agree on position and phase, and in a packet on all the rest. */
  lemma SettledAgree(g: Progress, h: Progress)
    requires Settled(g) && Settled(h) && g.stream == h.stream
    ensures g.pos == h.pos && g.phase == h.phase && g.actions == h.actions
    ensures g.phase == MidPacket ==> g == h
  {
    SettledIsComplete(g);
    SettledIsComplete(h);
    match g.phase {
      case Lost =>
      case Idle =>
        IdlePosition(g);
        IdlePosition(h);
      case MidPacket =>
        MidPacketPosition(g);
        MidPacketPosition(h);
        hide Settled, FirstHeader, LengthAt, Covered, Fragments;
    }
  }

  /** The only offset that is not dead yet and has only dead ones before it. */
  lemma IdlePosition(g: Progress)
    requires Settled(g) && g.phase == Idle
    ensures g.pos < |g.stream| && DeadUpTo(g.stream, g.pos) && !Dead(g.stream, g.pos)
  {
    if HeaderAt(g.stream, g.pos) {
      HeaderStartsWithDollar(g.stream, g.pos);
    }
  }

  /** Behind the last complete fragment. */
  lemma MidPacketPosition(g: Progress)
    requires Settled(g) && g.phase == MidPacket
    ensures var length := LengthIn(g.stream);
      && FirstHeader(g.stream, 0) == g.at < |g.stream|
      && g.emitted == FragmentsIn(g.stream)
      && g.pos == g.at + |Concat(FragmentsIn(g.stream))|
      && g.remaining == length - |Concat(FragmentsIn(g.stream))|
  {
    ghost var length := LengthAt(g.stream, g.at);
    ghost var done, rest := g.stream[g.at..g.pos], g.stream[g.pos..];
    hide LengthAt, FirstHeader, Fragments, FragmentActions;
    CutAfterCovered(done, rest, length);
    assert g.stream[g.at..] == done + rest;
    assert g.emitted + [] == g.emitted;
  }

  // --- The turns of the loop ---

  /** More bytes arrive. */
  lemma Grow(g: Progress, t: seq<byte>)
    requires Working(g)
    ensures Working(g.(stream := g.stream + t))
  {
    if g.phase == MidPacket {
      FirstHeaderStays(g.stream, t, 0);
      HeaderStays(g.stream, t, g.at);
      assert (g.stream + t)[g.at..g.pos] == g.stream[g.at..g.pos];
    } else {
      DeadStaysDead(g.stream, t, g.pos);
    }
  }

  /** Bytes that are not '$' are passed over. */
  lemma PassOver(g: Progress, pos: nat)
    requires g.phase == Lost && Working(g) && g.pos <= pos <= |g.stream|
    requires forall q | g.pos <= q < pos :: g.stream[q] != DOLLAR
    ensures Working(g.(pos := pos))
    ensures pos < |g.stream| && g.stream[pos] == DOLLAR ==> Working(g.(pos := pos, phase := Idle))
  {
    forall q | 0 <= q < pos
      ensures Dead(g.stream, q)
    {
    }
  }

  /** A complete header that is not acceptable is passed over by one byte. */
  lemma Reject(g: Progress)
    requires g.phase == Idle && Working(g)
    requires g.pos + HEADER_SIZE <= |g.stream| && !HeaderAt(g.stream, g.pos)
    ensures Working(g.(pos := g.pos + 1, phase := Lost))
  {
    forall q | 0 <= q < g.pos + 1
      ensures Dead(g.stream, q)
    {
    }
  }

  /** The packet starts here. */
  lemma Begin(g: Progress)
    requires g.phase == Idle && Working(g) && HeaderAt(g.stream, g.pos)
    ensures g.actions == []
    ensures var length := LengthAt(g.stream, g.pos);
      InPacket(g.(phase := MidPacket, at := g.pos, remaining := length, emitted := [], actions := [Accept(length)]))
  {
    ScannedToHeader(g.stream, g.pos);
    assert g.stream[g.pos..g.pos] == [];
  }

  function Ends(remaining: nat): seq<Action> {
    if remaining == 0 then [Finish] else []
  }

  /** One fragment is cut off. */
  lemma Cut(g: Progress, n: nat)
    requires InPacket(g) && 0 < n == FragmentSize(g.remaining) && g.pos + n <= |g.stream|
    ensures var payload := g.stream[g.pos..g.pos + n];
      var h := g.(pos := g.pos + n, phase := MidPacket, remaining := g.remaining - n, emitted := g.emitted + [payload],
                  actions := g.actions + [Fragment(payload)] + Ends(g.remaining - n));
      Working(h)
  {
    hide LengthAt, Covered, FirstHeader, Fragments;
    ghost var done, payload := g.stream[g.at..g.pos], g.stream[g.pos..g.pos + n];
    CoverMore(done, payload, LengthAt(g.stream, g.at));
    assert g.stream[g.at..g.pos + n] == done + payload;
    FragmentActionsGrow(g.emitted, [payload]);
    assert FragmentActions([payload]) == [Fragment(payload)] + FragmentActions([]);
  }

  // --- Where the loop stops ---

  lemma HeaderFound(s: seq<byte>, p: nat)
    requires p + HEADER_SIZE <= |s|
    ensures var h: header := s[p..p + HEADER_SIZE];
      && LengthAt(s, p) == PacketLength(h)
      && (HeaderAt(s, p) <==> ValidateHeader(h, PacketLength(h)) && PacketLength(h) <= MAX_PACKET)
  {
  }

  lemma WaitForHeader(g: Progress)
    requires g.phase == Idle && Working(g) && |g.stream| < g.pos + HEADER_SIZE
    ensures Settled(g)
  {
  }

  lemma WaitForFragment(g: Progress)
    requires Working(g)
    requires g.phase == MidPacket || (g.phase == Idle && HeaderAt(g.stream, g.pos))
    requires Fragments(g.stream[g.pos..], if g.phase == Idle then LengthAt(g.stream, g.pos) else g.remaining) == []
    ensures Settled(g)
  {
  }

  lemma EndOfBuffer(g: Progress)
    requires Working(g) && g.pos == |g.stream|
    ensures Settled(g) && g.phase != Idle
  {
  }

  lemma Continue(g: Progress)
    requires Working(g) && g.phase == MidPacket
    ensures InPacket(g)
  {
  }

  /** The receiver that returned without dropping what it had passed over starts again from there. */
  lemma Rewind(g: Progress, pos: nat)
    requires Settled(g) && pos <= g.pos
    requires pos < g.pos ==> g.phase == Idle && HeaderAt(g.stream, g.pos)
    ensures Working(g.(pos := pos))
  {
  }

  /** What a call leaves in the buffer, exactly: `kept` of `offered` bytes. A header that waits keeps them all,
      otherwise the bytes up to the position are dropped. */
  lemma LeftoverExactly(g: Progress, kept: nat, offered: nat, limit: nat)
    requires Settled(g) && limit >= MAX_DATA
    requires kept == if g.phase == Idle && HeaderAt(g.stream, g.pos) then offered else |g.stream| - g.pos
    ensures kept < limit <==> LeavesLess(g.stream, offered, limit)
  {
    SettledIsComplete(g);
    match g.phase
    case Lost => ScannedAll(g.stream);
    case Idle =>
      hide LengthAt, Fragments;
      if HeaderAt(g.stream, g.pos) {
        ScannedToHeader(g.stream, g.pos);
      } else {
        ScannedToStart(g.stream, g.pos);
      }
    case MidPacket =>
      MidPacketPosition(g);
      RestIsShort(g);
      hide Settled, FragmentsIn, FirstHeader, LengthIn, Actions;
  }

  lemma RestIsShort(g: Progress)
    requires Settled(g) && g.phase == MidPacket
    ensures FragmentsIn(g.stream) != []
    ensures g.remaining == 0 || |g.stream| - g.pos < FragmentSize(g.remaining)
  {
    MidPacketPosition(g);
    hide FragmentsIn, LengthIn, LengthAt, FirstHeader, Covered;
  }

  /** Beyond the position less than a fragment is left, except behind a complete packet or at a header that announces
      a length of zero. */
  lemma LittleIsLeft(g: Progress)
    requires Settled(g)
    ensures |g.stream| - g.pos < MAX_DATA <==>
      && (Complete(g.stream) ==> |g.stream| - FirstHeader(g.stream, 0) - LengthIn(g.stream) < MAX_DATA)
      && (HeaderWaits(g.stream) && LengthIn(g.stream) == 0 ==> |g.stream| - FirstHeader(g.stream, 0) < MAX_DATA)
  {
    SettledIsComplete(g);
    match g.phase
    case Lost => ScannedAll(g.stream);
    case Idle =>
      if HeaderAt(g.stream, g.pos) {
        ScannedToHeader(g.stream, g.pos);
        hide LengthAt, HeaderAt;
      } else {
        ScannedToStart(g.stream, g.pos);
      }
    case MidPacket =>
      MidPacketPosition(g);
      RestIsShort(g);
      hide Settled, FragmentsIn, FirstHeader, LengthIn, Actions;
  }

  /** A receiver that has read bytes without '$' and then part of a packet stands at the packet's header. */
  lemma StandsBehindJunk(g: Progress, junk: seq<byte>, h: header, t: seq<byte>)
    requires Settled(g) && g.stream == junk + h + t
    requires DOLLAR !in junk && Acceptable(h)
    requires HEADER_SIZE + |t| < FragmentSize(PacketLength(h))
    ensures g.phase == Idle && g.pos == |junk| && HeaderAt(g.stream, g.pos)
  {
    HeaderBehindJunk(junk, h, t);
    SettledIsComplete(g);
    ScannedToHeader(g.stream, |junk|);
    IdlePosition(g);
    hide Acceptable, PacketLength, FirstHeader;
    HeaderStartsWithDollar(g.stream, |junk|);
    assert !Dead(g.stream, |junk|);
  }

  // --- The count of discarded bytes ---

  /** The bytes other than '$' before the position. A receiver in the idle phase has already done with the byte it
      stands on, if that is not a '$'. */
  function PassedPlain(g: Progress): nat
    requires g.pos <= |g.stream|
  {
    Plain(g.stream[..g.pos]) + (if g.phase == Idle && g.pos < |g.stream| && g.stream[g.pos] != DOLLAR then 1 else 0)
  }

  lemma CountPassOver(g: Progress, h: Progress)
    requires g.phase == Lost && g.pos <= h.pos <= |g.stream| && h == g.(pos := h.pos, phase := h.phase)
    requires forall q | g.pos <= q < h.pos :: g.stream[q] != DOLLAR
    requires h.phase == Lost || (h.phase == Idle && h.pos < |g.stream| && g.stream[h.pos] == DOLLAR)
    ensures PassedPlain(h) == PassedPlain(g) + h.pos - g.pos
  {
    PlainTo(g.stream, g.pos, h.pos);
    PlainThroughout(g.stream[g.pos..h.pos]);
  }

  lemma CountReject(g: Progress)
    requires g.phase == Idle && g.pos < |g.stream|
    ensures PassedPlain(g.(pos := g.pos + 1, phase := Lost)) == PassedPlain(g)
  {
    assert g.stream[..g.pos + 1][..g.pos] == g.stream[..g.pos];
  }

  /** What scanning the same bytes again will add to the count: all that are not '$', but for the first byte. */
  function Recount(held: seq<byte>): nat {
    if held == [] then 0 else Plain(held[1..])
  }

  lemma CountRewind(g: Progress, pos: nat, t: seq<byte>)
    requires Settled(g) && pos <= g.pos && g.phase != MidPacket
    requires pos < g.pos ==> g.phase == Idle && HeaderAt(g.stream, g.pos)
    ensures PassedPlain(g.(pos := pos, stream := g.stream + t)) + Recount(g.stream[pos..g.pos]) == PassedPlain(g)
  {
    if HeaderAt(g.stream, g.pos) {
      HeaderStartsWithDollar(g.stream, g.pos);
    }
    hide HeaderAt, Fragments, LengthAt;
    assert (g.stream + t)[..pos] == g.stream[..pos];
    if pos < g.pos {
      ghost var held := g.stream[pos..g.pos];
      PlainTo(g.stream, pos, g.pos);
      assert held == [held[0]] + held[1..];
      PlainAppend([held[0]], held[1..]);
      assert Plain([held[0]]) == (if held[0] != DOLLAR then 1 else 0) by { assert [held[0]][..0] == []; }
    }
  }

  /** Every '$' passed over is a candidate that was turned down, a complete header that is not acceptable; together with
      the bytes that are not '$' they make up all that was passed over. */
  lemma PassedIsPlainAndTurnedDown(g: Progress)
    requires Settled(g) && g.phase != MidPacket
    ensures PassedPlain(g) == Plain(g.stream[..g.pos]) <= g.pos
    ensures forall q | 0 <= q < g.pos && g.stream[q] == DOLLAR ::
      q + HEADER_SIZE <= |g.stream| && !HeaderAt(g.stream, q)
  {
    forall q | 0 <= q < g.pos && g.stream[q] == DOLLAR
      ensures q + HEADER_SIZE <= |g.stream| && !HeaderAt(g.stream, q)
    {
      assert Dead(g.stream, q);
    }
    if HeaderAt(g.stream, g.pos) {
      HeaderStartsWithDollar(g.stream, g.pos);
    }
    hide HeaderAt, Fragments, LengthAt;
    PlainIsPart(g.stream[..g.pos]);
  }
}
