/** What a byte stream from the instrument means to the TCP receiver, independently of how it is cut into reads:
    the first acceptable header, the packet that follows it, and the fragments of that packet
    (Xiomas/xiomas_export.cc:298-430). */
module PacketStream {
  import opened Bytes
  import opened HarvardHeader
  import opened Serio

  const MAX_PACKET := 213183 + 1000  // MAX_SPKT_LENGTH + 1000
  const DOLLAR: byte := 0x24
  const BUFFER_SIZE := 50000         // RCVR_BUFSIZE

  predicate Acceptable(h: header) {
    ValidateHeader(h, PacketLength(h)) && PacketLength(h) <= MAX_PACKET
  }

  /** A header is acceptable if and only if it is what filling writes for legal fields and announces, header included
      and in 32-bit arithmetic, no more than 214183 bytes. */
  lemma AcceptableExactly(h: header)
    ensures Acceptable(h) <==>
      exists pid, src, flags, payload, block :: IsHeader(h, pid, src, flags, payload, block)
                                               && Wrap32(HEADER_SIZE + payload) <= 214183
  {
    hide Fill, ValidateHeader, LegalFields, PacketLength;
    forall pid, src, flags, payload, block | IsHeader(h, pid, src, flags, payload, block)
      ensures Acceptable(h) <==> Wrap32(HEADER_SIZE + payload) <= 214183
    {
      FillValidates(pid, src, flags, payload, block, PacketLength(h));
      FilledLength(pid, src, flags, payload, block);
    }
    if Acceptable(h) {
      ValidatedIsFilled(h, PacketLength(h));
      assert IsHeader(h, h[PACKET_ID], h[SOURCE], h[FLAGS], PayloadLength(h), BlockCount(h));
    }
  }

  predicate IsHeader(h: header, pid: byte, src: byte, flags: byte, payload: u32, block: u32) {
    LegalFields(pid, src, flags, payload) && h == Fill(pid, src, flags, payload, block)
  }

  lemma FilledLength(pid: byte, src: byte, flags: byte, payload: u32, block: u32)
    ensures PacketLength(Fill(pid, src, flags, payload, block)) == Wrap32(HEADER_SIZE + payload)
  {
    FieldsReadBack(pid, src, Lrc(Fields(pid, src, 0, flags, payload, block)), flags, payload, block);
    hide Lrc, Fields, PayloadLength;
  }

  predicate HeaderAt(s: seq<byte>, p: nat) {
    p + HEADER_SIZE <= |s| && Acceptable(s[p..p + HEADER_SIZE])
  }

  // --- The first acceptable header ---

  /** The smallest offset, not before `from`, of an acceptable header; `|s|` when there is none. */
  function FirstHeader(s: seq<byte>, from: nat): (p: nat)
    requires from <= |s|
    ensures from <= p <= |s|
    ensures p < |s| ==> HeaderAt(s, p)
    ensures forall q | from <= q < p :: !HeaderAt(s, q)
    decreases |s| - from
  {
    if from == |s| || HeaderAt(s, from) then from else FirstHeader(s, from + 1)
  }

  /** No continuation of the stream can make offset `q` an acceptable header: it does not start like one, or it is
      complete and rejected. */
  predicate Dead(s: seq<byte>, q: nat)
    requires q < |s|
  {
    s[q] != DOLLAR || (q + HEADER_SIZE <= |s| && !HeaderAt(s, q))
  }

  ghost predicate DeadUpTo(s: seq<byte>, n: nat)
    requires n <= |s|
  {
    forall q | 0 <= q < n :: Dead(s, q)
  }

  lemma DeadStaysDead(s: seq<byte>, t: seq<byte>, n: nat)
    requires n <= |s| && DeadUpTo(s, n)
    ensures DeadUpTo(s + t, n)
  {
    forall q | 0 <= q < n
      ensures Dead(s + t, q)
    {
      assert Dead(s, q);
      if q + HEADER_SIZE <= |s| {
        assert (s + t)[q..q + HEADER_SIZE] == s[q..q + HEADER_SIZE];
      }
    }
  }

  lemma HeaderStartsWithDollar(s: seq<byte>, p: nat)
    requires HeaderAt(s, p)
    ensures s[p] == DOLLAR
  {
    ghost var h: header := s[p..p + HEADER_SIZE];
    assert s[p] == h[..4][0];
  }

  lemma {:induction false} SkipDead(s: seq<byte>, n: nat, from: nat)
    requires from <= n <= |s| && DeadUpTo(s, n)
    ensures FirstHeader(s, from) == FirstHeader(s, n)
    decreases n - from
  {
    if from < n {
      assert Dead(s, from);
      if HeaderAt(s, from) {
        HeaderStartsWithDollar(s, from);
      }
      SkipDead(s, n, from + 1);
    }
  }

  // --- Fragments ---

  function FragmentSize(remaining: nat): nat {
    if remaining >= MAX_DATA then MAX_DATA else remaining
  }

  /** The complete fragments at the front of `rest`, when `remaining` bytes of the packet are still to come. */
  function Fragments(rest: seq<byte>, remaining: nat): seq<seq<byte>> {
    var n := FragmentSize(remaining);
    if n == 0 || |rest| < n then [] else [rest[..n]] + Fragments(rest[n..], remaining - n)
  }

  // --- What the receiver does about it ---

  datatype Action = Accept(length: u32) | Fragment(payload: seq<byte>) | Finish

  function FragmentActions(fs: seq<seq<byte>>): seq<Action> {
    if fs == [] then [] else [Fragment(fs[0])] + FragmentActions(fs[1..])
  }

  /** A packet is accepted with its first complete fragment and finished with its last. */
  function PacketActions(rest: seq<byte>, length: u32): seq<Action> {
    var fs := Fragments(rest, length);
    if fs == [] then []
    else [Accept(length)] + FragmentActions(fs) + (if |rest| >= length then [Finish] else [])
  }

  function LengthAt(s: seq<byte>, p: nat): u32
    requires p + HEADER_SIZE <= |s|
  {
    PacketLength(s[p..p + HEADER_SIZE])
  }

  /** Everything the receiver does on a stream. It never leaves the middle of a packet, so there is one packet. */
  function Actions(s: seq<byte>): seq<Action> {
    var p := FirstHeader(s, 0);
    if p == |s| then [] else PacketActions(s[p..], LengthAt(s, p))
  }

  // --- The actions only grow with the stream ---

  lemma HeaderStays(s: seq<byte>, t: seq<byte>, p: nat)
    requires p + HEADER_SIZE <= |s|
    ensures (s + t)[p..p + HEADER_SIZE] == s[p..p + HEADER_SIZE]
    ensures HeaderAt(s + t, p) == HeaderAt(s, p)
  {
  }

  lemma {:induction false} FirstHeaderStays(s: seq<byte>, t: seq<byte>, from: nat)
    requires from <= |s| && FirstHeader(s, from) < |s|
    ensures FirstHeader(s + t, from) == FirstHeader(s, from)
    decreases |s| - from
  {
    if from < |s| {
      HeaderStays(s, t, FirstHeader(s, from));
      if from + HEADER_SIZE <= |s| {
        HeaderStays(s, t, from);
      }
      if !HeaderAt(s, from) {
        FirstHeaderStays(s, t, from + 1);
      }
    }
  }

  lemma {:induction false} FragmentsGrow(rest: seq<byte>, t: seq<byte>, remaining: nat)
    ensures Fragments(rest, remaining) <= Fragments(rest + t, remaining)
    decreases remaining
  {
    ghost var n := FragmentSize(remaining);
    if n != 0 && |rest| >= n {
      assert (rest + t)[..n] == rest[..n];
      assert (rest + t)[n..] == rest[n..] + t;
      FragmentsGrow(rest[n..], t, remaining - n);
    }
  }

  lemma {:induction false} FragmentActionsGrow(fs: seq<seq<byte>>, gs: seq<seq<byte>>)
    ensures FragmentActions(fs + gs) == FragmentActions(fs) + FragmentActions(gs)
  {
    if fs == [] {
      assert fs + gs == gs;
    } else {
      assert (fs + gs)[1..] == fs[1..] + gs;
      FragmentActionsGrow(fs[1..], gs);
    }
  }

  /** Once all of a packet has arrived, further bytes add nothing. */
  lemma {:induction false} WholePacketIsFinal(rest: seq<byte>, t: seq<byte>, remaining: nat)
    requires |rest| >= remaining
    ensures Fragments(rest + t, remaining) == Fragments(rest, remaining)
    decreases remaining
  {
    ghost var n := FragmentSize(remaining);
    if n != 0 {
      assert (rest + t)[..n] == rest[..n];
      assert (rest + t)[n..] == rest[n..] + t;
      WholePacketIsFinal(rest[n..], t, remaining - n);
    }
  }

  lemma PacketActionsGrow(rest: seq<byte>, t: seq<byte>, length: u32)
    ensures PacketActions(rest, length) <= PacketActions(rest + t, length)
  {
    ghost var fs, gs := Fragments(rest, length), Fragments(rest + t, length);
    FragmentsGrow(rest, t, length);
    if |rest| >= length {
      WholePacketIsFinal(rest, t, length);
    } else if fs != [] {
      assert gs == fs + gs[|fs|..];
      FragmentActionsGrow(fs, gs[|fs|..]);
    }
  }

  /** What has been done on a stream is never undone or reordered by what arrives later. */
  lemma ActionsGrow(s: seq<byte>, t: seq<byte>)
    ensures Actions(s) <= Actions(s + t)
  {
    ghost var p := FirstHeader(s, 0);
    if p < |s| {
      FirstHeaderStays(s, t, 0);
      HeaderStays(s, t, p);
      assert (s + t)[p..] == s[p..] + t;
      PacketActionsGrow(s[p..], t, LengthAt(s, p));
    }
  }

  // --- A packet and its fragments ---

  function Pieces(length: nat): nat {
    (length + MAX_DATA - 1) / MAX_DATA
  }

  /** The fragments of a complete packet are its bytes, in as few pieces as possible, all of full size but the last. */
  lemma {:induction false} FragmentsOfWholePacket(rest: seq<byte>, length: nat)
    requires |rest| >= length
    ensures var fs := Fragments(rest, length);
      && Concat(fs) == rest[..length]
      && |fs| == Pieces(length)
      && (forall i | 0 <= i < |fs| - 1 :: |fs[i]| == MAX_DATA)
      && (fs != [] ==> 0 < |fs[|fs| - 1]| <= MAX_DATA)
    decreases length
  {
    ghost var n := FragmentSize(length);
    if n != 0 {
      FragmentsOfWholePacket(rest[n..], length - n);
      assert rest[..length] == rest[..n] + rest[n..][..length - n];
    }
  }

  /** In general the complete fragments are a prefix of the packet's bytes. */
  lemma {:induction false} FragmentsAreAPrefix(rest: seq<byte>, remaining: nat)
    ensures var c := Concat(Fragments(rest, remaining));
      |c| <= |rest| && |c| <= remaining && c == rest[..|c|]
    decreases remaining
  {
    ghost var n := FragmentSize(remaining);
    if n != 0 && |rest| >= n {
      FragmentsAreAPrefix(rest[n..], remaining - n);
      ghost var c := Concat(Fragments(rest[n..], remaining - n));
      assert rest[..n] + c == rest[..n + |c|];
    }
  }

  lemma {:induction false} FragmentsAreShort(rest: seq<byte>, remaining: nat)
    ensures forall f | f in Fragments(rest, remaining) :: 0 < |f| <= MAX_DATA
    decreases remaining
  {
    ghost var n := FragmentSize(remaining);
    if n != 0 && |rest| >= n {
      FragmentsAreShort(rest[n..], remaining - n);
    }
  }

  // --- Cutting a packet piece by piece ---

  /** The bytes so far are exactly some complete fragments of a packet of which `remaining` bytes are to come. */
  predicate Covered(done: seq<byte>, remaining: nat) {
    |done| <= remaining && |Concat(Fragments(done, remaining))| == |done|
  }

  lemma {:induction false} CutAfterCovered(done: seq<byte>, rest: seq<byte>, remaining: nat)
    requires Covered(done, remaining)
    ensures Fragments(done + rest, remaining) == Fragments(done, remaining) + Fragments(rest, remaining - |done|)
    decreases remaining
  {
    if done == [] {
      assert done + rest == rest;
    } else {
      CoveredFirst(done, remaining);
      ghost var n := FragmentSize(remaining);
      CutAfterCovered(done[n..], rest, remaining - n);
      CutStep(done, rest, remaining);
    }
  }

  lemma CutStep(done: seq<byte>, rest: seq<byte>, remaining: nat)
    requires var n := FragmentSize(remaining);
      && 0 < n <= |done| <= remaining
      && Fragments(done[n..] + rest, remaining - n)
         == Fragments(done[n..], remaining - n) + Fragments(rest, remaining - |done|)
    ensures Fragments(done + rest, remaining) == Fragments(done, remaining) + Fragments(rest, remaining - |done|)
  {
    ghost var n := FragmentSize(remaining);
    FirstFragment(done, remaining);
    FirstFragment(done + rest, remaining);
    hide Fragments, FragmentSize;
    assert (done + rest)[..n] == done[..n];
    assert (done + rest)[n..] == done[n..] + rest;
  }

  lemma FirstFragment(rest: seq<byte>, remaining: nat)
    requires 0 < FragmentSize(remaining) <= |rest|
    ensures var n := FragmentSize(remaining);
      Fragments(rest, remaining) == [rest[..n]] + Fragments(rest[n..], remaining - n)
  {
  }

  lemma CoveredFirst(done: seq<byte>, remaining: nat)
    requires Covered(done, remaining) && done != []
    ensures var n := FragmentSize(remaining);
      0 < n <= |done| && Covered(done[n..], remaining - n)
  {
  }

  /** One more fragment covers the bytes up to its end. */
  lemma CoverMore(done: seq<byte>, last: seq<byte>, remaining: nat)
    requires Covered(done, remaining)
    requires 0 < |last| == FragmentSize(remaining - |done|)
    ensures Covered(done + last, remaining)
    ensures Fragments(done + last, remaining) == Fragments(done, remaining) + [last]
  {
    CutAfterCovered(done, last, remaining);
    FirstFragment(last, remaining - |done|);
    assert last[..|last|] == last && last[|last|..] == [];
    assert Fragments(last, remaining - |done|) == [last];
    ConcatAppend(Fragments(done, remaining), [last]);
    assert Concat([last]) == last + Concat([]);
  }

  // --- Where the first header is, from what scanning has seen ---

  lemma ScannedAll(s: seq<byte>)
    requires DeadUpTo(s, |s|)
    ensures FirstHeader(s, 0) == |s| && Actions(s) == []
  {
    SkipDead(s, |s|, 0);
  }

  lemma {:induction false} NoRoomForHeader(s: seq<byte>, from: nat)
    requires from <= |s| < from + HEADER_SIZE
    ensures FirstHeader(s, from) == |s|
    decreases |s| - from
  {
    if from < |s| {
      NoRoomForHeader(s, from + 1);
    }
  }

  lemma ScannedToHeader(s: seq<byte>, p: nat)
    requires p < |s| && DeadUpTo(s, p) && HeaderAt(s, p)
    ensures FirstHeader(s, 0) == p
    ensures !DeadUpTo(s, |s|)
  {
    SkipDead(s, p, 0);
    HeaderStartsWithDollar(s, p);
    assert !Dead(s, p);
  }

  lemma ScannedToStart(s: seq<byte>, p: nat)
    requires p < |s| < p + HEADER_SIZE && DeadUpTo(s, p) && s[p] == DOLLAR
    ensures FirstHeader(s, 0) == |s| && Actions(s) == []
    ensures !DeadUpTo(s, |s|)
  {
    SkipDead(s, p, 0);
    NoRoomForHeader(s, p);
    assert !Dead(s, p);
  }

  // --- What one read adds ---

  /** The complete fragments in a stream. */
  function FragmentsIn(s: seq<byte>): seq<seq<byte>> {
    var p := FirstHeader(s, 0);
    if p == |s| then [] else Fragments(s[p..], LengthAt(s, p))
  }

  /** The length announced by the first acceptable header, 0 without one. */
  function LengthIn(s: seq<byte>): u32 {
    var p := FirstHeader(s, 0);
    if p == |s| then 0 else LengthAt(s, p)
  }

  /** All of the accepted packet has arrived. */
  predicate Complete(s: seq<byte>) {
    FragmentsIn(s) != [] && |s| - FirstHeader(s, 0) >= LengthIn(s)
  }

  lemma ActionsAreThese(s: seq<byte>)
    ensures Actions(s) ==
      (if FragmentsIn(s) == [] then []
       else [Accept(LengthIn(s))] + FragmentActions(FragmentsIn(s)) + (if Complete(s) then [Finish] else []))
  {
  }

  lemma FragmentsInGrow(s: seq<byte>, t: seq<byte>)
    ensures FragmentsIn(s) <= FragmentsIn(s + t)
    ensures FragmentsIn(s) != [] ==> LengthIn(s + t) == LengthIn(s)
    ensures Complete(s) ==> FragmentsIn(s + t) == FragmentsIn(s) && Complete(s + t)
  {
    ghost var p := FirstHeader(s, 0);
    if p < |s| {
      FirstHeaderStays(s, t, 0);
      HeaderStays(s, t, p);
      hide LengthAt, FirstHeader, HeaderAt;
      assert (s + t)[p..] == s[p..] + t;
      FragmentsGrow(s[p..], t, LengthAt(s, p));
      if Complete(s) {
        WholePacketIsFinal(s[p..], t, LengthAt(s, p));
      }
    }
  }

  function NewActions(s: seq<byte>, t: seq<byte>): seq<Action> {
    ActionsGrow(s, t);
    Actions(s + t)[|Actions(s)|..]
  }

  /** One read accepts, cuts and finishes, in this order and each if it is due. */
  lemma NewActionsAreThese(s: seq<byte>, t: seq<byte>)
    ensures FragmentsIn(s) <= FragmentsIn(s + t)
    ensures NewActions(s, t) ==
      (if FragmentsIn(s) == [] && FragmentsIn(s + t) != [] then [Accept(LengthIn(s + t))] else [])
      + FragmentActions(FragmentsIn(s + t)[|FragmentsIn(s)|..])
      + (if Complete(s + t) && !Complete(s) then [Finish] else [])
  {
    hide FragmentsIn, LengthIn, Complete, Actions, FragmentActions;
    FragmentsInGrow(s, t);
    ActionsAreThese(s);
    ActionsAreThese(s + t);
    CompleteHasFragments(s);
    CompleteHasFragments(s + t);
    NoFragmentActions();
    ghost var fs, gs := FragmentsIn(s), FragmentsIn(s + t);
    ghost var more, end := gs[|fs|..], if Complete(s + t) then [Finish] else [];
    assert gs == fs + more;
    FragmentActionsGrow(fs, more);
    if fs != [] && !Complete(s) {
      DropFront([Accept(LengthIn(s + t))], FragmentActions(fs), FragmentActions(more), end);
    } else if fs != [] {
      assert more == [];
    }
  }

  lemma NoFragmentActions()
    ensures FragmentActions([]) == []
  {
  }

  lemma CompleteHasFragments(s: seq<byte>)
    ensures Complete(s) ==> FragmentsIn(s) != []
  {
  }

  /** The receiver takes one packet from a connection: after its last fragment nothing is done, whatever arrives. */
  lemma OnlyOnePacket(s: seq<byte>, t: seq<byte>)
    requires Complete(s)
    ensures Actions(s + t) == Actions(s)
  {
    FragmentsInGrow(s, t);
    ActionsAreThese(s);
    ActionsAreThese(s + t);
  }

  // --- What is left in the input buffer ---

  /** The first acceptable header is there, but not all of its first fragment. */
  predicate HeaderWaits(s: seq<byte>) {
    FirstHeader(s, 0) < |s| && Actions(s) == []
  }

  /** Fewer than `limit` bytes stay in the buffer when a call was offered `offered` bytes, the last of stream `s`: a
      header that waits keeps all of them there, and so do any bytes behind a complete packet. */
  predicate LeavesLess(s: seq<byte>, offered: nat, limit: nat) {
    && (Complete(s) ==> |s| - FirstHeader(s, 0) - LengthIn(s) < limit)
    && (HeaderWaits(s) ==> offered < limit)
  }

  /** One read can fill the buffer with bytes that stay: no '$' but in the header at the end. There is no room then for
      the fragment the header waits for. */
  lemma FullBufferWaits(junk: seq<byte>, block: u32)
    requires |junk| == BUFFER_SIZE - HEADER_SIZE && DOLLAR !in junk
    ensures var s := junk + Fill(PID_FIRE_LAYER, SRC_OPU, 0, 200000, block);
      && |s| == BUFFER_SIZE
      && FirstHeader(s, 0) == |junk| && LengthIn(s) == 200016
      && !LeavesLess(s, |s|, BUFFER_SIZE)
  {
    ghost var h := Fill(PID_FIRE_LAYER, SRC_OPU, 0, 200000, block);
    LongHeader(block);
    HeaderBehindJunk(junk, h, []);
    assert junk + h + [] == junk + h;
  }

  lemma LongHeader(block: u32)
    ensures var h := Fill(PID_FIRE_LAYER, SRC_OPU, 0, 200000, block);
      Acceptable(h) && PacketLength(h) == 200016
  {
    hide Fill, Lrc, PacketLength;
    FillValidates(PID_FIRE_LAYER, SRC_OPU, 0, 200000, block, 200016);
  }

  lemma HeaderBehindJunk(junk: seq<byte>, h: header, t: seq<byte>)
    requires DOLLAR !in junk && Acceptable(h)
    requires HEADER_SIZE + |t| < FragmentSize(PacketLength(h))
    ensures var s := junk + h + t;
      && DeadUpTo(s, |junk|) && HeaderAt(s, |junk|)
      && FirstHeader(s, 0) == |junk| && LengthIn(s) == PacketLength(h)
      && Actions(s) == []
      && HeaderWaits(s)
  {
    ghost var s := junk + h + t;
    hide Acceptable, PacketLength;
    assert s[|junk|..|junk| + HEADER_SIZE] == h;
    assert HeaderAt(s, |junk|);
    forall q | 0 <= q < |junk|
      ensures Dead(s, q)
    {
      assert s[q] == junk[q];
    }
    ScannedToHeader(s, |junk|);
    assert |s[|junk|..]| == HEADER_SIZE + |t|;
  }

  /** Behind a complete packet everything stays. */
  lemma NothingTakenAfterPacket(s: seq<byte>, t: seq<byte>, offered: nat, limit: nat)
    requires Complete(s) && |t| >= limit
    ensures !LeavesLess(s + t, offered, limit)
  {
    FragmentsInGrow(s, t);
    FirstHeaderStays(s, t, 0);
  }

  // --- Bytes passed over ---

  /** How many of the bytes are not '$'. */
  function Plain(s: seq<byte>): nat {
    if s == [] then 0 else Plain(s[..|s| - 1]) + (if s[|s| - 1] != DOLLAR then 1 else 0)
  }

  lemma {:induction false} PlainAppend(a: seq<byte>, b: seq<byte>)
    ensures Plain(a + b) == Plain(a) + Plain(b)
    decreases |b|
  {
    if b == [] {
      assert a + b == a;
    } else {
      assert (a + b)[..|a + b| - 1] == a + b[..|b| - 1];
      PlainAppend(a, b[..|b| - 1]);
    }
  }

  lemma {:induction false} PlainIsPart(s: seq<byte>)
    ensures Plain(s) <= |s|
    decreases |s|
  {
    if s != [] {
      PlainIsPart(s[..|s| - 1]);
    }
  }

  lemma {:induction false} PlainThroughout(s: seq<byte>)
    requires DOLLAR !in s
    ensures Plain(s) == |s|
    decreases |s|
  {
    if s != [] {
      PlainThroughout(s[..|s| - 1]);
    }
  }

  /** What the count gains from `from` on to `to`. */
  lemma PlainTo(s: seq<byte>, from: nat, to: nat)
    requires from <= to <= |s|
    ensures Plain(s[..to]) == Plain(s[..from]) + Plain(s[from..to])
  {
    assert s[..to] == s[..from] + s[from..to];
    PlainAppend(s[..from], s[from..to]);
  }

  // --- Headers that announce no bytes at all ---

  /** With enough of the stream at hand, the first acceptable header is acted on exactly when its length is not zero. */
  lemma ActedOnUnlessEmpty(s: seq<byte>)
    requires FirstHeader(s, 0) < |s| && |s| - FirstHeader(s, 0) >= MAX_DATA
    ensures Actions(s) != [] <==> LengthIn(s) != 0
  {
  }

  /** The packet length wraps to zero for a payload of 2^32 - 16 bytes, so an acceptable header can announce
      no bytes. */
  lemma EmptyHeaderIsAcceptable(block: u32)
    ensures var h := Fill(PID_FIRE_LAYER, SRC_OPU, 0, 0xFFFF_FFF0, block);
      Acceptable(h) && PacketLength(h) == 0
  {
    hide Fill, Lrc, PacketLength;
    FillValidates(PID_FIRE_LAYER, SRC_OPU, 0, 0xFFFF_FFF0, block, 0);
  }

  /** Such a header stops the receiver for good, whatever follows it. */
  lemma EmptyHeaderStops(h: header, t: seq<byte>)
    requires Acceptable(h) && PacketLength(h) == 0
    ensures Actions(h + t) == []
  {
    hide Acceptable;
    assert (h + t)[0..HEADER_SIZE] == h;
    assert HeaderAt(h + t, 0);
  }
}
