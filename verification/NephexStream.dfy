/** How the Nephex receiver frames its stream: two sync bytes, a header with a 16-bit length, and the rest of the packet
    (Nephex/nephex_export.cc:192-247). */
module NephexStream {
  import opened Bytes

  const SYNC: byte := 0xAA
  const HEADER := 8          // sync, primary header up to and including the length
  const BUFFER_SIZE := 50000 // RCVR_BUFSIZE

  predicate SyncAt(s: seq<byte>, i: nat) {
    i + 1 < |s| && s[i] == SYNC && s[i + 1] == SYNC
  }

  /** `Len + 9` for the packet at the front. */
  function FrameSize(s: seq<byte>): (n: nat)
    requires |s| >= HEADER
    ensures n >= 9
  {
    var lo: int, hi: int := s[6], s[7];
    lo + 0x100 * hi + 9
  }

  /** The packet at the front, which starts with a sync, has not arrived completely. */
  predicate Incomplete(s: seq<byte>) {
    |s| < HEADER || |s| < FrameSize(s)
  }

  /** The packets in a stream. */
  function Frames(s: seq<byte>): seq<seq<byte>> {
    if |s| < 2 then []
    else if !SyncAt(s, 0) then Frames(s[1..])
    else if Incomplete(s) then []
    else [s[..FrameSize(s)]] + Frames(s[FrameSize(s)..])
  }

  /** What must be kept of a stream: the beginning of a packet, or of a sync, at its end. */
  function Rest(s: seq<byte>): seq<byte> {
    if s == [] then []
    else if |s| == 1 then (if s[0] == SYNC then s else [])
    else if !SyncAt(s, 0) then Rest(s[1..])
    else if Incomplete(s) then s
    else Rest(s[FrameSize(s)..])
  }

  /** Keeping the rest is enough: framing can go on from there as if it had seen the whole stream. */
  lemma {:induction false} FramingResumes(s: seq<byte>, t: seq<byte>)
    ensures Frames(s + t) == Frames(s) + Frames(Rest(s) + t)
    ensures Rest(s + t) == Rest(Rest(s) + t)
    decreases |s|
  {
    if |s| < 2 {
      AlmostNothing(s, t);
    } else if !SyncAt(s, 0) {
      assert (s + t)[1..] == s[1..] + t;
      FramingResumes(s[1..], t);
    } else if !Incomplete(s) {
      FramingResumes(s[FrameSize(s)..], t);
      OneFrame(s, t);
      hide Frames, Rest, FrameSize;
      ConcatAssociates([s[..FrameSize(s)]], Frames(s[FrameSize(s)..]), Frames(Rest(s) + t));
    }
  }

  lemma AlmostNothing(s: seq<byte>, t: seq<byte>)
    requires |s| < 2
    ensures Frames(s + t) == Frames(s) + Frames(Rest(s) + t)
    ensures Rest(s + t) == Rest(Rest(s) + t)
  {
    assert s == [] ==> s + t == t;
    assert s != [] ==> (s + t)[1..] == t;
    assert [] + t == t;
  }

  lemma OneFrame(s: seq<byte>, t: seq<byte>)
    requires SyncAt(s, 0) && !Incomplete(s)
    ensures var n := FrameSize(s);
      && Frames(s) == [s[..n]] + Frames(s[n..]) && Rest(s) == Rest(s[n..])
      && Frames(s + t) == [s[..n]] + Frames(s[n..] + t) && Rest(s + t) == Rest(s[n..] + t)
  {
    ghost var n := FrameSize(s);
    assert (s + t)[..n] == s[..n];
    assert (s + t)[n..] == s[n..] + t;
    FrontFrame(s);
    FrontFrame(s + t);
    hide Frames, Rest;
  }

  lemma FrontFrame(s: seq<byte>)
    requires SyncAt(s, 0) && !Incomplete(s)
    ensures var n := FrameSize(s);
      Frames(s) == [s[..n]] + Frames(s[n..]) && Rest(s) == Rest(s[n..])
  {
  }

  /** What is kept is nothing, half a sync, or a sync and less than its packet. */
  lemma {:induction false} RestIsABeginning(s: seq<byte>)
    ensures var r := Rest(s);
      && Frames(r) == []
      && Rest(r) == r
      && (|r| <= 1 || (SyncAt(r, 0) && Incomplete(r)))
    decreases |s|
  {
    if |s| >= 2 {
      if !SyncAt(s, 0) {
        RestIsABeginning(s[1..]);
      } else if !Incomplete(s) {
        RestIsABeginning(s[FrameSize(s)..]);
      }
    }
  }

  /** The input buffer is never full between calls, unless it holds the start of a packet larger than itself. */
  lemma RoomForMore(s: seq<byte>)
    ensures var r := Rest(s);
      |r| < BUFFER_SIZE || (SyncAt(r, 0) && FrameSize(r) > BUFFER_SIZE)
  {
    RestIsABeginning(s);
  }

  // --- Turns of the framing loop ---

  lemma {:induction false} SkipToSync(s: seq<byte>, k: nat)
    requires k <= |s| && forall i | 0 <= i < k :: s[i] != SYNC
    ensures Frames(s) == Frames(s[k..]) && Rest(s) == Rest(s[k..])
    decreases k
  {
    if k > 0 {
      assert s[1..][k - 1..] == s[k..];
      SkipToSync(s[1..], k - 1);
      if |s| == 1 {
        assert s[k..] == [];
      }
    }
  }

  lemma {:induction false} FramesFit(s: seq<byte>)
    ensures forall f | f in Frames(s) :: HEADER < |f| <= |s|
    decreases |s|
  {
    if |s| >= 2 {
      if !SyncAt(s, 0) {
        FramesFit(s[1..]);
      } else if !Incomplete(s) {
        FramesFit(s[FrameSize(s)..]);
      }
    }
  }

  // --- Round trip ---

  predicate WellFormed(p: seq<byte>) {
    |p| >= HEADER && SyncAt(p, 0) && |p| == FrameSize(p)
  }

  /** Nothing in the gap is taken for a sync, not even its last byte with the first of the packet behind it. */
  ghost predicate Clean(gap: seq<byte>) {
    forall i | 0 <= i < |gap| :: !SyncAt(gap + [SYNC], i)
  }

  lemma {:induction false} GapIsSkipped(gap: seq<byte>, s: seq<byte>)
    requires Clean(gap) && SyncAt(s, 0)
    ensures Frames(gap + s) == Frames(s)
    decreases |gap|
  {
    if gap == [] {
      assert gap + s == s;
    } else {
      assert !SyncAt(gap + [SYNC], 0);
      assert (gap + s)[1..] == gap[1..] + s;
      forall i | 0 <= i < |gap[1..]|
        ensures !SyncAt(gap[1..] + [SYNC], i)
      {
        assert !SyncAt(gap + [SYNC], i + 1);
      }
      GapIsSkipped(gap[1..], s);
    }
  }

  /** The smallest offset of a sync; `|s|` when there is none. */
  function FirstSync(s: seq<byte>): (at: nat)
    ensures at <= |s|
    ensures at < |s| ==> SyncAt(s, at)
    ensures forall i | 0 <= i < at :: !SyncAt(s, i)
  {
    if s == [] || SyncAt(s, 0) then 0
    else
      var at := FirstSync(s[1..]);
      assert forall i | 0 < i < |s| :: SyncAt(s, i) == SyncAt(s[1..], i - 1);
      1 + at
  }

  lemma {:induction false} FramingStartsAtFirstSync(s: seq<byte>)
    ensures Frames(s) == Frames(s[FirstSync(s)..])
    decreases |s|
  {
    if s != [] && !SyncAt(s, 0) {
      FramingStartsAtFirstSync(s[1..]);
      assert s[1..][FirstSync(s[1..])..] == s[FirstSync(s)..];
    } else {
      assert s[0..] == s;
    }
  }

  /** A packet behind a gap is where framing starts if and only if the gap is clean. From any other gap the first frame
      starts inside the gap. */
  lemma FramingStartsBehindCleanGap(gap: seq<byte>, p: seq<byte>, more: seq<byte>)
    requires WellFormed(p)
    ensures var s := gap + p + more;
      && (FirstSync(s) == |gap| <==> Clean(gap))
      && Frames(s) == Frames(s[FirstSync(s)..])
      && (Clean(gap) ==> Frames(s) == [p] + Frames(more))
      && (!Clean(gap) ==> FirstSync(s) < |gap|)
      && (!Clean(gap) && Frames(s) != [] ==>
            var rest := s[FirstSync(s)..];
            |rest| >= HEADER && Frames(s)[0] == rest[..FrameSize(rest)])
  {
    ghost var s := gap + p + more;
    SyncsOfGap(gap, p + more);
    assert s == gap + (p + more);
    FramingStartsAtFirstSync(s);
    if Clean(gap) {
      assert s[|gap|..] == p + more;
      assert (p + more)[..|p|] == p && (p + more)[|p|..] == more;
    } else {
      ghost var i :| 0 <= i < |gap| && SyncAt(gap + [SYNC], i);
      assert SyncAt(s, i);
      if Frames(s) != [] {
        FirstFrameIsAtTheFront(s[FirstSync(s)..]);
      }
    }
  }

  lemma SyncsOfGap(gap: seq<byte>, s: seq<byte>)
    requires SyncAt(s, 0)
    ensures forall i | 0 <= i < |gap| :: SyncAt(gap + s, i) == SyncAt(gap + [SYNC], i)
    ensures SyncAt(gap + s, |gap|)
  {
  }

  lemma FirstFrameIsAtTheFront(s: seq<byte>)
    requires SyncAt(s, 0) && Frames(s) != []
    ensures |s| >= HEADER && Frames(s)[0] == s[..FrameSize(s)]
  {
  }

  lemma {:induction false} LastGapIsSkipped(gap: seq<byte>)
    requires forall i | 0 <= i < |gap| :: !SyncAt(gap, i)
    ensures Frames(gap) == []
    decreases |gap|
  {
    if |gap| >= 2 {
      assert !SyncAt(gap, 0);
      forall i | 0 <= i < |gap[1..]|
        ensures !SyncAt(gap[1..], i)
      {
        assert !SyncAt(gap, i + 1);
      }
      LastGapIsSkipped(gap[1..]);
    }
  }

  /** A gap, then what an instrument puts into a packet. */
  datatype Piece = Piece(gap: seq<byte>, word: u16, sequence: u16, data: seq<byte>)

  predicate Sendable(data: seq<byte>) {
    1 <= |data| <= 0x1_0000
  }

  /** A packet as an instrument writes it: two sync bytes, then little-endian the type word, the sequence word and the
      length word, which is one less than the number of bytes behind it. */
  function Build(word: u16, sequence: u16, data: seq<byte>): seq<byte>
    requires Sendable(data)
  {
    var n := |data| - 1;
    [0xAA, 0xAA, word % 0x100, word / 0x100, sequence % 0x100, sequence / 0x100, n % 0x100, n / 0x100] + data
  }

  /** What framing takes for a packet is what an instrument can write, and only that. */
  lemma WellFormedExactly(p: seq<byte>)
    ensures WellFormed(p)
            <==> exists word, sequence, data :: Sendable(data) && p == Build(word, sequence, data)
  {
    forall word, sequence, data | Sendable(data)
      ensures WellFormed(Build(word, sequence, data))
    {
      BuiltIsWellFormed(word, sequence, data);
    }
    if WellFormed(p) {
      ghost var a: int, b: int, c: int, d: int := p[2], p[3], p[4], p[5];
      WordOfBytes(p[2], p[3]);
      WordOfBytes(p[4], p[5]);
      WordOfBytes(p[6], p[7]);
      assert Sendable(p[HEADER..]) && p == Build(a + 0x100 * b, c + 0x100 * d, p[HEADER..]);
    }
  }

  lemma WordOfBytes(low: byte, high: byte)
    ensures var w: int := low + 0x100 * (high as int);
      w < 0x1_0000 && w % 0x100 == low && w / 0x100 == high
  {
  }

  lemma BuiltIsWellFormed(word: u16, sequence: u16, data: seq<byte>)
    requires Sendable(data)
    ensures var p := Build(word, sequence, data);
      WellFormed(p) && FrameSize(p) == |p| == 8 + |data|
  {
    ghost var p, n := Build(word, sequence, data), |data| - 1;
    assert p[6] == n % 0x100 && p[7] == n / 0x100;
  }

  function Packets(pieces: seq<Piece>): seq<seq<byte>>
    requires forall p | p in pieces :: Sendable(p.data)
  {
    if pieces == [] then []
    else
      var p := pieces[0];
      [Build(p.word, p.sequence, p.data)] + Packets(pieces[1..])
  }

  function Sent(pieces: seq<Piece>, last: seq<byte>): seq<byte>
    requires forall p | p in pieces :: Sendable(p.data)
  {
    if pieces == [] then last
    else
      var p := pieces[0];
      p.gap + (Build(p.word, p.sequence, p.data) + Sent(pieces[1..], last))
  }

  /** From whatever packets an instrument writes between clean gaps exactly those packets are framed, in order. */
  lemma {:induction false} FramesRoundTrip(pieces: seq<Piece>, last: seq<byte>)
    requires forall p | p in pieces :: Sendable(p.data) && Clean(p.gap)
    requires forall i | 0 <= i < |last| :: !SyncAt(last, i)
    ensures Frames(Sent(pieces, last)) == Packets(pieces)
    decreases |pieces|
  {
    if pieces == [] {
      LastGapIsSkipped(last);
    } else {
      assert pieces[0] in pieces;
      ghost var p := Build(pieces[0].word, pieces[0].sequence, pieces[0].data);
      ghost var more := Sent(pieces[1..], last);
      BuiltIsWellFormed(pieces[0].word, pieces[0].sequence, pieces[0].data);
      hide Build;
      GapIsSkipped(pieces[0].gap, p + more);
      assert (p + more)[..|p|] == p && (p + more)[|p|..] == more;
      FramesRoundTrip(pieces[1..], last);
    }
  }
}
