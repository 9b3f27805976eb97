/** The exporter's circular buffer (Xiomas/xiomas_export.h:59-97, Xiomas/xiomas_export.cc:125-192) as a value,
    with the code's index arithmetic kept as written. */
module CircularBuffer {
  import opened Bytes

  const SIZE := 270000

  /** `head > SIZE` codes the empty buffer, `head == tail` the full one. */
  datatype Ring = Ring(circ: seq<byte>, head: nat, tail: nat)

  ghost predicate Valid(r: Ring) {
    |r.circ| == SIZE && r.tail < SIZE && (r.head < SIZE || r.head == SIZE + 1)
  }

  /** The queue the buffer stands for. */
  ghost function Contents(r: Ring): seq<byte>
    requires Valid(r)
  {
    if r.head > SIZE then []
    else if r.tail > r.head then r.circ[r.head..r.tail]
    else r.circ[r.head..] + r.circ[..r.tail]
  }

  function Length(r: Ring): (n: int)
    ensures Valid(r) ==> n == |Contents(r)|
  {
    if r.head > SIZE then 0
    else if r.tail > r.head then r.tail - r.head
    else SIZE - r.head + r.tail
  }

  function Space(r: Ring): int {
    SIZE - Length(r)
  }

  // --- Committing ---

  /** An empty buffer restarts at index 0. */
  function Restart(r: Ring): Ring {
    if r.head > SIZE then r.(head := 0, tail := 0) else r
  }

  /** Room from the tail to the end of the array or to the head. */
  function TailSpace(r: Ring): int {
    if r.tail >= r.head then SIZE - r.tail else r.head - r.tail
  }

  function Overlay(circ: seq<byte>, at: nat, data: seq<byte>): (c: seq<byte>)
    requires at + |data| <= |circ|
    ensures |c| == |circ|
  {
    circ[..at] + data + circ[at + |data|..]
  }

  /** `circ_commit` of bytes that fit. The last line advances the tail by the length of the first piece, although
      it is the second piece that was just copied. */
  function CommitFitting(r: Ring, data: seq<byte>): (q: Ring)
    requires Valid(r) && 0 < |data| <= Space(r)
    ensures Valid(q)
  {
    var r := Restart(r);
    var first := Min(|data|, TailSpace(r));
    var circ := Overlay(r.circ, r.tail, data[..first]);
    var tail := if r.tail + first == SIZE then 0 else r.tail + first;
    if first == |data| then Ring(circ, r.head, tail)
    else Ring(Overlay(circ, tail, data[first..]), r.head, tail + first)
  }

  /** `circ_commit`: what does not fit is cut off. */
  function Commit(r: Ring, data: seq<byte>): (q: Ring)
    requires Valid(r)
    ensures Valid(q)
  {
    var n := Min(|data|, Space(r));
    if n == 0 then r else CommitFitting(r, data[..n])
  }

  /** What a caller can check beforehand: the `n` bytes do not reach past the end of the array, or they reach past
      it by exactly as much as was left before it. */
  predicate Harmless(r: Ring, n: nat) {
    n <= TailSpace(Restart(r)) || n == 2 * TailSpace(Restart(r))
  }

  lemma CommitWithoutWrap(r: Ring, data: seq<byte>)
    requires Valid(r) && 0 < |data| <= Space(r)
    requires |data| <= TailSpace(Restart(r))
    ensures Contents(CommitFitting(r, data)) == Contents(r) + data
  {
  }

  /** What the two copies do when the data reach past the end of the array: the tail ends up as far from the start as
      the first piece is long. */
  lemma WrappedCommit(r: Ring, data: seq<byte>)
    requires Valid(r) && 0 < |data| <= Space(r)
    requires |data| > TailSpace(Restart(r))
    ensures var first, q := TailSpace(r), CommitFitting(r, data);
      && r.head < r.tail && r.tail + first == SIZE && first < |data|
      && q.head == r.head && q.tail == first
      && |data| - first <= r.head
      && q.circ == Overlay(Overlay(r.circ, r.tail, data[..first]), 0, data[first..])
  {
  }

  /** Past the end, the contents come out longer or shorter than they should, unless the two pieces are equally long. */
  lemma CommitWithWrap(r: Ring, data: seq<byte>)
    requires Valid(r) && 0 < |data| <= Space(r)
    requires |data| > TailSpace(Restart(r))
    ensures Contents(CommitFitting(r, data)) == Contents(r) + data <==> |data| == 2 * TailSpace(r)
  {
    ghost var first, q := TailSpace(r), CommitFitting(r, data);
    WrappedCommit(r, data);
    hide CommitFitting;
    if |data| == 2 * first {
      EqualPieces(r, q, data, first);
    } else {
      assert |Contents(q)| != |Contents(r)| + |data|;
    }
  }

  lemma EqualPieces(r: Ring, q: Ring, data: seq<byte>, first: nat)
    requires Valid(r) && Valid(q) && 0 < first && |data| == 2 * first
    requires r.head < r.tail && r.tail + first == SIZE && first <= r.head
    requires q.head == r.head && q.tail == first
    requires q.circ == Overlay(Overlay(r.circ, r.tail, data[..first]), 0, data[first..])
    ensures Contents(q) == Contents(r) + data
  {
    hide Overlay;
    TwoOverlays(r.circ, r.head, r.tail, data[..first], data[first..]);
    assert data == data[..first] + data[first..];
    ConcatAssociates(r.circ[r.head..r.tail], data[..first], data[first..]);
  }

  lemma TwoOverlays(circ: seq<byte>, head: nat, tail: nat, d1: seq<byte>, d2: seq<byte>)
    requires |d2| <= head <= tail && tail + |d1| == |circ|
    ensures var c := Overlay(Overlay(circ, tail, d1), 0, d2);
      c[head..] == circ[head..tail] + d1 && c[..|d2|] == d2
  {
    ghost var c1 := Overlay(circ, tail, d1);
    assert c1[head..] == circ[head..tail] + d1;
    assert Overlay(c1, 0, d2)[head..] == c1[head..];
  }

  /** `circ_commit` appends the bytes that fit, in order, exactly when the wrap is harmless. */
  lemma CommitAppendsWhatFits(r: Ring, data: seq<byte>)
    requires Valid(r)
    ensures var n := Min(|data|, Space(r));
      Contents(Commit(r, data)) == Contents(r) + data[..n] <==> Harmless(r, n)
  {
    ghost var n := Min(|data|, Space(r));
    if n == 0 {
      assert data[..0] == [];
    } else if n <= TailSpace(Restart(r)) {
      CommitWithoutWrap(r, data[..n]);
    } else {
      CommitWithWrap(r, data[..n]);
    }
  }

  /** It appends all of the data exactly when they fit and the wrap is harmless. */
  lemma CommitAppendsExactly(r: Ring, data: seq<byte>)
    requires Valid(r)
    ensures Contents(Commit(r, data)) == Contents(r) + data
            <==> |data| <= Space(r) && Harmless(r, |data|)
  {
    CommitAppendsWhatFits(r, data);
    if |data| <= Space(r) {
      assert data[..|data|] == data;
    } else {
      CommitNeverOverfills(r, data);
    }
  }

  lemma CommitNeverOverfills(r: Ring, data: seq<byte>)
    requires Valid(r)
    ensures |Contents(Commit(r, data))| <= SIZE
  {
  }

  /** The commit that goes wrong: three bytes with one byte of room before the end of the array. */
  lemma CommitLosesBytesOnWrap(r: Ring, data: seq<byte>)
    requires Valid(r) && r.tail == SIZE - 1 && 2 <= r.head < r.tail && |data| == 3
    ensures |data| <= Space(r) && !Harmless(r, |data|)
    ensures Contents(Commit(r, data)) == Contents(r) + data[..2]
  {
    assert data[..3] == data;
    ghost var q := Commit(r, data);
    assert Contents(q) == q.circ[r.head..] + q.circ[..1];
    assert q.circ[r.head..] == Contents(r) + data[..1];
    assert q.circ[..1] == data[1..2];
  }

  // --- Transmitting ---

  /** `circ_head_bytes` as written: with the head below the tail the difference is taken the wrong way round and
      wraps in 32 bits. */
  function HeadBytes(r: Ring): u32
    requires Valid(r)
  {
    if r.head > SIZE then 0
    else if r.tail > r.head then Wrap32(r.head - r.tail)
    else SIZE - r.head
  }

  /** What its comment asks for: the number of contiguous bytes at the head. */
  function ContiguousBytes(r: Ring): nat
    requires Valid(r)
  {
    if r.head > SIZE then 0
    else if r.tail > r.head then r.tail - r.head
    else SIZE - r.head
  }

  /** The slip never shows to a caller that asks for no more than the buffer holds, and it shows as a value exactly
      when the data does not wrap. */
  lemma HeadBytesSuffice(r: Ring, n: nat)
    requires Valid(r) && n <= Length(r)
    ensures Min(n, HeadBytes(r)) == Min(n, ContiguousBytes(r))
    ensures HeadBytes(r) != ContiguousBytes(r) <==> r.head < r.tail
  {
  }

  /** The buffer without its first `n` bytes. */
  function Drop(r: Ring, n: nat): (q: Ring)
    requires Valid(r) && n <= Length(r)
    ensures Valid(q)
  {
    if n == 0 then r
    else if n == Length(r) then r.(head := SIZE + 1)
    else if r.head + n < SIZE then r.(head := r.head + n)
    else r.(head := r.head + n - SIZE)
  }

  lemma DropRemovesTheFront(r: Ring, n: nat)
    requires Valid(r) && n <= Length(r)
    ensures Contents(Drop(r, n)) == Contents(r)[n..]
  {
  }

  // --- Runs ---

  datatype Op = Append(data: seq<byte>) | Remove(n: nat)

  ghost function Step(r: Ring, op: Op): (q: Ring)
    requires Valid(r)
    ensures Valid(q)
  {
    match op
    case Append(data) => Commit(r, data)
    case Remove(n) => Drop(r, Min(n, Length(r)))
  }

  /** The bounded queue the buffer is meant to be. */
  function QueueStep(queue: seq<byte>, op: Op): seq<byte> {
    match op
    case Append(data) => queue + data
    case Remove(n) => queue[Min(n, |queue|)..]
  }

  /** After every operation of the run the buffer stands for the queue. */
  ghost predicate RefinesQueue(r: Ring, queue: seq<byte>, ops: seq<Op>)
    requires Valid(r)
    decreases |ops|
  {
    && Contents(r) == queue
    && (ops != [] ==> RefinesQueue(Step(r, ops[0]), QueueStep(queue, ops[0]), ops[1..]))
  }

  /** Every commit of the run met the condition its caller could have checked. */
  ghost predicate EveryCommitHarmless(r: Ring, ops: seq<Op>)
    requires Valid(r)
    decreases |ops|
  {
    ops != [] ==>
      && (ops[0].Append? ==> |ops[0].data| <= Space(r) && Harmless(r, |ops[0].data|))
      && EveryCommitHarmless(Step(r, ops[0]), ops[1..])
  }

  /** Over any run the buffer is a first-in first-out queue exactly when every commit was harmless. */
  lemma {:induction false} RefinesQueueExactly(r: Ring, ops: seq<Op>)
    requires Valid(r)
    ensures RefinesQueue(r, Contents(r), ops) <==> EveryCommitHarmless(r, ops)
    decreases |ops|
  {
    if ops != [] {
      ghost var q := Step(r, ops[0]);
      match ops[0] {
        case Append(data) => CommitAppendsExactly(r, data);
        case Remove(n) => DropRemovesTheFront(r, Min(n, Length(r)));
      }
      if Contents(q) == QueueStep(Contents(r), ops[0]) {
        RefinesQueueExactly(q, ops[1..]);
      } else {
        assert !RefinesQueue(q, QueueStep(Contents(r), ops[0]), ops[1..]);
      }
    }
  }

  lemma EmptyHasNoContents(r: Ring)
    requires Valid(r) && r.head > SIZE
    ensures Contents(r) == []
  {
  }

  // --- Buffers that cannot wrap ---

  /** `need` more bytes can be committed before the end of the array is reached. */
  predicate Linear(r: Ring, need: nat) {
    if r.head > SIZE then need <= SIZE
    else need > 0 ==> r.head < r.tail && r.tail + need <= SIZE
  }

  lemma LinearCommit(r: Ring, data: seq<byte>, need: nat)
    requires Valid(r) && Linear(r, need) && |data| <= need
    ensures Contents(Commit(r, data)) == Contents(r) + data
    ensures Linear(Commit(r, data), need - |data|)
  {
    CommitAppendsExactly(r, data);
  }

  lemma LinearDrop(r: Ring, n: nat, need: nat)
    requires Valid(r) && Linear(r, need) && n <= Length(r)
    ensures Linear(Drop(r, n), need)
  {
  }
}
