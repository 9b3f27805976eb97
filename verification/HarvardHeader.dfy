/** The 16-byte Xiomas/Harvard packet header (Xiomas/XioHarvGatewayPacket.cpp). */
module HarvardHeader {
  import opened Bytes

  const HEADER_SIZE := 16
  const MAX_PAYLOAD := 511 - HEADER_SIZE
  const START: seq<byte> := [0x24, 0x50, 0x4B, 0x54]  // "$PKT"

  // Field offsets.
  const PACKET_ID := 4
  const SOURCE := 5
  const LRC := 6
  const FLAGS := 7
  const PAYLOAD_LENGTH := 8
  const BLOCK_COUNT := 12

  // Packet identifiers, sources and flags that the two receivers look at.
  const PID_GW_CONTROL: byte := 1
  const PID_XIO_STATUS: byte := 3
  const PID_PACKET_LIMIT: byte := 4
  const PID_FIRE_LAYER: byte := 0x81
  const PID_STREAM_LIMIT: byte := 0x84
  const SRC_GATEWAY: byte := 1
  const SRC_SCANNER: byte := 2
  const SRC_OPU: byte := 3
  const SRC_ONBOARD_LIMIT: byte := 4
  const SRC_HARVARD_SERVER: byte := 8
  const SRC_REMOTE_LIMIT: byte := 10
  const FLAG_NCTS: byte := 0x10
  const FLAG_CTS: byte := 0x20
  const FLAG_RTS: byte := 0x40

  type header = h: seq<byte> | |h| == HEADER_SIZE witness seq(16, _ => 0)

  // --- Little-endian fields ---

  function Value32(b: seq<byte>): (v: u32)
    requires |b| == 4
  {
    var b0: int, b1: int, b2: int, b3: int := b[0], b[1], b[2], b[3];
    b0 + 0x100 * b1 + 0x1_0000 * b2 + 0x100_0000 * b3
  }

  function Bytes32(v: u32): (b: seq<byte>)
    ensures |b| == 4
  {
    [v % 0x100, v / 0x100 % 0x100, v / 0x1_0000 % 0x100, v / 0x100_0000 % 0x100]
  }

  /** Encoding and decoding a 32-bit field are inverse to each other, both ways. */
  lemma Value32OfBytes32(v: u32)
    ensures Value32(Bytes32(v)) == v
  {
    ghost var w := v / 0x100;
    assert v / 0x1_0000 == w / 0x100 && v / 0x100_0000 == w / 0x100 / 0x100;
  }

  lemma Bytes32OfValue32(b: seq<byte>)
    requires |b| == 4
    ensures Bytes32(Value32(b)) == b
  {
    ghost var w, b1: int, b2: int, b3: int := Value32(b), b[1], b[2], b[3];
    Quotient(w, b[0], b1 + 0x100 * b2 + 0x1_0000 * b3);
    Quotient(b1 + 0x100 * b2 + 0x1_0000 * b3, b[1], b2 + 0x100 * b3);
    Quotient(b2 + 0x100 * b3, b[2], b3);
    assert w / 0x1_0000 == w / 0x100 / 0x100 && w / 0x100_0000 == w / 0x100 / 0x100 / 0x100;
  }

  lemma Quotient(w: nat, low: byte, high: nat)
    requires w == low + 0x100 * (high as int)
    ensures w / 0x100 == high && w % 0x100 == low
  {
  }

  function PayloadLength(h: header): u32 {
    Value32(h[PAYLOAD_LENGTH..PAYLOAD_LENGTH + 4])
  }

  function BlockCount(h: header): u32 {
    Value32(h[BLOCK_COUNT..BLOCK_COUNT + 4])
  }

  /** The whole packet's length, computed in 32-bit arithmetic: it wraps for payloads of 2^32-16 bytes and more. */
  function PacketLength(h: header): u32 {
    Wrap32(HEADER_SIZE + PayloadLength(h))
  }

  method SetValue32(a: array<byte>, at: nat, v: u32)
    requires at + 4 <= a.Length
    modifies a
    ensures a[..] == old(a[..])[..at] + Bytes32(v) + old(a[..])[at + 4..]
  {
    a[at] := v % 0x100;
    a[at + 1] := v / 0x100 % 0x100;
    a[at + 2] := v / 0x1_0000 % 0x100;
    a[at + 3] := v / 0x100_0000 % 0x100;
  }

  // --- The longitudinal redundancy check ---

  /** The complement of the eight-bit sum of all header bytes. */
  function Lrc(h: seq<byte>): byte {
    0xFF - Wrap8(Sum(h))
  }

  method CalculateLRC(a: array<byte>) returns (lrc: byte)
    requires a.Length == HEADER_SIZE
    ensures lrc == Lrc(a[..])
  {
    hide Wrap8;
    var sum: int := Wrap8(0);
    for i := 0 to HEADER_SIZE
      invariant sum == Wrap8(Sum(a[..i]))
    {
      SumPrefix(a[..], i);
      assert a[..][..i] == a[..i] && a[..][..i + 1] == a[..i + 1];
      Wrap8Twice(Sum(a[..i]), a[i]);
      sum := Wrap8(sum + a[i]);
    }
    assert a[..HEADER_SIZE] == a[..];
    lrc := 0xFF - sum;
  }

  // --- Filling ---

  /** A header with the given fields whose check byte is still `lrc`. */
  function Fields(pid: byte, src: byte, lrc: byte, flags: byte, payload: u32, block: u32): header {
    START + [pid, src, lrc, flags] + Bytes32(payload) + Bytes32(block)
  }

  function Fill(pid: byte, src: byte, flags: byte, payload: u32, block: u32): header {
    Fields(pid, src, Lrc(Fields(pid, src, 0, flags, payload, block)), flags, payload, block)
  }

  method FillHeader(a: array<byte>, pid: byte, src: byte, flags: byte, payload: u32, block: u32)
    returns (length: u32)
    requires a.Length == HEADER_SIZE
    modifies a
    ensures a[..] == Fill(pid, src, flags, payload, block)
    ensures length == PacketLength(a[..])
  {
    a[0], a[1], a[2], a[3] := START[0], START[1], START[2], START[3];
    a[PACKET_ID] := pid;
    a[SOURCE] := src;
    a[LRC] := 0;
    a[FLAGS] := flags;
    SetValue32(a, PAYLOAD_LENGTH, payload);
    SetValue32(a, BLOCK_COUNT, block);
    a[LRC] := 0;
    assert a[..] == Fields(pid, src, 0, flags, payload, block);
    var lrc := CalculateLRC(a);
    a[LRC] := lrc;
    assert a[..] == Fill(pid, src, flags, payload, block);
    length := PacketLength(a[..]);
  }

  // --- Validating ---

  predicate LegalPacketID(pid: byte) {
    !((PID_PACKET_LIMIT <= pid < PID_FIRE_LAYER) || pid >= PID_STREAM_LIMIT)
  }

  predicate LegalSource(src: byte) {
    !((SRC_ONBOARD_LIMIT <= src < SRC_HARVARD_SERVER) || src >= SRC_REMOTE_LIMIT)
  }

  /** No bit outside QoS (0x01), NCTS, CTS and RTS is set. */
  predicate LegalFlags(flags: byte) {
    flags < 0x80 && flags / 2 % 8 == 0
  }

  predicate HasRTS(flags: byte) {
    flags / FLAG_RTS % 2 == 1
  }

  predicate LegalFields(pid: byte, src: byte, flags: byte, payload: u32) {
    && LegalPacketID(pid)
    && LegalSource(src)
    && LegalFlags(flags)
    && (pid <= PID_PACKET_LIMIT ==> payload <= MAX_PAYLOAD)
  }

  predicate ValidateHeader(h: header, packetLength: u32) {
    && h[..4] == START
    && LegalPacketID(h[PACKET_ID])
    && LegalSource(h[SOURCE])
    && Lrc(h) == 0
    && LegalFlags(h[FLAGS])
    && (h[PACKET_ID] <= PID_PACKET_LIMIT ==> PayloadLength(h) <= MAX_PAYLOAD)
    && PacketLength(h) == packetLength
  }

  // --- What the codec promises ---

  /** The fields of a header built from parts read back as those parts. */
  lemma FieldsReadBack(pid: byte, src: byte, lrc: byte, flags: byte, payload: u32, block: u32)
    ensures var h := Fields(pid, src, lrc, flags, payload, block);
      && h[..4] == START && h[PACKET_ID] == pid && h[SOURCE] == src && h[LRC] == lrc && h[FLAGS] == flags
      && PayloadLength(h) == payload && BlockCount(h) == block
  {
    ghost var h := Fields(pid, src, lrc, flags, payload, block);
    assert h[PAYLOAD_LENGTH..PAYLOAD_LENGTH + 4] == Bytes32(payload);
    assert h[BLOCK_COUNT..BLOCK_COUNT + 4] == Bytes32(block);
    Value32OfBytes32(payload);
    Value32OfBytes32(block);
  }

  /** Any header is built from its own fields: the layout leaves nothing out. */
  lemma HeaderIsItsFields(h: header)
    requires h[..4] == START
    ensures h == Fields(h[PACKET_ID], h[SOURCE], h[LRC], h[FLAGS], PayloadLength(h), BlockCount(h))
  {
    Bytes32OfValue32(h[PAYLOAD_LENGTH..PAYLOAD_LENGTH + 4]);
    Bytes32OfValue32(h[BLOCK_COUNT..BLOCK_COUNT + 4]);
  }

  /** The check byte is settled by the other fifteen: exactly one value makes the header's check vanish. */
  lemma LrcIsDetermined(pid: byte, src: byte, lrc: byte, flags: byte, payload: u32, block: u32)
    ensures Lrc(Fields(pid, src, lrc, flags, payload, block)) == 0
            <==> lrc == Lrc(Fields(pid, src, 0, flags, payload, block))
  {
    ghost var h0 := Fields(pid, src, 0, flags, payload, block);
    assert Fields(pid, src, lrc, flags, payload, block) == h0[LRC := lrc];
    SumUpdate(h0, LRC, lrc);
  }

  /** Filling and validating meet exactly on the legal field values and the header's own length. */
  lemma FillValidates(pid: byte, src: byte, flags: byte, payload: u32, block: u32, packetLength: u32)
    ensures ValidateHeader(Fill(pid, src, flags, payload, block), packetLength)
            <==> LegalFields(pid, src, flags, payload) && packetLength == Wrap32(HEADER_SIZE + payload)
  {
    ghost var lrc := Lrc(Fields(pid, src, 0, flags, payload, block));
    FieldsReadBack(pid, src, lrc, flags, payload, block);
    LrcIsDetermined(pid, src, lrc, flags, payload, block);
  }

  /** Conversely, every header the validator accepts is what `FillHeader` writes for its own fields. */
  lemma ValidatedIsFilled(h: header, packetLength: u32)
    requires ValidateHeader(h, packetLength)
    ensures h == Fill(h[PACKET_ID], h[SOURCE], h[FLAGS], PayloadLength(h), BlockCount(h))
    ensures LegalFields(h[PACKET_ID], h[SOURCE], h[FLAGS], PayloadLength(h))
  {
    HeaderIsItsFields(h);
    LrcIsDetermined(h[PACKET_ID], h[SOURCE], h[LRC], h[FLAGS], PayloadLength(h), BlockCount(h));
  }

  /** The check is a one's complement: the sixteen bytes of every accepted header and of every filled one sum to 0xFF
      modulo 256. */
  lemma AcceptedHeaderSum(h: header, packetLength: u32)
    requires ValidateHeader(h, packetLength)
    ensures Sum(h) % 0x100 == 0xFF
  {
  }

  lemma FilledHeaderSum(pid: byte, src: byte, flags: byte, payload: u32, block: u32)
    ensures Sum(Fill(pid, src, flags, payload, block)) % 0x100 == 0xFF
  {
    ghost var lrc := Lrc(Fields(pid, src, 0, flags, payload, block));
    LrcIsDetermined(pid, src, lrc, flags, payload, block);
    hide Fields;
  }

  /** A bitmap of the four flags. */
  function FlagBits(qos: bool, ncts: bool, cts: bool, rts: bool): byte {
    (if qos then 0x01 else 0) + (if ncts then 0x10 else 0) + (if cts then 0x20 else 0) + (if rts then 0x40 else 0)
  }

  /** The legal flag bytes are the bitmaps of the four flags, and the request flag is the last of them. */
  lemma LegalFlagsAreBits(flags: byte)
    ensures LegalFlags(flags)
            <==> exists qos, ncts, cts, rts :: flags == FlagBits(qos, ncts, cts, rts)
    ensures forall qos, ncts, cts, rts :: flags == FlagBits(qos, ncts, cts, rts) ==> HasRTS(flags) == rts
  {
    if LegalFlags(flags) {
      assert flags == FlagBits(flags % 2 == 1, flags / 0x10 % 2 == 1, flags / 0x20 % 2 == 1, flags / 0x40 % 2 == 1);
    }
  }

  /** What the validator accepts, on the bytes alone. */
  lemma ValidatesExactly(h: header, packetLength: u32)
    ensures ValidateHeader(h, packetLength) <==>
      && h[0] == 0x24 && h[1] == 0x50 && h[2] == 0x4B && h[3] == 0x54
      && (h[4] <= 3 || 0x81 <= h[4] <= 0x83)
      && (h[5] <= 3 || 8 <= h[5] <= 9)
      && h[7] in {0x00, 0x01, 0x10, 0x11, 0x20, 0x21, 0x30, 0x31, 0x40, 0x41, 0x50, 0x51, 0x60, 0x61, 0x70, 0x71}
      && Sum(h) % 0x100 == 0xFF
      && var b0: int, b1: int, b2: int, b3: int := h[8], h[9], h[10], h[11];
         var payload := b0 + 0x100 * b1 + 0x1_0000 * b2 + 0x100_0000 * b3;
      && (h[4] <= 3 ==> payload <= 495)
      && (16 + payload) % 0x1_0000_0000 == packetLength
  {
    assert h[..4] == [h[0], h[1], h[2], h[3]];
    ghost var field := h[PAYLOAD_LENGTH..PAYLOAD_LENGTH + 4];
    assert field[0] == h[8] && field[1] == h[9] && field[2] == h[10] && field[3] == h[11];
    hide Sum;
  }

  /** Headers on record: a request, the CTS that answers it, a status packet with 217 bytes, an NCTS. */
  lemma RecordedHeaders()
    ensures Fill(1, 2, 0x40, 0, 3062) == [0x24, 0x50, 0x4B, 0x54, 1, 2, 0xA8, 0x40, 0, 0, 0, 0, 0xF6, 0x0B, 0, 0]
    ensures Fill(1, 1, 0x20, 0, 1) == [0x24, 0x50, 0x4B, 0x54, 1, 1, 0xC9, 0x20, 0, 0, 0, 0, 1, 0, 0, 0]
    ensures Fill(3, 2, 0x00, 217, 3063) == [0x24, 0x50, 0x4B, 0x54, 3, 2, 0x0C, 0x00, 217, 0, 0, 0, 0xF7, 0x0B, 0, 0]
    ensures Fill(1, 1, 0x10, 0, 2) == [0x24, 0x50, 0x4B, 0x54, 1, 1, 0xD8, 0x10, 0, 0, 0, 0, 2, 0, 0, 0]
  {
    HeaderBytes(1, 2, 0xA8, 0x40, 0, 0xF6, 0x0B);
    HeaderBytes(1, 1, 0xC9, 0x20, 0, 1, 0);
    HeaderBytes(3, 2, 0x0C, 0x00, 217, 0xF7, 0x0B);
    HeaderBytes(1, 1, 0xD8, 0x10, 0, 2, 0);
    hide Fill;
  }

  /** The bytes of a filled header with a short payload and a block count below 2^16. */
  lemma HeaderBytes(pid: byte, src: byte, lrc: byte, flags: byte, payload: byte, low: byte, high: byte)
    requires (0x113 + (pid as int) + src + lrc + flags + payload + low + high) % 0x100 == 0xFF
    ensures var block: int := low + 0x100 * (high as int);
      Fill(pid, src, flags, payload, block)
      == [0x24, 0x50, 0x4B, 0x54, pid, src, lrc, flags, payload, 0, 0, 0, low, high, 0, 0]
  {
    ghost var block: u32 := low + 0x100 * (high as int);
    ghost var front, back := [0x24, 0x50, 0x4B, 0x54, pid, src, lrc, flags], [payload, 0, 0, 0, low, high, 0, 0];
    SumOfEight(0x24, 0x50, 0x4B, 0x54, pid, src, lrc, flags);
    SumOfEight(payload, 0, 0, 0, low, high, 0, 0);
    SumConcat(front, back);
    SmallFields(payload, low, high);
    hide Sum, Bytes32;
    assert Fields(pid, src, lrc, flags, payload, block) == front + back;
    LrcIsDetermined(pid, src, lrc, flags, payload, block);
  }

  lemma SmallFields(payload: byte, low: byte, high: byte)
    ensures Bytes32(payload) == [payload, 0, 0, 0]
    ensures var block: int := low + 0x100 * (high as int);
      Bytes32(block) == [low, high, 0, 0]
  {
    Bytes32OfValue32([payload, 0, 0, 0]);
    Bytes32OfValue32([low, high, 0, 0]);
    hide Bytes32;
  }

  lemma SumOfEight(a: byte, b: byte, c: byte, d: byte, e: byte, f: byte, g: byte, h: byte)
    ensures Sum([a, b, c, d, e, f, g, h]) == (a as int) + b + c + d + e + f + g + h
  {
    SumOfFour(a, b, c, d);
    SumOfFour(e, f, g, h);
    SumConcat([a, b, c, d], [e, f, g, h]);
    assert [a, b, c, d] + [e, f, g, h] == [a, b, c, d, e, f, g, h];
  }

  lemma SumOfFour(a: byte, b: byte, c: byte, d: byte)
    ensures Sum([a, b, c, d]) == (a as int) + b + c + d
  {
    assert [a, b, c, d][1..] == [b, c, d] && [b, c, d][1..] == [c, d] && [c, d][1..] == [d];
    assert Sum([d]) == d;
    assert Sum([c, d]) == c + Sum([d]);
    assert Sum([b, c, d]) == b + Sum([c, d]);
  }

  /** Damage to any single byte of an accepted header is detected, whatever length it is checked against. */
  lemma SingleByteDamageIsDetected(h: header, i: nat, v: byte, packetLength: u32, checkedLength: u32)
    requires ValidateHeader(h, packetLength)
    requires i < HEADER_SIZE && v != h[i]
    ensures !ValidateHeader(h[i := v], checkedLength)
  {
    SumUpdate(h, i, v);
    SumsDiffer(Sum(h), v - h[i]);
    hide LegalPacketID, LegalSource, LegalFlags, PayloadLength, PacketLength, Wrap8;
    assert Lrc(h[i := v]) != 0;
  }

  lemma SumsDiffer(sum: int, change: int)
    requires Wrap8(sum) == 0xFF && change != 0 && -0x100 < change < 0x100
    ensures Wrap8(sum + change) != 0xFF
  {
  }
}
