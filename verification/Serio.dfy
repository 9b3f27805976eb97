/** The serio packets that carry telemetry towards tm_ip_export: a checked header, then the payload.

    The header's layout and the check of the payload belong to a library that is not part of this model, so they are
    parameters: everything below holds for every layout whose first byte is the check byte and from whose bytes the
    16-bit payload length and the 16-bit check of the payload can be read, and for every check. */
module Serio {
  import opened Bytes

  /** `size` is `sizeof(serio_pkt_hdr)`, `crc` the check of a payload, `tail(n, c)` the header bytes after the check
      byte (type, length `n` and payload check `c`); `lengthOf` and `crcOf` read the two fields back. */
  datatype Format = Format(
    size: nat, crc: seq<byte> -> u16, tail: (nat, u16) -> seq<byte>,
    lengthOf: seq<byte> -> nat, crcOf: seq<byte> -> nat)

  const MAX_HEADER_SIZE := 248
  const MAX_DATA := 956  // MAX_SPKT_DATA_PER_SERIO_PKT

  ghost predicate Legal(f: Format) {
    && 1 <= f.size <= MAX_HEADER_SIZE
    && forall n: nat, c: u16, lrc: byte {:trigger f.lengthOf([lrc] + f.tail(n, c))} :: n < 0x1_0000 ==>
         var h := [lrc] + f.tail(n, c);
         |h| == f.size && f.lengthOf(h) == n && f.crcOf(h) == c
  }

  /** `Legal` can be met with every header size from 5 bytes on and every check: check byte, two little-endian fields,
      filler. */
  lemma LegalFormatExists(size: nat, crc: seq<byte> -> u16) returns (f: Format)
    requires 5 <= size <= MAX_HEADER_SIZE
    ensures Legal(f) && f.size == size && f.crc == crc
  {
    var filler: seq<byte> := seq(size - 5, _ => 0);
    var word := (h: seq<byte>, at: nat) =>
      if at + 2 <= |h| then var lo: int, hi: int := h[at], h[at + 1]; lo + 0x100 * hi else 0;
    f := Format(size, crc,
                (n: nat, c: u16) => [n % 0x100, n / 0x100 % 0x100, c % 0x100, c / 0x100] + filler,
                (h: seq<byte>) => word(h, 1), (h: seq<byte>) => word(h, 3));
    forall n: nat, c: u16, lrc: byte | n < 0x1_0000
      ensures var h := [lrc] + f.tail(n, c);
        |h| == size && f.lengthOf(h) == n && f.crcOf(h) == c
    {
      ghost var h := [lrc] + f.tail(n, c);
      assert f.tail(n, c) == [n % 0x100, n / 0x100 % 0x100, c % 0x100, c / 0x100] + filler;
      assert h[1] == n % 0x100 && h[2] == n / 0x100 % 0x100 && h[3] == c % 0x100 && h[4] == c / 0x100;
    }
  }

  function Header(f: Format, payload: seq<byte>): seq<byte> {
    var tail := f.tail(|payload|, f.crc(payload));
    [Wrap8(0 - Sum(tail))] + tail
  }

  function Packet(f: Format, payload: seq<byte>): seq<byte> {
    Header(f, payload) + payload
  }

  function Serialize(f: Format, payloads: seq<seq<byte>>): seq<byte> {
    if payloads == [] then [] else Packet(f, payloads[0]) + Serialize(f, payloads[1..])
  }

  /** A header is good for a payload: its own bytes sum to zero modulo 256, and it carries the payload's check. */
  predicate Checks(f: Format, hdr: seq<byte>, payload: seq<byte>) {
    Sum(hdr) % 0x100 == 0 && f.crcOf(hdr) == f.crc(payload)
  }

  /** A reader of the stream: cuts it by the length fields, and stops at the first header that is not good for the
      payload behind it. */
  function Parse(f: Format, s: seq<byte>): (r: seq<seq<byte>>)
    decreases |s|
  {
    if f.size == 0 || |s| < f.size then []
    else
      var n := f.lengthOf(s[..f.size]);
      if |s| < f.size + n || !Checks(f, s[..f.size], s[f.size..f.size + n]) then []
      else [s[f.size..f.size + n]] + Parse(f, s[f.size + n..])
  }

  ghost predicate AllShort(payloads: seq<seq<byte>>) {
    forall p | p in payloads :: |p| < 0x1_0000
  }

  lemma HeaderShape(f: Format, payload: seq<byte>)
    requires Legal(f) && |payload| < 0x1_0000
    ensures |Header(f, payload)| == f.size && f.lengthOf(Header(f, payload)) == |payload|
    ensures Checks(f, Header(f, payload), payload)
  {
    ghost var lrc := Wrap8(0 - Sum(f.tail(|payload|, f.crc(payload))));
    assert f.lengthOf([lrc] + f.tail(|payload|, f.crc(payload))) == |payload|;
    HeaderSumsToZero(f, payload);
  }

  /** The check byte makes the header's bytes sum to zero modulo 256. */
  lemma HeaderSumsToZero(f: Format, payload: seq<byte>)
    ensures Sum(Header(f, payload)) % 0x100 == 0
  {
    ghost var tail := f.tail(|payload|, f.crc(payload));
    assert Header(f, payload)[1..] == tail;
  }

  /** Damage to any single byte of a header is detected, whatever payload it is checked against. */
  lemma HeaderDamageIsDetected(f: Format, payload: seq<byte>, i: nat, v: byte, other: seq<byte>)
    requires i < |Header(f, payload)| && v != Header(f, payload)[i]
    ensures !Checks(f, Header(f, payload)[i := v], other)
  {
    HeaderSumsToZero(f, payload);
    SumUpdate(Header(f, payload), i, v);
    hide Header, Sum;
  }

  /** A payload is taken for another only if both have the same check. */
  lemma PayloadDamageIsDetected(f: Format, payload: seq<byte>, other: seq<byte>)
    requires Legal(f) && |payload| < 0x1_0000
    ensures Checks(f, Header(f, payload), other) <==> f.crc(other) == f.crc(payload)
  {
    HeaderShape(f, payload);
  }

  lemma SerializeNone(f: Format)
    ensures Serialize(f, []) == []
  {
  }

  lemma SerializeOne(f: Format, payload: seq<byte>)
    ensures Serialize(f, [payload]) == Packet(f, payload)
  {
  }

  lemma {:induction false} SerializeAppend(f: Format, a: seq<seq<byte>>, b: seq<seq<byte>>)
    ensures Serialize(f, a + b) == Serialize(f, a) + Serialize(f, b)
  {
    if a == [] {
      assert a + b == b;
    } else {
      assert (a + b)[1..] == a[1..] + b;
      SerializeAppend(f, a[1..], b);
    }
  }

  /** The checking reader accepts every packet and gets back exactly the payloads that were serialized. */
  lemma {:induction false} ParseSerialize(f: Format, payloads: seq<seq<byte>>)
    requires Legal(f) && AllShort(payloads)
    ensures Parse(f, Serialize(f, payloads)) == payloads
  {
    if payloads != [] {
      ghost var p := payloads[0];
      ghost var rest := Serialize(f, payloads[1..]);
      ghost var s := Serialize(f, payloads);
      HeaderShape(f, p);
      assert s == Header(f, p) + p + rest;
      assert s[..f.size] == Header(f, p);
      assert s[f.size..f.size + |p|] == p;
      assert s[f.size + |p|..] == rest;
      ParseSerialize(f, payloads[1..]);
    }
  }

  /** The header loop of the two `forward_packet`s: the check byte is the negated sum of the other bytes. */
  method MakeHeader(f: Format, payload: seq<byte>) returns (hdr: seq<byte>)
    ensures hdr == Header(f, payload)
  {
    hide Wrap8;
    var rest := f.tail(|payload|, f.crc(payload));
    var lrc: int := Wrap8(0);
    for i := 0 to |rest|
      invariant lrc == Wrap8(Sum(rest[..i]))
    {
      SumPrefix(rest, i);
      Wrap8Twice(Sum(rest[..i]), rest[i]);
      lrc := Wrap8(lrc + rest[i]);
    }
    assert rest[..|rest|] == rest;
    Wrap8Negated(Sum(rest));
    hdr := [Wrap8(0 - lrc)] + rest;
  }
}
