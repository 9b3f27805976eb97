/** The Nephex receiver and exporter as the code runs them (Nephex/nephex_export.cc:95-247), proved against
    `NephexStream`, `Decimation` and `NephexRelay`. */
module NephexReceiver {
  import opened Bytes
  import opened Serio
  import opened TcpExport
  import opened NephexStream
  import D = Decimation
  import opened NephexRelay

  class Exporter {
    const env: Env
    var outstanding: u32
    ghost var sent: seq<byte>
    var handled: nat  // packets offered so far: the socket may change from one to the next

    constructor (env: Env)
      ensures this.env == env && outstanding == 0 && handled == 0 && sent == []
    {
      this.env := env;
      outstanding, handled, sent := 0, 0, [];
    }

    predicate CTS()
      reads this
    {
      outstanding < WINDOW && env.obufEmpty(handled)
    }

    /** `forward_packet`, which asserts that the exporter is still clear to send. */
    method ForwardPacket(frame: seq<byte>)
      requires CTS()
      modifies this`outstanding, this`sent
      ensures sent == old(sent) + Packet(env.format, frame)
      ensures outstanding == Wrap32(old(outstanding) + env.format.size + |frame|)
    {
      assert CTS();
      var hdr := MakeHeader(env.format, frame);
      sent := sent + (hdr + frame);
      outstanding := Wrap32(outstanding + env.format.size + |frame|);
    }

    method Acknowledged(n: nat)
      modifies this`outstanding
      ensures outstanding == if n > old(outstanding) then 0 else old(outstanding) - n
    {
      if n > outstanding {
        outstanding := 0;
      } else {
        outstanding := outstanding - n;
      }
    }
  }

  class Receiver {
    const exp: Exporter
    const apids: D.APid
    var buf: seq<byte>
    ghost var stream: seq<byte>
    ghost var logged: seq<seq<byte>>

    ghost function Relay(): Relay
      requires apids.defs.Length == D.MAX_APID + 1
      reads exp, apids, apids.defs
    {
      NephexRelay.Relay(apids.Rows(), exp.outstanding, exp.handled, exp.sent)
    }

    /** Since the connection opened every packet of the stream has been logged once, in order. */
    ghost predicate Valid()
      reads this, apids, apids.defs
    {
      && apids.Valid()
      && logged == Frames(stream)
      && buf == Rest(stream)
    }

    constructor (exp: Exporter, apids: D.APid)
      requires apids.Valid()
      ensures Valid() && this.exp == exp && this.apids == apids && stream == []
    {
      this.exp, this.apids := exp, apids;
      buf, stream, logged := [], [], [];
    }

    /** `not_found(0xAA)`: just behind the next sync byte, or the end of the buffer. */
    method Seek(cp: nat) returns (at: nat, found: bool)
      requires cp <= |buf|
      ensures cp <= at <= |buf|
      ensures found ==> cp < at && buf[at - 1] == SYNC
      ensures !found ==> at == |buf|
      ensures forall i | cp <= i < (if found then at - 1 else at) :: buf[i] != SYNC
    {
      at, found := cp, false;
      while at < |buf| && !found
        invariant cp <= at <= |buf|
        invariant found ==> cp < at && buf[at - 1] == SYNC
        invariant forall i | cp <= i < (if found then at - 1 else at) :: buf[i] != SYNC
        decreases |buf| - at
      {
        found := buf[at] == SYNC;
        at := at + 1;
      }
    }

    /** A complete packet: log it, and forward it if the exporter is clear to send and the table says so. */
    method TakeFrame(frame: seq<byte>)
      requires apids.Valid() && HEADER <= |frame|
      modifies this`logged, exp, apids.defs
      ensures apids.Valid() && Relay() == Take(exp.env, old(Relay()), frame)
      ensures logged == old(logged) + [frame]
    {
      hide Packet;
      logged := logged + [frame];
      var lo: int, hi: int := frame[2], frame[3];
      var apid := (lo + 0x100 * hi) % 0x400;
      if exp.CTS() {
        var ok := apids.OkToTransmit(apid);
        if ok {
          exp.ForwardPacket(frame);
        }
      }
      exp.handled := exp.handled + 1;
    }

    /** `protocol_input` after a read of `chunk` for which there was room. */
    method ProtocolInput(chunk: seq<byte>)
      requires Valid() && |buf| + |chunk| <= BUFFER_SIZE
      modifies this, exp, apids.defs
      ensures Valid() && stream == old(stream) + chunk
      ensures Relay() == TakeAll(exp.env, old(Relay()), old(buf) + chunk)
      ensures logged == old(logged) + Frames(old(buf) + chunk)
    {
      FramingResumes(stream, chunk);
      buf, stream := buf + chunk, stream + chunk;
      Parse();
    }

    method Parse()
      requires apids.Valid() && |buf| <= BUFFER_SIZE
      modifies this`buf, this`logged, exp, apids.defs
      ensures apids.Valid() && buf == Rest(old(buf))
      ensures Relay() == TakeAll(exp.env, old(Relay()), old(buf))
      ensures logged == old(logged) + Frames(old(buf))
    {
      var cp: int := 0;
      var more := true;
      assert buf[0..] == buf;
      while cp < |buf| && more
        invariant 0 <= cp <= |buf| && apids.Valid() && buf == old(buf)
        invariant !more ==> Frames(buf[cp..]) == [] && Rest(buf) == buf[cp..]
        invariant Rest(buf) == Rest(buf[cp..])
        invariant TakeAll(exp.env, Relay(), buf[cp..]) == TakeAll(exp.env, old(Relay()), buf)
        invariant logged + Frames(buf[cp..]) == old(logged) + Frames(buf)
        decreases |buf| - cp, if more then 1 else 0
      {
        cp, more := Turn(cp);
      }
      NothingLeft(exp.env, Relay(), buf[cp..]);
      buf := buf[cp..];
    }

    /** One turn of the framing loop. */
    method Turn(start: nat) returns (cp: int, more: bool)
      requires start < |buf| <= BUFFER_SIZE && apids.Valid()
      modifies this`logged, exp, apids.defs
      ensures start <= cp <= |buf| && (more ==> start < cp)
      ensures apids.Valid()
      ensures !more ==> Frames(buf[cp..]) == [] && Rest(buf[start..]) == buf[cp..]
      ensures Rest(buf[cp..]) == Rest(buf[start..])
      ensures TakeAll(exp.env, Relay(), buf[cp..]) == TakeAll(exp.env, old(Relay()), buf[start..])
      ensures logged + Frames(buf[cp..]) == old(logged) + Frames(buf[start..])
    {
      hide Frames, Rest, TakeAll, Take;
      var found;
      cp, found := Seek(start);
      if !found {
        SkipWithin(exp.env, Relay(), buf, start, cp);
        EndsHere(buf, cp);
        return cp, false;
      }
      SkipWithin(exp.env, Relay(), buf, start, cp - 1);
      if cp < |buf| && buf[cp] != SYNC {
        HalfSync(exp.env, Relay(), buf, cp - 1);
        return cp, true;
      }
      cp := cp + 1;
      if |buf| < cp + 6 {
        cp := cp - 2;
        ShortHere(buf, cp);
        return cp, false;
      }
      cp := cp + 4;
      var lo: int, hi: int := buf[cp], buf[cp + 1];
      var len := lo + 0x100 * hi;
      cp := cp + 2;
      SizeHere(buf, cp - 8);
      if |buf| < cp + len + 1 {
        cp := cp - 8;
        ShortHere(buf, cp);
        return cp, false;
      }
      FrameHere(exp.env, Relay(), buf, cp - 8);
      TakeFrame(buf[cp - 8..cp + len + 1]);
      cp := cp + len + 1;
      more := true;
    }
  }

  lemma NothingLeft(env: Env, x: Relay, s: seq<byte>)
    requires |s| <= BUFFER_SIZE && Frames(s) == []
    ensures TakeAll(env, x, s) == x
  {
  }

  lemma SkipWithin(env: Env, x: Relay, s: seq<byte>, from: nat, to: nat)
    requires from <= to <= |s| <= BUFFER_SIZE && forall i | from <= i < to :: s[i] != SYNC
    ensures Frames(s[from..]) == Frames(s[to..]) && Rest(s[from..]) == Rest(s[to..])
    ensures TakeAll(env, x, s[from..]) == TakeAll(env, x, s[to..])
  {
    assert s[from..][to - from..] == s[to..];
    SkipToSync(s[from..], to - from);
  }

  lemma EndsHere(s: seq<byte>, at: nat)
    requires at == |s|
    ensures Frames(s[at..]) == [] && Rest(s[at..]) == s[at..]
  {
  }

  lemma HalfSync(env: Env, x: Relay, s: seq<byte>, at: nat)
    requires at + 1 < |s| <= BUFFER_SIZE && s[at + 1] != SYNC
    ensures Frames(s[at..]) == Frames(s[at + 1..]) && Rest(s[at..]) == Rest(s[at + 1..])
    ensures TakeAll(env, x, s[at..]) == TakeAll(env, x, s[at + 1..])
  {
    assert s[at..][1..] == s[at + 1..];
  }

  lemma ShortHere(s: seq<byte>, at: nat)
    requires at < |s| && s[at] == SYNC && (at + 1 < |s| ==> s[at + 1] == SYNC && Incomplete(s[at..]))
    ensures Frames(s[at..]) == [] && Rest(s[at..]) == s[at..]
  {
  }

  lemma SizeHere(s: seq<byte>, at: nat)
    requires at + HEADER <= |s|
    ensures var lo: int, hi: int := s[at + 6], s[at + 7];
      FrameSize(s[at..]) == lo + 0x100 * hi + 9
  {
  }

  lemma FrameHere(env: Env, x: Relay, s: seq<byte>, at: nat)
    requires |s| <= BUFFER_SIZE && SyncAt(s, at) && at + HEADER <= |s| && at + FrameSize(s[at..]) <= |s|
    ensures var n := FrameSize(s[at..]);
      var frame, rest := s[at..at + n], s[at + n..];
      && Frames(s[at..]) == [frame] + Frames(rest) && Rest(s[at..]) == Rest(rest)
      && TakeAll(env, x, s[at..]) == TakeAll(env, Take(env, x, frame), rest)
  {
    ghost var n := FrameSize(s[at..]);
    assert s[at..][..n] == s[at..at + n] && s[at..][n..] == s[at + n..];
    TakeFirst(env, x, s[at..]);
  }
}
