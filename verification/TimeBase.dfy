/** The emulator's time base: packet timestamps become increments of the time at which packets are due
    (Nephex/nephex_emulator.cc:61-94). */
module TimeBase {
  import opened Bytes

  datatype Stamp = Stamp(secs: u32, msecs: u16)

  /** `running` is `TO.Set()`; `total` the sum, in milliseconds, of all that was passed to `TO.Add`; `aborted` tells
      that the assertion in the code has failed, after which nothing happens any more. */
  datatype Base = Base(running: bool, last: Stamp, total: int, aborted: bool)

  function Millis(s: Stamp): nat {
    s.secs * 1000 + s.msecs
  }

  predicate Later(a: Stamp, b: Stamp) {
    a.secs > b.secs || (a.secs == b.secs && a.msecs > b.msecs)
  }

  /** The code's assertion, which is reached only when a second must be borrowed. */
  predicate CanBorrow(last: Stamp, s: Stamp) {
    Later(s, last) && s.msecs < last.msecs ==> s.msecs + 1000 > last.msecs
  }

  /** The first stamp starts the clock; a later one moves it on; any other is ignored. */
  function Examine(b: Base, s: Stamp): Base {
    if b.aborted then b
    else if !b.running then Base(true, s, 0, false)
    else if !CanBorrow(b.last, s) then b.(aborted := true)
    else if Later(s, b.last) then Base(true, s, b.total + Millis(s) - Millis(b.last), false)
    else b
  }

  class Ingest {
    var running: bool
    var lastSecs: u32
    var lastMsecs: u32
    var aborted: bool
    ghost var total: int

    ghost predicate Valid()
      reads this
    {
      lastMsecs < 0x1_0000
    }

    ghost function State(): Base
      requires Valid()
      reads this
    {
      Base(running, Stamp(lastSecs, lastMsecs), total, aborted)
    }

    constructor ()
      ensures Valid() && !running && !aborted
    {
      running, lastSecs, lastMsecs, aborted, total := false, 0, 0, false, 0;
    }

    /** The part of `protocol_input` between a packet's timestamp and the question whether the packet is due. No
        subtraction goes below zero, and what is handed to `TO.Add` is the distance between the stamps. */
    method ExaminePacket(secs: u32, msecs: u16)
      requires Valid()
      modifies this
      ensures Valid() && State() == Examine(old(State()), Stamp(secs, msecs))
    {
      if aborted {
        return;
      }
      if !running {
        lastSecs, lastMsecs := secs, msecs;
        running, total := true, 0;
      }
      if secs > lastSecs || (secs == lastSecs && msecs > lastMsecs) {
        var dMsecs: u32, dSecs: u32;
        if msecs < lastMsecs {
          if !(msecs + 1000 > lastMsecs) {
            aborted := true;
            return;
          }
          dMsecs := msecs + 1000 - lastMsecs;
          dSecs := secs - lastSecs - 1;
        } else {
          dMsecs := msecs - lastMsecs;
          dSecs := secs - lastSecs;
        }
        lastSecs, lastMsecs := secs, msecs;
        total := total + (dSecs * 1000 + dMsecs);
      }
    }
  }

  // --- Runs ---

  function ExamineAll(b: Base, stamps: seq<Stamp>): Base
    decreases |stamps|
  {
    if stamps == [] then b else ExamineAll(Examine(b, stamps[0]), stamps[1..])
  }

  /** The latest of `first` and the stamps. */
  function Latest(first: Stamp, stamps: seq<Stamp>): Stamp
    decreases |stamps|
  {
    if stamps == [] then first
    else Latest(if Later(stamps[0], first) then stamps[0] else first, stamps[1..])
  }

  lemma {:induction false} LatestIsGreatest(first: Stamp, stamps: seq<Stamp>)
    ensures var m := Latest(first, stamps);
      && (m == first || m in stamps)
      && !Later(first, m)
      && forall s | s in stamps :: !Later(s, m)
    decreases |stamps|
  {
    if stamps != [] {
      LatestIsGreatest(if Later(stamps[0], first) then stamps[0] else first, stamps[1..]);
    }
  }

  /** The increments telescope: as long as no assertion fails, their sum is the distance from the first stamp to the
      latest, whatever order the stamps come in and however often. */
  lemma {:induction false} IncrementsTelescope(b: Base, stamps: seq<Stamp>)
    requires b.running && !ExamineAll(b, stamps).aborted
    ensures ExamineAll(b, stamps).running
    ensures ExamineAll(b, stamps).last == Latest(b.last, stamps)
    ensures ExamineAll(b, stamps).total == b.total + Millis(Latest(b.last, stamps)) - Millis(b.last)
    decreases |stamps|
  {
    if stamps != [] {
      if Examine(b, stamps[0]).aborted {
        AbortedForGood(Examine(b, stamps[0]), stamps[1..]);
      }
      IncrementsTelescope(Examine(b, stamps[0]), stamps[1..]);
    }
  }

  lemma {:induction false} AbortedForGood(b: Base, stamps: seq<Stamp>)
    requires b.aborted
    ensures ExamineAll(b, stamps) == b
    decreases |stamps|
  {
    if stamps != [] {
      AbortedForGood(b, stamps[1..]);
    }
  }

  ghost predicate InRange(stamps: seq<Stamp>) {
    forall s | s in stamps :: s.msecs < 1000
  }

  lemma {:induction false} InRangeNeverAborts(b: Base, stamps: seq<Stamp>)
    requires InRange(stamps) && !b.aborted && (b.running ==> b.last.msecs < 1000)
    ensures !ExamineAll(b, stamps).aborted
    decreases |stamps|
  {
    if stamps != [] {
      assert stamps[0] in stamps;
      InRangeNeverAborts(Examine(b, stamps[0]), stamps[1..]);
    }
  }

  /** With milliseconds below 1000, repeats and backward steps included: the assertion never fails, and the sum of the
      increments is the greatest timestamp less the first. */
  lemma ClockIsExact(b: Base, first: Stamp, stamps: seq<Stamp>)
    requires !b.running && !b.aborted && InRange([first] + stamps)
    ensures var e := ExamineAll(b, [first] + stamps);
      && !e.aborted
      && Millis(first) + e.total == Millis(e.last)
      && (e.last == first || e.last in stamps)
      && Millis(first) <= Millis(e.last)
      && forall s | s in stamps :: Millis(s) <= Millis(e.last)
  {
    ghost var start := Examine(b, first);
    assert ([first] + stamps)[1..] == stamps;
    assert first in [first] + stamps;
    forall s | s in stamps
      ensures s in [first] + stamps
    {
    }
    InRangeNeverAborts(start, stamps);
    IncrementsTelescope(start, stamps);
    LatestIsGreatest(first, stamps);
    forall s | s in stamps
      ensures Millis(s) <= Millis(Latest(first, stamps))
    {
      OrderOfMillis(s, Latest(first, stamps));
    }
    OrderOfMillis(first, Latest(first, stamps));
  }

  lemma OrderOfMillis(a: Stamp, m: Stamp)
    requires a.msecs < 1000 && m.msecs < 1000 && !Later(a, m)
    ensures Millis(a) <= Millis(m)
  {
  }

  /** A packet that is held and examined again adds nothing. */
  lemma ExaminingAgainAddsNothing(b: Base, s: Stamp)
    ensures Examine(Examine(b, s), s) == Examine(b, s)
  {
  }

  /** What makes the assertion fail: a stamp of a later second that lies a thousand milliseconds or more below the
      latest one. */
  predicate Breaks(s: Stamp, latest: Stamp) {
    Later(s, latest) && s.msecs + 1000 <= latest.msecs
  }

  /** The assertion fails on a run if and only if some stamp breaks it against the latest of the stamps before it. */
  lemma AbortsExactly(b: Base, first: Stamp, stamps: seq<Stamp>)
    requires !b.running && !b.aborted
    ensures ExamineAll(b, [first] + stamps).aborted
            <==> exists i | 0 <= i < |stamps| :: Breaks(stamps[i], Latest(first, stamps[..i]))
  {
    assert ([first] + stamps)[1..] == stamps;
    RunningAbortsExactly(Examine(b, first), stamps);
  }

  lemma {:induction false} RunningAbortsExactly(b: Base, stamps: seq<Stamp>)
    requires b.running && !b.aborted
    ensures ExamineAll(b, stamps).aborted
            <==> exists i | 0 <= i < |stamps| :: Breaks(stamps[i], Latest(b.last, stamps[..i]))
    decreases |stamps|
  {
    if stamps != [] {
      ghost var c, rest := Examine(b, stamps[0]), stamps[1..];
      assert stamps[..0] == [];
      if Breaks(stamps[0], Latest(b.last, stamps[..0])) {
        AbortedForGood(c, rest);
      } else {
        RunningAbortsExactly(c, rest);
        forall i | 0 <= i < |rest|
          ensures Breaks(rest[i], Latest(c.last, rest[..i])) == Breaks(stamps[i + 1], Latest(b.last, stamps[..i + 1]))
        {
          assert stamps[..i + 1][1..] == rest[..i];
        }
        ShiftWitness(b.last, c.last, stamps);
      }
    }
  }

  lemma ShiftWitness(first: Stamp, next: Stamp, stamps: seq<Stamp>)
    requires stamps != [] && !Breaks(stamps[0], Latest(first, stamps[..0]))
    requires forall i | 0 <= i < |stamps[1..]| ::
      Breaks(stamps[1..][i], Latest(next, stamps[1..][..i])) == Breaks(stamps[i + 1], Latest(first, stamps[..i + 1]))
    ensures (exists i | 0 <= i < |stamps| :: Breaks(stamps[i], Latest(first, stamps[..i])))
       <==> (exists i | 0 <= i < |stamps[1..]| :: Breaks(stamps[1..][i], Latest(next, stamps[1..][..i])))
  {
    if i :| 0 <= i < |stamps| && Breaks(stamps[i], Latest(first, stamps[..i])) {
      assert i != 0;
      assert Breaks(stamps[1..][i - 1], Latest(next, stamps[1..][..i - 1]));
    }
    if i :| 0 <= i < |stamps[1..]| && Breaks(stamps[1..][i], Latest(next, stamps[1..][..i])) {
      assert Breaks(stamps[i + 1], Latest(first, stamps[..i + 1]));
    }
  }

  /** It does fail: on a stamp with a thousand milliseconds, followed by the next second. */
  lemma OutOfRangeAborts(b: Base)
    requires !b.running && !b.aborted
    ensures ExamineAll(b, [Stamp(1, 1000)] + [Stamp(2, 0)]).aborted
  {
    AbortsExactly(b, Stamp(1, 1000), [Stamp(2, 0)]);
    assert Breaks([Stamp(2, 0)][0], Latest(Stamp(1, 1000), [Stamp(2, 0)][..0]));
  }
}
