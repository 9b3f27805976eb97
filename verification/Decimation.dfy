/** Decimation per packet type (APID) in the Nephex relay (Nephex/nephex_export.cc:11-79, 235-242). */
module Decimation {
  import opened Bytes

  const MAX_APID := 151

  /** A row of the table; `toSkip` is `n_to_skip`. */
  datatype Def = Def(size: u16, rate: u16, toSkip: u16)

  function NewDef(size: u16, rate: u16): Def {
    Def(size, rate, if rate > 0 then 1 else 0)
  }

  /** The size and the decimation rate of each packet type, both 0 for the undefined ones. */
  function Row(apid: nat): (u16, u16) {
    match apid
    case 1 => (28, 20)    // ACCEL
    case 2 => (36, 10)    // SCI
    case 3 => (88, 20)    // STATUS
    case 4 => (20, 20)    // HSK
    case 5 => (20, 4)     // HTR
    case 6 => (96, 0)     // CFG
    case 7 => (36, 0)     // VER
    case 8 => (80, 20)    // TASK
    case 132 => (36, 0)   // NEPH_VER
    case 133 => (12, 20)  // NEPH_STATUS
    case 134 => (4, 0)    // NEPH_AD4684_REG
    case 135 => (8, 20)   // NEPH_AD4684_ADC
    case 136 => (32, 20)  // NEPH_AD7490
    case 137 => (12, 20)  // NEPH_DAC
    case 138 => (8, 0)    // NEPH_GPIO
    case 139 => (8, 0)    // NEPH_MEM_READ
    case 140 => (208, 0)  // NEPH_MEM_DUMP
    case 141 => (72, 0)   // NEPH_TEC_PID
    case 142 => (24, 0)   // NEPH_TEC_PID_PARAM
    case 143 => (4, 1)    // NEPH_LASER_POWER
    case 144 => (12, 0)   // NEPH_LASER_PWR_CTRL
    case 145 => (44, 0)   // NEPH_STATS_1
    case 146 => (44, 0)   // NEPH_STATS_2
    case 147 => (80, 0)   // NEPH_AC_1
    case 148 => (80, 0)   // NEPH_AC_2
    case 149 => (208, 4)  // NEPH_PULSE
    case 150 => (204, 4)  // NEPH_DARK_1
    case 151 => (204, 4)  // NEPH_DARK_2
    case _ => (0, 0)
  }

  type Table = d: seq<Def> | |d| == MAX_APID + 1 witness seq(MAX_APID + 1, _ => Def(0, 0, 0))

  predicate Transmits(d: Def) {
    d.size > 0 && d.rate > 0
  }

  /** `OK_to_transmit`: the verdict and the table after it. A counter at 0 wraps round; none ever is. */
  function Ask(defs: Table, apid: nat): (Table, bool) {
    if apid > MAX_APID || !Transmits(defs[apid]) then (defs, false)
    else
      var d := defs[apid];
      var left := (d.toSkip - 1) % 0x1_0000;
      if left == 0 then (defs[apid := d.(toSkip := d.rate)], true)
      else (defs[apid := d.(toSkip := left)], false)
  }

  class APid {
    const defs: array<Def>

    /** The counters run; sizes and rates stay what the table says. */
    ghost predicate Valid()
      reads this, defs
    {
      && defs.Length == MAX_APID + 1
      && forall i | 0 <= i <= MAX_APID :: (defs[i].size, defs[i].rate) == Row(i)
    }

    ghost function Rows(): Table
      requires defs.Length == MAX_APID + 1
      reads this, defs
    {
      defs[..]
    }

    constructor ()
      ensures Valid() && fresh(defs)
      ensures IsFirstTable(Rows())
    {
      defs := new Def[MAX_APID + 1];
      new;
      for i := 0 to MAX_APID + 1
        invariant forall j | 0 <= j < i :: defs[j] == NewDef(Row(j).0, Row(j).1)
      {
        defs[i] := NewDef(Row(i).0, Row(i).1);
      }
    }

    /** The size the type was defined with, however much has been forwarded since; 0 for an undefined type and for one
        beyond the table. */
    method GetSize(apid: nat) returns (size: u16)
      requires Valid()
      ensures size == Row(apid).0
    {
      if apid > MAX_APID {
        return 0;
      }
      size := defs[apid].size;
    }

    method OkToTransmit(apid: nat) returns (ok: bool)
      requires Valid()
      modifies defs
      ensures Valid() && (Rows(), ok) == Ask(old(Rows()), apid)
    {
      if apid > MAX_APID {
        return false;
      }
      var d := defs[apid];
      if d.size == 0 || d.rate == 0 {
        return false;
      }
      var left := (d.toSkip - 1) % 0x1_0000;
      if left == 0 {
        defs[apid] := d.(toSkip := d.rate);
        return true;
      }
      defs[apid] := d.(toSkip := left);
      return false;
    }
  }

  // --- Runs ---

  /** A packet arrives; only while the exporter is clear to send is the table asked. */
  datatype Arrival = Arrival(apid: nat, open: bool)

  function Decide(defs: Table, a: Arrival): (Table, bool) {
    if a.open then Ask(defs, a.apid) else (defs, false)
  }

  function After(defs: Table, arrivals: seq<Arrival>): Table {
    if arrivals == [] then defs
    else Decide(After(defs, arrivals[..|arrivals| - 1]), arrivals[|arrivals| - 1]).0
  }

  /** Was the last of these arrivals forwarded? */
  predicate LastForwarded(defs: Table, arrivals: seq<Arrival>)
    requires arrivals != []
  {
    Decide(After(defs, arrivals[..|arrivals| - 1]), arrivals[|arrivals| - 1]).1
  }

  /** How often packets of type `apid` arrived while the exporter was clear to send. */
  function Count(arrivals: seq<Arrival>, apid: nat): nat {
    if arrivals == [] then 0
    else
      var a := arrivals[|arrivals| - 1];
      Count(arrivals[..|arrivals| - 1], apid) + (if a.open && a.apid == apid then 1 else 0)
  }

  /** The counter after `k` such arrivals. */
  function SkipAfter(k: nat, rate: u16): nat
    requires rate > 0
  {
    if k % rate == 0 then 1 else rate + 1 - k % rate
  }

  ghost predicate IsNew(defs: Table) {
    forall i | 0 <= i <= MAX_APID :: defs[i].toSkip == (if defs[i].rate > 0 then 1 else 0)
  }

  /** The table as the constructor leaves it. */
  ghost predicate IsFirstTable(defs: Table) {
    forall i | 0 <= i <= MAX_APID :: defs[i] == NewDef(Row(i).0, Row(i).1)
  }

  /** Only fourteen types are ever forwarded; of these, laser power packets all are. */
  lemma TransmittedTypes(defs: Table, apid: nat)
    requires IsFirstTable(defs) && apid <= MAX_APID
    ensures Transmits(defs[apid]) <==> apid in {1, 2, 3, 4, 5, 8, 133, 135, 136, 137, 143, 149, 150, 151}
    ensures Transmits(defs[apid]) && defs[apid].rate == 1 <==> apid == 143
    ensures IsNew(defs)
  {
  }

  lemma SkipStep(k: nat, rate: u16)
    requires rate > 0
    ensures 1 <= SkipAfter(k, rate) <= rate
    ensures SkipAfter(k, rate) == 1 <==> k % rate == 0
    ensures SkipAfter(k + 1, rate) == (if k % rate == 0 then rate else SkipAfter(k, rate) - 1)
  {
    NextRemainder(k, rate);
  }

  lemma NextRemainder(k: nat, d: nat)
    requires d > 0
    ensures (k + 1) % d == (if k % d == d - 1 then 0 else k % d + 1)
    ensures (k + 1) / d == (if k % d == d - 1 then k / d + 1 else k / d)
  {
    ghost var q, r := k / d, k % d;
    assert k == q * d + r;
    if r == d - 1 {
      assert k + 1 == (q + 1) * d + 0;
      QuotientIsUnique(k + 1, d, q + 1, 0);
    } else {
      assert k + 1 == q * d + (r + 1);
      QuotientIsUnique(k + 1, d, q, r + 1);
    }
  }

  lemma QuotientIsUnique(n: nat, d: nat, q: nat, r: nat)
    requires d > 0 && r < d && n == q * d + r
    ensures n / d == q && n % d == r
  {
    ghost var q1, r1 := n / d, n % d;
    assert q1 * d + r1 == q * d + r;
    if q1 > q {
      AtLeastOneMore(q1, q, d);
    } else if q1 < q {
      AtLeastOneMore(q, q1, d);
    }
  }

  lemma AtLeastOneMore(a: nat, b: nat, d: nat)
    requires a > b
    ensures a * d >= b * d + d
  {
    ghost var z := a - b - 1;
    assert a * d == (b + 1 + z) * d == b * d + d + z * d;
  }

  /** Each type's counter depends on its own arrivals alone, however the types are interleaved and whenever the exporter
      is blocked. */
  lemma {:induction false} CounterOfEachType(defs: Table, arrivals: seq<Arrival>, apid: nat)
    requires IsNew(defs) && apid <= MAX_APID
    ensures var d := After(defs, arrivals)[apid];
      && d.size == defs[apid].size && d.rate == defs[apid].rate
      && d.toSkip == (if Transmits(d) then SkipAfter(Count(arrivals, apid), d.rate) else defs[apid].toSkip)
    decreases |arrivals|
  {
    hide SkipAfter, IsNew;
    NoneYet(defs, apid);
    if arrivals != [] {
      ghost var init, a := arrivals[..|arrivals| - 1], arrivals[|arrivals| - 1];
      CounterOfEachType(defs, init, apid);
      if Transmits(defs[apid]) {
        SkipStep(Count(init, apid), defs[apid].rate);
      }
      hide After, Count;
      OneArrival(After(defs, init), a, apid, Count(init, apid));
    }
  }

  lemma NoneYet(defs: Table, apid: nat)
    requires IsNew(defs) && apid <= MAX_APID
    ensures Transmits(defs[apid]) ==> defs[apid].toSkip == SkipAfter(0, defs[apid].rate)
  {
  }

  lemma OneArrival(defs: Table, a: Arrival, apid: nat, k: nat)
    requires apid <= MAX_APID
    requires Transmits(defs[apid]) ==> defs[apid].toSkip == SkipAfter(k, defs[apid].rate)
    ensures var d, e := defs[apid], Decide(defs, a).0[apid];
      && e.size == d.size && e.rate == d.rate
      && e.toSkip == (if Transmits(d) && a.open && a.apid == apid then SkipAfter(k + 1, d.rate) else d.toSkip)
  {
    if Transmits(defs[apid]) {
      SkipStep(k, defs[apid].rate);
    }
  }

  /** A packet is forwarded exactly when the exporter is clear to send, its type is one that transmits, and it is the
      first, (d+1)-st, (2d+1)-st and so on of its type to find the exporter clear. */
  lemma DecimationIsExact(defs: Table, arrivals: seq<Arrival>, a: Arrival)
    requires IsNew(defs)
    ensures LastForwarded(defs, arrivals + [a])
            <==> a.open && a.apid <= MAX_APID && Transmits(defs[a.apid])
                 && Count(arrivals, a.apid) % defs[a.apid].rate == 0
  {
    assert (arrivals + [a])[..|arrivals|] == arrivals;
    if a.apid <= MAX_APID {
      CounterOfEachType(defs, arrivals, a.apid);
      if Transmits(defs[a.apid]) {
        SkipStep(Count(arrivals, a.apid), defs[a.apid].rate);
      }
    }
  }

  /** How many of the arrivals of type `apid` were forwarded. */
  function Forwarded(defs: Table, arrivals: seq<Arrival>, apid: nat): nat {
    if arrivals == [] then 0
    else Forwarded(defs, arrivals[..|arrivals| - 1], apid)
         + (if arrivals[|arrivals| - 1].apid == apid && LastForwarded(defs, arrivals) then 1 else 0)
  }

  function CeilDiv(k: nat, d: nat): nat
    requires d > 0
  {
    if k % d == 0 then k / d else k / d + 1
  }

  /** After `k` arrivals that found the exporter clear, `k / d` rounded up were forwarded. */
  lemma {:induction false} ForwardedCount(defs: Table, arrivals: seq<Arrival>, apid: nat)
    requires IsNew(defs) && apid <= MAX_APID && Transmits(defs[apid])
    ensures Forwarded(defs, arrivals, apid) == CeilDiv(Count(arrivals, apid), defs[apid].rate)
    decreases |arrivals|
  {
    if arrivals != [] {
      ghost var init, a := arrivals[..|arrivals| - 1], arrivals[|arrivals| - 1];
      ForwardedCount(defs, init, apid);
      assert arrivals == init + [a];
      DecimationIsExact(defs, init, a);
      NextRemainder(Count(init, apid), defs[apid].rate);
    }
  }
}
