/** The bitrate table of `mcba_net_set_bittiming` and the `u32` timing
    arithmetic of `mcba_net_calc_bittiming`. The device is only told the
    rate in kbps; the segments are recomputed on the host for reporting. */
module BitTiming {
  import opened Wire

  /** `struct can_bittiming` (all fields `u32`). */
  datatype CanBittiming = CanBittiming(
    bitrate: U32, samplePoint: U32, tq: U32,
    propSeg: U32, phaseSeg1: U32, phaseSeg2: U32, sjw: U32, brp: U32)

  /** One case of the switch: the arguments of `mcba_net_calc_bittiming`
      and the value passed to `mcba_usb_xmit_change_bitrate`. */
  datatype Timing = Timing(sjw: U32, prop: U32, seg1: U32, seg2: U32, brp: U32, kbps: U16)

  /** The 18 cases of the switch, in source order. */
  const Table: seq<Timing> := [
    Timing(1, 5, 8, 6, 100, 20),
    Timing(1, 8, 8, 8, 48, 33),
    Timing(1, 8, 7, 4, 40, 50),
    Timing(1, 8, 8, 8, 20, 80),
    Timing(1, 8, 8, 7, 20, 83),
    Timing(1, 1, 5, 3, 40, 100),
    Timing(1, 3, 8, 8, 16, 125),
    Timing(1, 8, 6, 4, 14, 150),
    Timing(1, 8, 6, 4, 12, 175),
    Timing(1, 8, 8, 8, 8, 200),
    Timing(1, 8, 8, 5, 8, 225),
    Timing(1, 3, 8, 8, 8, 250),
    Timing(1, 8, 8, 7, 6, 275),
    Timing(1, 8, 8, 5, 6, 300),
    Timing(1, 3, 8, 8, 4, 500),
    Timing(1, 1, 4, 2, 8, 625),
    Timing(1, 8, 8, 8, 2, 800),
    Timing(1, 3, 8, 8, 2, 1000)
  ]

  /** The rates, in bit/s, that the driver's error message lists as supported. */
  const DocumentedRates: seq<nat> := [
    20000, 33333, 50000, 80000, 83333, 100000, 125000, 150000, 175000,
    200000, 225000, 250000, 275000, 300000, 500000, 625000, 800000, 1000000
  ]

  /** Time quantum in nanoseconds: `(brp * 1000) / (MCBA_CAN_CLOCK / 1000000)`. */
  function Tq(clock: nat, brp: U32): U32
    requires clock >= 1000000
  {
    Wrap32(Wrap32(brp * 1000) / (clock / 1000000))
  }

  /** Number of time quanta per bit: `sjw + prop_seg + phase_seg1 + phase_seg2`. */
  function Quanta(sjw: U32, prop: U32, seg1: U32, seg2: U32): U32 {
    Wrap32(sjw + prop + seg1 + seg2)
  }

  /** Sample point in per mille: `(sjw + prop_seg + phase_seg1) * 1000 / (quanta per bit)`. */
  function SamplePoint(sjw: U32, prop: U32, seg1: U32, seg2: U32): U32
    requires Quanta(sjw, prop, seg1, seg2) != 0
  {
    Wrap32(Wrap32((sjw + prop + seg1) * 1000) / Quanta(sjw, prop, seg1, seg2))
  }

  /** Bit rate in bit/s: `1000000000 / (quanta per bit * tq)`. */
  function Bitrate(clock: nat, sjw: U32, prop: U32, seg1: U32, seg2: U32, brp: U32): U32
    requires clock >= 1000000 && Wrap32(Quanta(sjw, prop, seg1, seg2) * Tq(clock, brp)) != 0
  {
    Wrap32(1000000000 / Wrap32(Quanta(sjw, prop, seg1, seg2) * Tq(clock, brp)))
  }

  /** Both divisions of `mcba_net_calc_bittiming` have a nonzero divisor. */
  predicate Computable(clock: nat, sjw: U32, prop: U32, seg1: U32, seg2: U32, brp: U32) {
    && clock >= 1000000
    && Quanta(sjw, prop, seg1, seg2) != 0
    && Wrap32(Quanta(sjw, prop, seg1, seg2) * Tq(clock, brp)) != 0
  }

  /** `mcba_net_calc_bittiming`: the segments and prescaler are stored as
      given; time quantum, bit rate and sample point are derived in `u32`. */
  function CalcBittiming(clock: nat, sjw: U32, prop: U32, seg1: U32, seg2: U32, brp: U32): (bt: CanBittiming)
    requires Computable(clock, sjw, prop, seg1, seg2, brp)
    ensures bt.sjw == sjw && bt.propSeg == prop && bt.phaseSeg1 == seg1 && bt.phaseSeg2 == seg2 && bt.brp == brp
    ensures bt.tq == Tq(clock, brp)
    ensures bt.bitrate == Bitrate(clock, sjw, prop, seg1, seg2, brp)
    ensures bt.samplePoint == SamplePoint(sjw, prop, seg1, seg2)
  {
    CanBittiming(
      bitrate := Bitrate(clock, sjw, prop, seg1, seg2, brp),
      samplePoint := SamplePoint(sjw, prop, seg1, seg2),
      tq := Tq(clock, brp),
      propSeg := prop, phaseSeg1 := seg1, phaseSeg2 := seg2, sjw := sjw, brp := brp)
  }

  /** Every table entry can be computed at any clock whose time quantum for
      prescaler 2 is not zero. */
  predicate ClockFitsTable(clock: nat) {
    1000000 <= clock && clock / 1000000 <= 2000
  }

  lemma TableComputable(clock: nat, i: nat)
    requires ClockFitsTable(clock) && i < |Table|
    ensures var t := Table[i]; Computable(clock, t.sjw, t.prop, t.seg1, t.seg2, t.brp)
  {
    var t := Table[i];
    assert 2 <= t.brp <= 100 && 8 <= t.sjw + t.prop + t.seg1 + t.seg2 <= 25;
    RowComputable(clock, t.sjw, t.prop, t.seg1, t.seg2, t.brp);
  }

  /** A row with a prescaler of 2 to 100 and 8 to 25 quanta per bit can be
      computed: its time quantum is 1 to 100000 ns and no product wraps. */
  lemma RowComputable(clock: nat, sjw: U32, prop: U32, seg1: U32, seg2: U32, brp: U32)
    requires ClockFitsTable(clock)
    requires 2 <= brp <= 100 && 8 <= sjw + prop + seg1 + seg2 <= 25
    ensures Computable(clock, sjw, prop, seg1, seg2, brp)
  {
    var d := clock / 1000000;
    var x := brp * 1000;
    assert Wrap32(x) == x;
    QuotientRange(x, d);
    var tq := x / d;
    assert Tq(clock, brp) == tq;
    var n := sjw + prop + seg1 + seg2;
    assert Quanta(sjw, prop, seg1, seg2) == n;
    ProductRange(n, tq);
    assert Wrap32(n * tq) == n * tq;
  }

  lemma QuotientRange(x: nat, d: nat)
    requires 1 <= d <= 2000 && 2000 <= x <= 100000
    ensures 1 <= x / d <= 100000
  {
  }

  lemma ProductRange(n: nat, tq: nat)
    requires 8 <= n <= 25 && 1 <= tq <= 100000
    ensures 1 <= n * tq <= 2500000
  {
  }

  function Entry(clock: nat, i: nat): (bt: CanBittiming)
    requires ClockFitsTable(clock) && i < |Table|
  {
    TableComputable(clock, i);
    var t := Table[i];
    CalcBittiming(clock, t.sjw, t.prop, t.seg1, t.seg2, t.brp)
  }

  /** Position of `x` in `s`, the first one if any. */
  function IndexOf(s: seq<nat>, x: nat): (r: Option<nat>)
    ensures r.Some? ==> r.value < |s| && s[r.value] == x && forall j :: 0 <= j < r.value ==> s[j] != x
    ensures r.None? <==> x !in s
  {
    if |s| == 0 then None
    else if s[0] == x then Some(0)
    else match IndexOf(s[1..], x)
      case None => None
      case Some(k) => Some(k + 1)
  }

  /** Outcome of `mcba_net_set_bittiming`: the new timing and the kbps value
      of the change-bitrate command, or `-EINVAL`. */
  datatype Outcome = Applied(bt: CanBittiming, kbps: U16) | Unsupported

  /** The switch on the requested `bt->bitrate` over the 18 header codes. */
  function SetBittiming(h: Header, requested: nat): (r: Outcome)
    requires h.Valid() && ClockFitsTable(h.canClock)
    ensures r.Applied? <==> requested in h.bitrates
    ensures r.Applied? ==>
      exists i :: 0 <= i < |Table| && h.bitrates[i] == requested &&
        r == Applied(Entry(h.canClock, i), Table[i].kbps)
  {
    match IndexOf(h.bitrates, requested)
    case None => Unsupported
    case Some(i) => Applied(Entry(h.canClock, i), Table[i].kbps)
  }

  /** Applied outcomes are determined by the code's position: distinct codes
      give distinct table rows, so each supported rate has one timing. */
  lemma SetBittimingRow(h: Header, i: nat)
    requires h.Valid() && ClockFitsTable(h.canClock) && i < |Table|
    ensures SetBittiming(h, h.bitrates[i]) == Applied(Entry(h.canClock, i), Table[i].kbps)
  {
    var r := SetBittiming(h, h.bitrates[i]);
    var j :| 0 <= j < |Table| && h.bitrates[j] == h.bitrates[i] && r == Applied(Entry(h.canClock, j), Table[j].kbps);
    assert i == j;
  }

  /** The kbps values the device is told, in table order. */
  lemma TableKbps()
    ensures seq(|Table|, i requires 0 <= i < |Table| => Table[i].kbps) ==
            [20, 33, 50, 80, 83, 100, 125, 150, 175, 200, 225, 250, 275, 300, 500, 625, 800, 1000]
  {
  }

  lemma MulMono(a: nat, b: nat, c: nat)
    requires a < b && c > 0
    ensures a * c < b * c
  {
  }

  lemma DivBelow(x: nat, d: nat, q: nat)
    requires d > 0 && x < q * d
    ensures x / d < q
  {
  }

  /** Whenever phase segment 2 is not empty and the `u32` products do not
      wrap, the sample point lies strictly inside the bit (below 1000 per mille). */
  lemma {:induction false} SamplePointBelowPermille(sjw: U32, prop: U32, seg1: U32, seg2: U32)
    requires seg2 >= 1
    requires (sjw + prop + seg1 + seg2) * 1000 < U32_MOD
    ensures SamplePoint(sjw, prop, seg1, seg2) < 1000
  {
    var a := sjw + prop + seg1;
    var n := a + seg2;
    assert Quanta(sjw, prop, seg1, seg2) == n;
    PermilleBelow(a, n);
  }

  /** `a * 1000 / n` in `u32` is below 1000 when `a < n` and `n * 1000` fits. */
  lemma PermilleBelow(a: nat, n: nat)
    requires a < n && n * 1000 < U32_MOD
    ensures Wrap32(Wrap32(a * 1000) / n) < 1000
  {
    MulMono(a, n, 1000);
    var x := a * 1000;
    assert Wrap32(x) == x;
    DivBelow(x, n, 1000);
    assert Wrap32(x / n) == x / n;
  }

  /** Every table entry reports a sample point below 1000 per mille. */
  lemma TableSamplePoints(clock: nat, i: nat)
    requires ClockFitsTable(clock) && i < |Table|
    ensures Entry(clock, i).samplePoint < 1000
  {
    var t := Table[i];
    TableComputable(clock, i);
    SamplePointBelowPermille(t.sjw, t.prop, t.seg1, t.seg2);
  }

  /** The rates the table entries report at the 40 MHz clock that the
      `MCBA_BITRATE_*_40MHZ` names state, in table order. */
  const ReportedRates40MHz: seq<nat> := [
    20000, 33333, 50000, 80000, 83333, 100000, 125000, 150375, 175438,
    200000, 227272, 250000, 277777, 303030, 500000, 625000, 800000, 1000000
  ]

  /** The bit rate of one row at 40 MHz, given the row's intermediate
      values (time quantum `tq`, quanta per bit `n`); no `u32` operation wraps. */
  lemma RowAt40MHz(sjw: U32, prop: U32, seg1: U32, seg2: U32, brp: U32, tq: nat, n: nat, rate: nat)
    requires brp * 1000 < U32_MOD && (brp * 1000) / 40 == tq
    requires sjw + prop + seg1 + seg2 == n && 0 < n * tq < U32_MOD
    requires 1000000000 / (n * tq) == rate
    ensures Computable(40000000, sjw, prop, seg1, seg2, brp)
    ensures CalcBittiming(40000000, sjw, prop, seg1, seg2, brp).bitrate == rate
  {
    assert 40000000 / 1000000 == 40;
    assert Tq(40000000, brp) == tq;
    assert Quanta(sjw, prop, seg1, seg2) == n;
    assert Bitrate(40000000, sjw, prop, seg1, seg2, brp) == rate;
  }

  lemma ReportedBitrateEntry(i: nat)
    requires i < |Table|
    ensures Entry(40000000, i).bitrate == ReportedRates40MHz[i]
  {
    if i < 9 {
      ReportedBitrateLow(i);
    } else {
      ReportedBitrateHigh(i);
    }
  }

  lemma ReportedBitrateLow(i: nat)
    requires i < 9
    ensures Entry(40000000, i).bitrate == ReportedRates40MHz[i]
  {
    if i == 0 {
      assert Table[i] == Timing(1, 5, 8, 6, 100, 20);
      RowAt40MHz(1, 5, 8, 6, 100, 2500, 20, 20000);
    } else if i == 1 {
      assert Table[i] == Timing(1, 8, 8, 8, 48, 33);
      RowAt40MHz(1, 8, 8, 8, 48, 1200, 25, 33333);
    } else if i == 2 {
      assert Table[i] == Timing(1, 8, 7, 4, 40, 50);
      RowAt40MHz(1, 8, 7, 4, 40, 1000, 20, 50000);
    } else if i == 3 {
      assert Table[i] == Timing(1, 8, 8, 8, 20, 80);
      RowAt40MHz(1, 8, 8, 8, 20, 500, 25, 80000);
    } else if i == 4 {
      assert Table[i] == Timing(1, 8, 8, 7, 20, 83);
      RowAt40MHz(1, 8, 8, 7, 20, 500, 24, 83333);
    } else if i == 5 {
      assert Table[i] == Timing(1, 1, 5, 3, 40, 100);
      RowAt40MHz(1, 1, 5, 3, 40, 1000, 10, 100000);
    } else if i == 6 {
      assert Table[i] == Timing(1, 3, 8, 8, 16, 125);
      RowAt40MHz(1, 3, 8, 8, 16, 400, 20, 125000);
    } else if i == 7 {
      assert Table[i] == Timing(1, 8, 6, 4, 14, 150);
      RowAt40MHz(1, 8, 6, 4, 14, 350, 19, 150375);
    } else {
      assert Table[i] == Timing(1, 8, 6, 4, 12, 175);
      RowAt40MHz(1, 8, 6, 4, 12, 300, 19, 175438);
    }
  }

  lemma ReportedBitrateHigh(i: nat)
    requires 9 <= i < |Table|
    ensures Entry(40000000, i).bitrate == ReportedRates40MHz[i]
  {
    if i == 9 {
      assert Table[i] == Timing(1, 8, 8, 8, 8, 200);
      RowAt40MHz(1, 8, 8, 8, 8, 200, 25, 200000);
    } else if i == 10 {
      assert Table[i] == Timing(1, 8, 8, 5, 8, 225);
      RowAt40MHz(1, 8, 8, 5, 8, 200, 22, 227272);
    } else if i == 11 {
      assert Table[i] == Timing(1, 3, 8, 8, 8, 250);
      RowAt40MHz(1, 3, 8, 8, 8, 200, 20, 250000);
    } else if i == 12 {
      assert Table[i] == Timing(1, 8, 8, 7, 6, 275);
      RowAt40MHz(1, 8, 8, 7, 6, 150, 24, 277777);
    } else if i == 13 {
      assert Table[i] == Timing(1, 8, 8, 5, 6, 300);
      RowAt40MHz(1, 8, 8, 5, 6, 150, 22, 303030);
    } else if i == 14 {
      assert Table[i] == Timing(1, 3, 8, 8, 4, 500);
      RowAt40MHz(1, 3, 8, 8, 4, 100, 20, 500000);
    } else if i == 15 {
      assert Table[i] == Timing(1, 1, 4, 2, 8, 625);
      RowAt40MHz(1, 1, 4, 2, 8, 200, 8, 625000);
    } else if i == 16 {
      assert Table[i] == Timing(1, 8, 8, 8, 2, 800);
      RowAt40MHz(1, 8, 8, 8, 2, 50, 25, 800000);
    } else {
      assert Table[i] == Timing(1, 3, 8, 8, 2, 1000);
      RowAt40MHz(1, 3, 8, 8, 2, 50, 20, 1000000);
    }
  }

  /** At 40 MHz the rate each entry reports is never below the documented
      rate and at most about one percent above it; it is exact for 13 of
      the 18 entries. */
  lemma ReportedBitrateAt40MHz(i: nat)
    requires i < |Table|
    ensures DocumentedRates[i] <= Entry(40000000, i).bitrate
    ensures (Entry(40000000, i).bitrate - DocumentedRates[i]) * 99 <= DocumentedRates[i]
    ensures i !in {7, 8, 10, 12, 13} ==> Entry(40000000, i).bitrate == DocumentedRates[i]
  {
    ReportedBitrateEntry(i);
  }
}
