/** Adaptive spreading factor of one link: how the signal average follows the
    samples, and where repeated selection ends up. */
module SpreadingFactor {
  import opened Options

  const SF_MIN := 7
  const SF_MAX := 12
  const DEFAULT_SF := 10
  const SNR_UPGRADE := 8
  const SNR_DOWNGRADE := 0
  const UPGRADE_COUNT := 3
  const DENSITY_UPGRADE_MAX := 5
  const LOSS_THRESHOLD := 16384
  const LOAD_THRESHOLD := 52429

  /** What a table entry remembers of the link. */
  datatype Link = Link(sf: Option<int>, average: int, upgrades: nat, downgrades: nat)

  datatype Load = Load(density: int, utilization: int, loss: int, factor: int)

  function Min(a: int, b: int): int { if a < b then a else b }
  function Max(a: int, b: int): int { if a < b then b else a }

  // ------------------------------------------------------------------
  // Samples
  // ------------------------------------------------------------------

  /** The average moves a quarter of the way, rounding down, within eight bits. */
  function Average(average: int, snr: int): int {
    Max(-128, Min(127, average + (snr - average) / 4))
  }

  function Sample(link: Link, snr: int): Link {
    var average := Average(link.average, snr);
    if average > SNR_UPGRADE then Link(link.sf, average, link.upgrades + 1, 0)
    else if average < SNR_DOWNGRADE then Link(link.sf, average, 0, link.downgrades + 1)
    else Link(link.sf, average, 0, 0)
  }

  /** The same sample n times. */
  function Samples(link: Link, snr: int, n: nat): Link {
    if n == 0 then link else Sample(Samples(link, snr, n - 1), snr)
  }

  predicate Byte(x: int) {
    -128 <= x <= 127
  }

  /** Within three below the sample, the average no longer moves. */
  predicate Settled(average: int, snr: int) {
    snr - 3 <= average <= snr
  }

  lemma SettledStays(average: int, snr: int)
    requires Byte(average) && Byte(snr)
    ensures Average(average, snr) == average <==> Settled(average, snr)
  {
  }

  /** How far the average still is, at most, after n samples. */
  function Distance(n: nat): nat {
    if n == 0 then 255 else (3 * Distance(n - 1) + 3) / 4
  }

  /** It never crosses the sample, and a quarter of the distance goes each time. */
  lemma {:induction false} Closer(link: Link, snr: int, n: nat)
    requires Byte(link.average) && Byte(snr)
    ensures var a := Samples(link, snr, n).average;
            && Byte(a)
            && (link.average <= snr ==> snr - Distance(n) <= a <= snr)
            && (link.average > snr ==> snr <= a <= snr + Above(n))
  {
    if n > 0 {
      Closer(link, snr, n - 1);
      var a := Samples(link, snr, n - 1).average;
      if link.average <= snr {
        QuarterBelow(snr - a, Distance(n - 1));
      } else {
        QuarterAbove(a - snr, Above(n - 1));
      }
    }
  }

  function Above(n: nat): nat {
    if n == 0 then 255 else 3 * Above(n - 1) / 4
  }

  lemma QuarterBelow(d: nat, bound: nat)
    requires d <= bound
    ensures 0 <= d - d / 4 <= (3 * bound + 3) / 4
  {
  }

  lemma QuarterAbove(d: int, bound: nat)
    requires 0 <= d <= bound
    ensures 0 <= d + (-d) / 4 <= 3 * bound / 4
  {
  }

  lemma Next(n: nat, d: nat, a: nat)
    requires Distance(n) == d && Above(n) == a
    ensures Distance(n + 1) == (3 * d + 3) / 4 && Above(n + 1) == 3 * a / 4
  {
  }

  lemma SeventeenSteps()
    ensures Distance(16) == 4 && Distance(17) == 3 && Above(17) == 0
  {
    assert Distance(0) == 255 && Above(0) == 255;
    hide Distance, Above;
    Next(0, 255, 255);
    Next(1, 192, 191);
    Next(2, 144, 143);
    Next(3, 108, 107);
    Next(4, 81, 80);
    Next(5, 61, 60);
    Next(6, 46, 45);
    Next(7, 35, 33);
    Next(8, 27, 24);
    Next(9, 21, 18);
    Next(10, 16, 13);
    Next(11, 12, 9);
    Next(12, 9, 6);
    Next(13, 7, 4);
    Next(14, 6, 3);
    Next(15, 5, 2);
    Next(16, 4, 1);
  }

  /** Seventeen equal samples settle any average for good. */
  lemma {:induction false} SamplesSettle(link: Link, snr: int, n: nat)
    requires Byte(link.average) && Byte(snr) && n >= 17
    ensures Settled(Samples(link, snr, n).average, snr)
    ensures Samples(link, snr, n).average == Samples(link, snr, 17).average
  {
    if n == 17 {
      Closer(link, snr, 17);
      SeventeenSteps();
    } else {
      SamplesSettle(link, snr, n - 1);
      SettledStays(Samples(link, snr, n - 1).average, snr);
    }
  }

  /** The widest gap closes no faster, so sixteen may not do. */
  lemma {:induction false} WidestGap(link: Link, n: nat)
    requires link.average == -128
    ensures Samples(link, 127, n).average == 127 - Distance(n) && Distance(n) <= 255
  {
    if n > 0 {
      WidestGap(link, n - 1);
    }
  }

  lemma SixteenMayNotSettle(link: Link)
    requires link.average == -128
    ensures !Settled(Samples(link, 127, 16).average, 127)
  {
    WidestGap(link, 16);
    SeventeenSteps();
  }

  // ------------------------------------------------------------------
  // Selection
  // ------------------------------------------------------------------

  function Start(sf: Option<int>): int {
    if sf.None? || sf.value < SF_MIN || sf.value > SF_MAX then DEFAULT_SF else sf.value
  }

  predicate InRange(sf: int) {
    SF_MIN <= sf <= SF_MAX
  }

  function Crowded(sf: int, load: Load): int {
    if load.density > 10 || load.utilization > 150 then Min(SF_MAX, sf + 2) else sf
  }

  function Upgraded(sf: int, link: Link, load: Load): int {
    if link.average > SNR_UPGRADE && load.density < DENSITY_UPGRADE_MAX && link.upgrades >= UPGRADE_COUNT && sf > SF_MIN
    then Max(SF_MIN, sf - 1) else sf
  }

  function Lossy(sf: int, load: Load): int {
    if load.utilization > 200 then SF_MAX
    else if load.loss > LOSS_THRESHOLD || load.factor >= LOAD_THRESHOLD then Min(SF_MAX, sf + 1)
    else sf
  }

  function Floor(sf: int, link: Link, load: Load): int {
    var a := if link.average < -5 then SF_MAX else if link.average < 0 then Max(11, sf) else sf;
    var b := if load.density > 10 then Max(11, a) else a;
    if load.factor >= LOAD_THRESHOLD then Max(11, b) else b
  }

  /** One selection: the factor, from the one before. */
  function Select(sf: int, link: Link, load: Load): int {
    Floor(Lossy(Upgraded(Crowded(sf, load), link, load), load), link, load)
  }

  /** Transmission is blocked only under very high utilisation. */
  predicate TxAllowed(load: Load) {
    load.utilization <= 200
  }

  lemma SelectInRange(sf: int, link: Link, load: Load)
    requires InRange(sf)
    ensures InRange(Select(sf, link, load))
  {
  }

  /** A larger factor before never gives a smaller one after. */
  lemma SelectOrdered(x: int, y: int, link: Link, load: Load)
    requires InRange(x) && InRange(y) && x <= y
    ensures Select(x, link, load) <= Select(y, link, load)
  {
    assert Crowded(x, load) <= Crowded(y, load);
    assert Upgraded(Crowded(x, load), link, load) <= Upgraded(Crowded(y, load), link, load);
  }

  /** The factor after n selections under unchanged conditions. */
  function Selects(sf: int, link: Link, load: Load, n: nat): int {
    if n == 0 then sf else Select(Selects(sf, link, load, n - 1), link, load)
  }

  lemma {:induction false} SelectsInRange(sf: int, link: Link, load: Load, n: nat)
    requires InRange(sf)
    ensures InRange(Selects(sf, link, load, n))
  {
    if n > 0 {
      SelectsInRange(sf, link, load, n - 1);
      SelectInRange(Selects(sf, link, load, n - 1), link, load);
    }
  }

  /** A first step up (or none, or down) is followed by no step the other way,
      and every step that moves at all moves by one at least. */
  lemma {:induction false} OneWay(sf: int, link: Link, load: Load, n: nat)
    requires InRange(sf)
    ensures var up := Select(sf, link, load) >= sf;
            var x := Selects(sf, link, load, n);
            var y := Selects(sf, link, load, n + 1);
            if up then x == y || (x < y && y >= sf + n + 1) else x == y || (x > y && y <= sf - n - 1)
  {
    hide Select;
    if n > 0 {
      OneWay(sf, link, load, n - 1);
      var w := Selects(sf, link, load, n - 1);
      var x := Selects(sf, link, load, n);
      SelectsInRange(sf, link, load, n - 1);
      SelectsInRange(sf, link, load, n);
      if w <= x {
        SelectOrdered(w, x, link, load);
      } else {
        SelectOrdered(x, w, link, load);
      }
    }
  }

  /** Whatever the link and the load, five selections settle the factor. */
  lemma {:induction false} SelectionSettles(sf: int, link: Link, load: Load, n: nat)
    requires InRange(sf) && n >= 5
    ensures Selects(sf, link, load, n) == Selects(sf, link, load, 5)
    ensures InRange(Selects(sf, link, load, n))
  {
    SelectsInRange(sf, link, load, n);
    if n > 5 {
      SelectionSettles(sf, link, load, n - 1);
      SelectsInRange(sf, link, load, 6);
      OneWay(sf, link, load, 5);
    }
  }

  // ------------------------------------------------------------------
  // Together
  // ------------------------------------------------------------------

  lemma {:induction false} GoodSamplesCount(link: Link, snr: int, n: nat)
    requires Byte(link.average) && Byte(snr) && snr >= SNR_UPGRADE + 4 && n >= 17
    ensures var l := Samples(link, snr, n); l.average > SNR_UPGRADE && l.upgrades >= n - 16
  {
    SamplesSettle(link, snr, n);
    if n > 17 {
      GoodSamplesCount(link, snr, n - 1);
    }
  }

  /** A link that stays twelve or better on a quiet channel comes down to the
      fastest factor: nineteen samples, then five selections. */
  lemma GoodLinkUpgrades(link: Link, snr: int, load: Load)
    requires Byte(link.average) && Byte(snr) && snr >= SNR_UPGRADE + 4
    requires load.density < DENSITY_UPGRADE_MAX && load.utilization <= 150
    requires load.loss <= LOSS_THRESHOLD && load.factor < LOAD_THRESHOLD
    ensures var l := Samples(link, snr, 19); Selects(Start(l.sf), l, load, 5) == SF_MIN
  {
    GoodSamplesCount(link, snr, 19);
    var l := Samples(link, snr, 19);
    Descends(Start(l.sf), l, load, 5);
  }

  lemma {:induction false} Descends(sf: int, link: Link, load: Load, n: nat)
    requires InRange(sf) && link.average > SNR_UPGRADE && link.upgrades >= UPGRADE_COUNT
    requires load.density < DENSITY_UPGRADE_MAX && load.utilization <= 150
    requires load.loss <= LOSS_THRESHOLD && load.factor < LOAD_THRESHOLD
    ensures Selects(sf, link, load, n) == Max(SF_MIN, sf - n)
  {
    if n > 0 {
      Descends(sf, link, load, n - 1);
    }
  }

  /** A link that stays at minus six or worse uses the slowest factor. */
  lemma BadLinkDowngrades(link: Link, snr: int, load: Load, sf: int)
    requires Byte(link.average) && Byte(snr) && snr <= -6 && InRange(sf)
    ensures Select(sf, Samples(link, snr, 17), load) == SF_MAX
  {
    SamplesSettle(link, snr, 17);
  }
}
