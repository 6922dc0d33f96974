/** Conversion of GPU timer deltas to nanoseconds: `include/rogue/rgx_fwif_km.h`, with the
    factor of `services/server/devices/rgxtimecorr.h`. The timer ticks once in 256 clocks. */
module TimeCorr {

  const TWO_64: nat := 0x1_0000_0000_0000_0000
  const TWO_44: nat := 0x1000_0000_0000
  type U64 = x: nat | x < 0x1_0000_0000_0000_0000
  type Hz = x: nat | x < 0x1_0000_0000

  const SCALE: nat := 0x10_0000          // 2^20, the accuracy shift
  const TICK_SCALE: nat := 256_000_000   // clocks in a tick, times 10^6
  const NS_SCALE: nat := 256_000_000_000 // clocks in a tick, times 10^9
  const FIVE_HOURS: nat := 18_000_000_000_000
  const MAX_KHZ: nat := 4_294_967

  /** `RGXFWIF_CONVERT_TO_KHZ`, whose sum is one of 32 bits. */
  function Khz(clock: Hz): (khz: nat)
    ensures khz <= MAX_KHZ
  {
    (clock + 500) % 0x1_0000_0000 / 1000
  }

  /** `RGXTimeCorrGetConversionFactor`; 0 tells that the clock is too slow. */
  function ConversionFactor(clock: Hz): U64 {
    if Khz(clock) == 0 then 0 else TICK_SCALE * SCALE / Khz(clock)
  }

  /** `RGXFWIF_GET_DELTA_OSTIME_NS`, with the wrap-around of the 64-bit product. */
  function DeltaNs(deltaCR: U64, factor: U64): nat {
    deltaCR * factor % TWO_64 / SCALE
  }

  /** The nanoseconds that `ticks` really take at a clock in Hz. */
  function TrueNs(ticks: nat, clock: Hz): (time: real)
    requires clock > 0
    ensures time >= 0.0
  {
    (ticks * NS_SCALE) as real / clock as real
  }

  /** A time as it looks when the clock is taken in whole kHz, as the factor takes it. */
  function SeenNs(time: real, clock: Hz): real
    requires Khz(clock) > 0
  {
    time * clock as real / (1000 * Khz(clock)) as real
  }

  /** The clock is rounded by at most half a kHz; the sum does not wrap. */
  lemma KhzIsNear(clock: Hz)
    requires Khz(clock) > 0
    ensures clock - 499 <= 1000 * Khz(clock) <= clock + 500 && clock >= 500
  {
  }

  lemma MulMonotone(a: nat, b: nat, c: nat)
    requires a <= b
    ensures a * c <= b * c && c * a <= c * b
  {
  }

  lemma MulDiv(x: nat, y: nat)
    requires y > 0
    ensures x / y * y <= x < x / y * y + y
  {
  }

  lemma QuotientAtLeast(x: nat, y: nat, q: nat)
    requires y > 0 && q * y <= x
    ensures q <= x / y
  {
    MulDiv(x, y);
    if x / y < q { MulMonotone(x / y + 1, q, y); }
  }

  lemma FactorBounds(clock: Hz)
    requires Khz(clock) > 0
    ensures 62_000_000 <= ConversionFactor(clock)
    ensures ConversionFactor(clock) * Khz(clock) <= TICK_SCALE * SCALE < (ConversionFactor(clock) + 1) * Khz(clock)
  {
    var k, f := Khz(clock), ConversionFactor(clock);
    MulDiv(TICK_SCALE * SCALE, k);
    assert f * k + k == (f + 1) * k;
    MulMonotone(k, MAX_KHZ, 62_000_000);
    QuotientAtLeast(TICK_SCALE * SCALE, k, 62_000_000);
  }

  /** The factor is a little too small: the product, taken exactly, is below the scaled time,
      by less than one tick. `t` stands for the scale of a tick. */
  lemma ProductBounds(d: nat, f: nat, k: nat, t: nat)
    requires f * k <= t < (f + 1) * k
    ensures d * f * k <= d * t
    ensures d > 0 ==> d * t < (d * f + d) * k
  {
    MulMonotone(f * k, t, d);
    assert d * (f * k) == d * f * k;
    if d > 0 {
      MulMonotone(t + 1, (f + 1) * k, d);
      assert d * ((f + 1) * k) == (d * f + d) * k;
    }
  }

  lemma RealQuotient(x: real, k: real)
    requires k > 0.0
    ensures x / k * k == x
  {
  }

  lemma RealCancel(a: real, b: real, k: real)
    requires k > 0.0
    ensures a * k <= b * k <==> a <= b
  {
  }

  lemma SeenInTicks(d: nat, clock: Hz)
    requires Khz(clock) > 0
    ensures clock > 0 && SeenNs(TrueNs(d, clock), clock) * Khz(clock) as real == (d * TICK_SCALE) as real
  {
    KhzIsNear(clock);
    var t, k := TrueNs(d, clock), Khz(clock);
    RealQuotient((d * NS_SCALE) as real, clock as real);
    RealQuotient(t * clock as real, (1000 * k) as real);
    hide TrueNs, Khz;
    assert SeenNs(t, clock) * (1000 * k) as real == 1000.0 * (SeenNs(t, clock) * k as real);
  }

  /** Scaled by 2^20, the time seen lies between the product and one tick more. */
  lemma SeenBounds(d: nat, clock: Hz)
    requires Khz(clock) > 0
    ensures clock > 0
    ensures var x := SeenNs(TrueNs(d, clock), clock) * SCALE as real; var product := d * ConversionFactor(clock);
            product as real <= x <= (product + d) as real
  {
    var k, f := Khz(clock), ConversionFactor(clock);
    FactorBounds(clock);
    ProductBounds(d, f, k, TICK_SCALE * SCALE);
    SeenInTicks(d, clock);
    hide TrueNs, SeenNs, Khz, ConversionFactor;
    var x, n := SeenNs(TrueNs(d, clock), clock), SCALE as real;
    assert x * n * k as real == x * k as real * n;
    assert x * n * k as real == (d * (TICK_SCALE * SCALE)) as real;
    RealCancel((d * f) as real, x * n, k as real);
    RealCancel(x * n, (d * f + d) as real, k as real);
  }

  /** More ticks are never converted to less time, as long as the product fits. */
  lemma DeltaIsMonotone(d: U64, e: U64, factor: U64)
    requires d <= e && e * factor < TWO_64
    ensures DeltaNs(d, factor) <= DeltaNs(e, factor)
  {
    MulMonotone(d, e, factor);
  }

  /** What the conversion keeps: never more than the time seen, and short of it by less than
      one nanosecond and a 2^20-th of the ticks. The time seen is the true time up to the
      rounding of the clock. */
  ghost predicate Accurate(deltaCR: U64, clock: Hz)
    requires Khz(clock) > 0
  {
    KhzIsNear(clock);
    var seen, ns := SeenNs(TrueNs(deltaCR, clock), clock), DeltaNs(deltaCR, ConversionFactor(clock)) as real;
    ns <= seen && (seen - ns - 1.0) * SCALE as real < deltaCR as real
  }

  lemma DeltaBounds(d: U64, f: U64)
    ensures var ns, laps := DeltaNs(d, f), d * f / TWO_64;
            ns * SCALE <= d * f - laps * TWO_64 < (ns + 1) * SCALE
  {
    var rest := d * f % TWO_64;
    MulDiv(rest, SCALE);
    assert d * f == d * f / TWO_64 * TWO_64 + rest;
    assert (rest / SCALE + 1) * SCALE == rest / SCALE * SCALE + SCALE;
  }

  /** When the product wraps, the time lost is far more than the ticks could make up for. */
  lemma FewTicksPerLap(d: nat, product: nat, laps: nat)
    requires product >= TWO_64 && laps == product / TWO_64 && 62_000_000 * d <= product
    ensures laps * TWO_64 >= d + SCALE
  {
    MulDiv(product, TWO_64);
    assert laps >= 1;
  }

  lemma AccurateIffNoLap(ns: nat, d: nat, product: nat, laps: nat, exact: real)
    requires ns * SCALE <= product - laps * TWO_64 < (ns + 1) * SCALE
    requires product as real <= exact * SCALE as real <= (product + d) as real
    requires laps > 0 ==> laps * TWO_64 >= d + SCALE
    ensures (ns as real <= exact && (exact - ns as real - 1.0) * SCALE as real < d as real) <==> laps == 0
  {
    assert (ns * SCALE) as real == ns as real * SCALE as real;
    assert laps > 0 ==> (product - laps * TWO_64) as real <= (product - d - SCALE) as real;
  }

  /** That is kept exactly as long as the 64-bit product does not wrap. */
  lemma AccurateIffProductFits(deltaCR: U64, clock: Hz)
    requires Khz(clock) > 0
    ensures Accurate(deltaCR, clock) <==> deltaCR * ConversionFactor(clock) < TWO_64
  {
    var f := ConversionFactor(clock);
    var product := deltaCR * f;
    var laps := product / TWO_64;
    SeenBounds(deltaCR, clock);
    DeltaBounds(deltaCR, f);
    FactorBounds(clock);
    MulMonotone(62_000_000, f, deltaCR);
    if laps > 0 { FewTicksPerLap(deltaCR, product, laps); }
    hide TrueNs, SeenNs, DeltaNs, ConversionFactor, Khz;
    AccurateIffNoLap(DeltaNs(deltaCR, f), deltaCR, product, laps, SeenNs(TrueNs(deltaCR, clock), clock));
  }

  // ---------- Against the true time ----------

  lemma TrueBelow(d: nat, clock: Hz, x: nat)
    requires clock > 0
    ensures TrueNs(d, clock) < x as real <==> d * NS_SCALE < x * clock
  {
    var t := TrueNs(d, clock);
    RealQuotient((d * NS_SCALE) as real, clock as real);
    assert t * clock as real == (d * NS_SCALE) as real && x as real * clock as real == (x * clock) as real;
    RealCancel(x as real, t, clock as real);
  }

  /** No product that fits is converted to more than the true time. */
  ghost predicate NeverAbove(clock: Hz)
    requires clock > 0
  {
    forall d: U64 :: d * ConversionFactor(clock) < TWO_64 ==>
      DeltaNs(d, ConversionFactor(clock)) as real <= TrueNs(d, clock)
  }

  lemma CancelProduct(a: nat, b: nat, k: nat)
    requires k > 0 && a * k <= b * k
    ensures a <= b
  {
    if b < a { MulMonotone(b + 1, a, k); }
  }

  lemma CancelLess(a: nat, b: nat, k: nat)
    requires k * a < k * b
    ensures a < b
  {
    if b <= a { MulMonotone(b, a, k); }
  }

  lemma SmallFactorIsNeverAbove(clock: Hz, d: U64)
    requires Khz(clock) > 0 && clock > 0 && ConversionFactor(clock) * clock <= NS_SCALE * SCALE
    requires d * ConversionFactor(clock) < TWO_64
    ensures DeltaNs(d, ConversionFactor(clock)) as real <= TrueNs(d, clock)
  {
    var f, ns := ConversionFactor(clock), DeltaNs(d, ConversionFactor(clock));
    DeltaBounds(d, f);
    assert d * f / TWO_64 == 0;
    MulMonotone(ns * SCALE, d * f, clock);
    MulMonotone(f * clock, NS_SCALE * SCALE, d);
    assert d * f * clock == d * (f * clock) && ns * SCALE * clock == ns * clock * SCALE;
    assert d * (NS_SCALE * SCALE) == d * NS_SCALE * SCALE;
    CancelProduct(ns * clock, d * NS_SCALE, SCALE);
    TrueBelow(d, clock, ns);
  }

  /** A clock for which the factor is too big has a number of ticks that shows it. */
  function TicksAbove(clock: Hz): U64 {
    if ConversionFactor(clock) < TWO_44 then SCALE else 1
  }

  lemma BigFactorGoesAbove(clock: Hz)
    requires Khz(clock) > 0 && clock > 0 && ConversionFactor(clock) * clock > NS_SCALE * SCALE
    ensures var d := TicksAbove(clock); var f := ConversionFactor(clock);
            d * f < TWO_64 && DeltaNs(d, f) as real > TrueNs(d, clock)
  {
    var f, k := ConversionFactor(clock), Khz(clock);
    if f < TWO_44 {
      DeltaBounds(SCALE, f);
      assert SCALE * f < TWO_64;
      assert DeltaNs(SCALE, f) == f;
      TrueBelow(SCALE, clock, f);
    } else {
      SlowClock(clock);
      TrueBelow(1, clock, DeltaNs(1, f));
    }
  }

  /** Factors from 2^44 on belong to clocks of at most 15 kHz. */
  lemma SlowClock(clock: Hz)
    requires Khz(clock) > 0 && ConversionFactor(clock) >= TWO_44 && ConversionFactor(clock) * clock > NS_SCALE * SCALE
    ensures ConversionFactor(clock) < TWO_64 && NS_SCALE < DeltaNs(1, ConversionFactor(clock)) * clock
  {
    var f, k := ConversionFactor(clock), Khz(clock);
    FactorBounds(clock);
    MulMonotone(TWO_44, f, k);
    assert f * (1000 * k) == 1000 * (f * k);
    CancelLess(1000 * k, clock, f);
    var ns := f / SCALE;
    assert DeltaNs(1, f) == ns;
    MulDiv(f, SCALE);
    TickOfSlowClock(k, f, ns);
    MulMonotone(1000 * k + 1, clock, ns);
  }

  lemma TickOfSlowClock(k: nat, f: nat, ns: nat)
    requires 0 < k < 16 && f == TICK_SCALE * SCALE / k && ns == f / SCALE
    ensures ns * (1000 * k + 1) > NS_SCALE
  {
  }

  /** The conversion stays at or below the true time exactly for the clocks whose factor is not
      too big. */
  lemma NeverAboveIff(clock: Hz)
    requires Khz(clock) > 0
    ensures clock > 0 && (NeverAbove(clock) <==> ConversionFactor(clock) * clock <= NS_SCALE * SCALE)
  {
    KhzIsNear(clock);
    var f := ConversionFactor(clock);
    if f * clock <= NS_SCALE * SCALE {
      forall d: U64 | d * f < TWO_64 ensures DeltaNs(d, f) as real <= TrueNs(d, clock) {
        SmallFactorIsNeverAbove(clock, d);
      }
    } else {
      BigFactorGoesAbove(clock);
      assert !(DeltaNs(TicksAbove(clock), f) as real <= TrueNs(TicksAbove(clock), clock));
    }
  }

  /** Clocks that are not rounded down are of that kind ... */
  lemma RoundedUpIsNeverAbove(clock: Hz)
    requires Khz(clock) > 0 && clock <= 1000 * Khz(clock)
    ensures clock > 0 && NeverAbove(clock)
  {
    NeverAboveIff(clock);
    FactorBounds(clock);
    MulMonotone(clock, 1000 * Khz(clock), ConversionFactor(clock));
    assert ConversionFactor(clock) * (1000 * Khz(clock)) == 1000 * (ConversionFactor(clock) * Khz(clock));
  }

  /** ... and 600.0004 MHz is not: one second and some is converted to more. */
  lemma RoundedDownGoesAbove()
    ensures var clock: Hz := 600_000_400; var f := ConversionFactor(clock);
            2_343_750 * f < TWO_64 && DeltaNs(2_343_750, f) as real > TrueNs(2_343_750, clock) && !NeverAbove(clock)
  {
    var clock: Hz, d: U64 := 600_000_400, 2_343_750;
    assert ConversionFactor(clock) == 447_392_426;
    assert DeltaNs(d, 447_392_426) == 999_999_998;
    TrueBelow(d, clock, 999_999_998);
    NeverAboveIff(clock);
  }

  /** What rounding the clock takes off a time; for a clock that is rounded down it adds. */
  function RoundingLoss(time: real, clock: Hz): real
    requires Khz(clock) > 0
  {
    time * (1000 * Khz(clock) - clock) as real / (1000 * Khz(clock)) as real
  }

  /** Up to the rounding of the clock the conversion stays at or below the true time, and short
      of it by less than a nanosecond and a 2^20-th of the ticks. */
  lemma ShortByRounding(deltaCR: U64, clock: Hz)
    requires Khz(clock) > 0 && deltaCR * ConversionFactor(clock) < TWO_64
    ensures clock > 0
    ensures var exact, ns := TrueNs(deltaCR, clock), DeltaNs(deltaCR, ConversionFactor(clock)) as real;
            var left := exact - RoundingLoss(exact, clock);
            ns <= left && (left - ns - 1.0) * SCALE as real < deltaCR as real
  {
    KhzIsNear(clock);
    AccurateIffProductFits(deltaCR, clock);
    SeenIsLessLoss(TrueNs(deltaCR, clock), clock);
    hide TrueNs, SeenNs, DeltaNs, ConversionFactor, Khz, RoundingLoss;
  }

  lemma SeenIsLessLoss(time: real, clock: Hz)
    requires Khz(clock) > 0
    ensures SeenNs(time, clock) == time - RoundingLoss(time, clock)
  {
    hide Khz;
    var k := (1000 * Khz(clock)) as real;
    assert time * clock as real == time * k - time * (1000 * Khz(clock) - clock) as real;
    SplitQuotient(time, clock as real, k);
    assert SeenNs(time, clock) == time * clock as real / k;
  }

  lemma SplitQuotient(x: real, c: real, k: real)
    requires k > 0.0
    ensures x * c / k == x - x * (k - c) / k
  {
    RealQuotient(x * c, k);
    RealQuotient(x * (k - c), k);
    var a, b := x * c / k, x - x * (k - c) / k;
    assert b * k == x * k - x * (k - c);
    RealCancel(a, b, k);
    RealCancel(b, a, k);
  }

  // ---------- Where the product wraps ----------

  /** The least number of ticks whose product wraps. */
  function FirstWrap(clock: Hz): nat
    requires Khz(clock) > 0
  {
    FactorBounds(clock);
    (TWO_64 + ConversionFactor(clock) - 1) / ConversionFactor(clock)
  }

  lemma WrapsFromFirst(d: nat, clock: Hz)
    requires Khz(clock) > 0
    ensures d * ConversionFactor(clock) >= TWO_64 <==> d >= FirstWrap(clock)
    ensures 0 < FirstWrap(clock) < TWO_64
  {
    FactorBounds(clock);
    var f, w := ConversionFactor(clock), FirstWrap(clock);
    MulDiv(TWO_64 + f - 1, f);
    if d >= w { MulMonotone(w, d, f); } else { MulMonotone(d, w - 1, f); }
    assert (w - 1) * f == w * f - f;
    if w >= TWO_64 { MulMonotone(TWO_64 - 1, w - 1, f); }
  }

  /** Every true time below 2^44 ns is converted without wrapping. */
  ghost predicate SafeBelow2To44(clock: Hz)
    requires clock > 0
  {
    forall d: U64 :: TrueNs(d, clock) < TWO_44 as real ==> d * ConversionFactor(clock) < TWO_64
  }

  /** Every true time from five hours on has wrapped. */
  ghost predicate WrappedAtFiveHours(clock: Hz)
    requires clock > 0
  {
    forall d: U64 :: TrueNs(d, clock) >= FIVE_HOURS as real ==> d * ConversionFactor(clock) >= TWO_64
  }

  /** The first wrap comes at 2^44 ns or later for exactly these clocks. */
  lemma SafeBelow2To44Iff(clock: Hz)
    requires Khz(clock) > 0
    ensures clock > 0 && (SafeBelow2To44(clock) <==> TWO_44 * clock <= FirstWrap(clock) * NS_SCALE)
  {
    KhzIsNear(clock);
    var w := FirstWrap(clock);
    WrapsFromFirst(w, clock);
    TrueBelow(w, clock, TWO_44);
    var first: U64 := w;
    if TWO_44 * clock <= w * NS_SCALE {
      forall d: U64 | TrueNs(d, clock) < TWO_44 as real ensures d * ConversionFactor(clock) < TWO_64 {
        TrueBelow(d, clock, TWO_44);
        WrapsFromFirst(d, clock);
        if d >= w { MulMonotone(w, d, NS_SCALE); }
      }
    } else {
      assert TrueNs(first, clock) < TWO_44 as real && first * ConversionFactor(clock) >= TWO_64;
    }
  }

  /** The last product that fits is below five hours for exactly these clocks. */
  lemma WrappedAtFiveHoursIff(clock: Hz)
    requires Khz(clock) > 0
    ensures clock > 0 && (WrappedAtFiveHours(clock) <==> (FirstWrap(clock) - 1) * NS_SCALE < FIVE_HOURS * clock)
  {
    KhzIsNear(clock);
    WrapsFromFirst(FirstWrap(clock), clock);
    var last: U64 := FirstWrap(clock) - 1;
    WrapsFromFirst(last, clock);
    TrueBelow(last, clock, FIVE_HOURS);
    if last * NS_SCALE < FIVE_HOURS * clock {
      forall d: U64 | TrueNs(d, clock) >= FIVE_HOURS as real ensures d * ConversionFactor(clock) >= TWO_64 {
        TrueBelow(d, clock, FIVE_HOURS);
        WrapsFromFirst(d, clock);
        if d <= last { MulMonotone(d, last, NS_SCALE); }
      }
    } else {
      assert TrueNs(last, clock) >= FIVE_HOURS as real && last * ConversionFactor(clock) < TWO_64;
    }
  }

  /** The clocks that are never converted to too much time are safe below 2^44 ns ... */
  lemma NeverAboveIsSafe(clock: Hz)
    requires Khz(clock) > 0 && ConversionFactor(clock) * clock <= NS_SCALE * SCALE
    ensures clock > 0 && SafeBelow2To44(clock)
  {
    SafeBelow2To44Iff(clock);
    var f, w := ConversionFactor(clock), FirstWrap(clock);
    WrapsFromFirst(w, clock);
    MulMonotone(TWO_64, w * f, clock);
    MulMonotone(f * clock, NS_SCALE * SCALE, w);
    assert w * f * clock == w * (f * clock) && w * (NS_SCALE * SCALE) == w * NS_SCALE * SCALE;
    assert TWO_64 * clock == TWO_44 * clock * SCALE;
    CancelProduct(TWO_44 * clock, w * NS_SCALE, SCALE);
  }

  /** ... and from 22 kHz on every clock has wrapped at five hours, which the documentation
      calls safe for all frequencies. */
  lemma WrappedFrom22Khz(clock: Hz)
    requires Khz(clock) > 0 && clock >= 22_000
    ensures WrappedAtFiveHours(clock)
  {
    WrappedAtFiveHoursIff(clock);
    KhzIsNear(clock);
    FactorBounds(clock);
    var f, k, last := ConversionFactor(clock), Khz(clock), FirstWrap(clock) - 1;
    WrapsFromFirst(last, clock);
    assert last * f < TWO_64;
    ProductBounds(last, f, k, TICK_SCALE * SCALE);
    MulMonotone(62_000_000, f, last);
    MulMonotone(last * f + last, TWO_64 + TWO_64 / 62_000_000, k);
    assert last * (TICK_SCALE * SCALE) <= (TWO_64 + TWO_64 / 62_000_000) * k;
    assert last * NS_SCALE * SCALE == 1000 * (last * (TICK_SCALE * SCALE));
  }

  /** Slow clocks fail both ways: 1499 Hz wraps before 2^44 ns, 1500 Hz after five hours. */
  lemma SlowClocksFail()
    ensures TrueNs(68_720, 1499) < TWO_44 as real && 68_720 * ConversionFactor(1499) >= TWO_64 && !SafeBelow2To44(1499)
    ensures TrueNs(105_469, 1500) >= FIVE_HOURS as real && 105_469 * ConversionFactor(1500) < TWO_64
    ensures !WrappedAtFiveHours(1500)
  {
    TrueBelow(68_720, 1499, TWO_44);
    TrueBelow(105_469, 1500, FIVE_HOURS);
  }
}
