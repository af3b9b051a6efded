/** The period arithmetic of libraries/HAL_Drivers/drv_pwm.c: nanoseconds to timer registers
    and back.  `hz` is the timer's clock before its own division. */
module Pwm {
  import opened Arithmetic

  const MAX_PERIOD: nat := 65535
  const MIN_PERIOD: nat := 3
  const MIN_PULSE: nat := 2
  const MILLION: nat := 1_000_000
  const WORD: nat := 0x1_0000_0000

  type Word32 = x: int | 0 <= x < WORD

  /** A period or pulse in clock ticks, as a 32-bit variable holds it. */
  function Ticks(ns: Word32, mhz: nat): Word32 { ns * mhz / 1000 % WORD }

  function Prescale(ns: Word32, mhz: nat): nat { Ticks(ns, mhz) / MAX_PERIOD + 1 }

  function RawPeriod(ns: Word32, mhz: nat): nat { Ticks(ns, mhz) / Prescale(ns, mhz) }

  function RawPulse(ns: Word32, mhz: nat, psc: nat): Word32
    requires psc > 0
  {
    ns * mhz / psc / 1000 % WORD
  }

  /** The request is too short for the timer: below three ticks. */
  predicate TooShort(ns: Word32, mhz: nat) { RawPeriod(ns, mhz) < MIN_PERIOD }

  class Timer {
    const hz: nat
    var psc: nat
    var autoreload: nat
    var compare: nat
    var counter: nat
    var division: nat

    constructor (hz: nat)
      ensures this.hz == hz && division == 1
    {
      this.hz := hz;
      psc, autoreload, compare, counter, division := 0, 0, 0, 0, 1;
    }

    /** drv_pwm_set.  With `division` 1 the timer runs at the clock used here. */
    method Set(periodNs: Word32, pulseNs: Word32)
      modifies `psc, `autoreload, `compare, `counter
      ensures psc + 1 == Prescale(periodNs, hz / MILLION) && counter == 0
      ensures MIN_PERIOD <= autoreload + 1 < MAX_PERIOD + 1 && MIN_PULSE <= compare + 1 <= autoreload + 1
      ensures autoreload + 1 == if TooShort(periodNs, hz / MILLION) then MIN_PERIOD else RawPeriod(periodNs, hz / MILLION)
      ensures compare + 1 == Clamp(RawPulse(pulseNs, hz / MILLION, psc + 1), autoreload + 1)
    {
      var timClock := hz / MILLION;
      var period: nat := periodNs * timClock / 1000 % WORD;
      var prescale := period / MAX_PERIOD + 1;
      PeriodFits(period);
      period := period / prescale;
      psc := prescale - 1;
      if period < MIN_PERIOD {
        period := MIN_PERIOD;
      }
      autoreload := period - 1;
      var pulse: nat := pulseNs * timClock / prescale / 1000 % WORD;
      if pulse < MIN_PULSE {
        pulse := MIN_PULSE;
      } else if pulse > period {
        pulse := period;
      }
      compare := pulse - 1;
      counter := 0;
    }

    /** drv_pwm_get: the products are 32 bits wide. */
    method Get() returns (periodNs: nat, pulseNs: nat)
      requires division in {1, 2, 4} && hz / division >= MILLION
      ensures periodNs == Nanoseconds(autoreload + 1, psc + 1, hz / division / MILLION)
      ensures pulseNs == Nanoseconds(compare + 1, psc + 1, hz / division / MILLION)
    {
      var timClock := hz;
      if division == 2 {
        timClock := timClock / 2;
      } else if division == 4 {
        timClock := timClock / 4;
      }
      timClock := timClock / MILLION;
      periodNs := (autoreload + 1) * (psc + 1) * 1000 % WORD / timClock;
      pulseNs := (compare + 1) * (psc + 1) * 1000 % WORD / timClock;
    }
  }

  function Clamp(pulse: nat, period: nat): nat {
    if pulse < MIN_PULSE then MIN_PULSE else if pulse > period then period else pulse
  }

  function Nanoseconds(ticks: nat, psc: nat, mhz: nat): nat
    requires mhz > 0
  {
    ticks * psc * 1000 % WORD / mhz
  }

  // -------------------------------------------------------------- arithmetic

  /** The prescaler brings every period into 16 bits. */
  lemma PeriodFits(period: nat)
    ensures period / (period / MAX_PERIOD + 1) < MAX_PERIOD
  {
    var psc: nat := period / MAX_PERIOD + 1;
    var q: nat := period / psc;
    assert q * psc <= period < MAX_PERIOD * psc;
    if MAX_PERIOD <= q { MulMono(MAX_PERIOD, q, psc); }
  }

  lemma Floor(n: nat, b: nat) returns (q: nat)
    requires b > 0
    ensures q == n / b && q * b <= n < q * b + b
  {
    q := n / b;
  }

  /** n / b is at most q exactly when n is less than the next multiple. */
  lemma FloorAtMost(n: nat, b: nat, q: nat)
    requires b > 0
    ensures n / b <= q <==> n < q * b + b
  {
    var p := Floor(n, b);
    if p <= q { MulMono(p, q, b); } else { MulNext(q, p, b); }
  }

  // --------------------------------------------------------------------- laws

  /** The product in drv_pwm_get is right exactly when it fits 32 bits. */
  lemma ReadBackIff(ticks: nat, psc: nat, mhz: nat)
    requires 0 < mhz < WORD
    ensures Nanoseconds(ticks, psc, mhz) == ticks * psc * 1000 / mhz <==> ticks * psc * 1000 < WORD
  {
    var n: nat := ticks * psc * 1000;
    if n >= WORD {
      var w: nat := n % WORD;
      assert w + WORD <= n;
      var p := Floor(w, mhz);
      var q := Floor(n, mhz);
    }
  }

  /** The 16-bit prescaler register holds the value written to it exactly below 65535 * 65536
      ticks. */
  lemma PrescalerFitsIff(ns: Word32, mhz: nat)
    ensures Prescale(ns, mhz) - 1 < 0x1_0000 <==> Ticks(ns, mhz) < MAX_PERIOD * 0x1_0000
  {
    FloorAtMost(Ticks(ns, mhz), MAX_PERIOD, 0xFFFF);
  }

  /** Without overflow the wraps are not seen. */
  lemma PeriodIs(ns: Word32, mhz: nat, n: nat)
    requires n == ns * mhz && n / 1000 < WORD
    ensures RawPeriod(ns, mhz) == n / 1000 / Prescale(ns, mhz)
  {
  }

  lemma PulseIs(pulse: Word32, mhz: nat, psc: nat, n: nat)
    requires psc > 0 && n == pulse * mhz && n / psc / 1000 < WORD
    ensures RawPulse(pulse, mhz, psc) == n / psc / 1000
  {
  }

  lemma ReadBack(ticks: nat, psc: nat, mhz: nat) returns (back: nat)
    requires mhz > 0 && ticks * psc * 1000 < WORD
    ensures back == Nanoseconds(ticks, psc, mhz)
    ensures back * mhz <= ticks * psc * 1000 < back * mhz + mhz
  {
    var whole: nat := ticks * psc * 1000;
    assert whole % WORD == whole;
    back := Floor(whole, mhz);
  }

  /** Without overflow or the three-tick minimum, the period read back is not above the request
      and less than 1000 * psc / MHz + 1 nanoseconds below it. */
  lemma ReadBackClose(ns: Word32, mhz: nat)
    requires 0 < mhz < WORD && !TooShort(ns, mhz)
    requires ns * mhz / 1000 < WORD && RawPeriod(ns, mhz) * Prescale(ns, mhz) * 1000 < WORD
    ensures var back := Nanoseconds(RawPeriod(ns, mhz), Prescale(ns, mhz), mhz);
      back <= ns && (ns - back - 1) * mhz < 1000 * Prescale(ns, mhz)
  {
    var psc, n: nat := Prescale(ns, mhz), ns * mhz;
    var ticks := Floor(n, 1000);
    var period := Floor(ticks, psc);
    PeriodIs(ns, mhz, n);
    var back := ReadBack(period, psc, mhz);
    Rounded(n, ticks, period * psc, psc, back, ns, mhz);
  }

  lemma Rounded(n: nat, ticks: nat, whole: nat, psc: nat, back: nat, ns: nat, mhz: nat)
    requires n == ns * mhz && ticks * 1000 <= n < ticks * 1000 + 1000 && whole <= ticks < whole + psc
    requires back * mhz <= whole * 1000 < back * mhz + mhz
    ensures back <= ns && (ns - back - 1) * mhz < 1000 * psc
  {
    if back > ns { MulNext(ns, back, mhz); }
    assert (ns - back - 1) * mhz == n - back * mhz - mhz;
  }

  /** Below three ticks the timer runs longer than asked, unless three ticks are the request to
      the nanosecond: the read-back is not above the request exactly then. */
  lemma TooShortIff(ns: Word32, mhz: nat)
    requires 0 < mhz < WORD && ns * mhz / 1000 < WORD && TooShort(ns, mhz)
    ensures Prescale(ns, mhz) == 1 && ns * mhz < 3000
    ensures Nanoseconds(MIN_PERIOD, Prescale(ns, mhz), mhz) <= ns <==> ns == 3000 / mhz
  {
    var ticks := Floor(ns * mhz, 1000);
    assert Ticks(ns, mhz) == ticks;
    PrescaledPeriod(ticks);
    assert Nanoseconds(MIN_PERIOD, 1, mhz) == 3000 / mhz;
    var q := Floor(3000, mhz);
    if q < ns { MulNext(q, ns, mhz); }
  }

  /** A prescaled period is never short. */
  lemma PrescaledPeriod(ticks: nat)
    ensures ticks >= MAX_PERIOD ==> ticks / (ticks / MAX_PERIOD + 1) >= MIN_PERIOD
    ensures ticks < MAX_PERIOD ==> ticks / MAX_PERIOD == 0
  {
    if ticks >= MAX_PERIOD {
      var psc: nat := ticks / MAX_PERIOD + 1;
      assert 3 * psc <= ticks;
      var q := Floor(ticks, psc);
      if q < 3 { MulMono(q, 2, psc); }
    }
  }

  /** Rounding in two steps is rounding once. */
  lemma FloorFloor(n: nat, a: nat, b: nat)
    requires a > 0 && b > 0
    ensures n / a / b == n / b / a
  {
    var p := Floor(n, a);
    var x := Floor(p, b);
    var q := Floor(n, b);
    var y := Floor(q, a);
    FloorTwice(n, a, b, p, x, q, y);
    FloorTwice(n, b, a, q, y, p, x);
  }

  lemma FloorTwice(n: nat, a: nat, b: nat, p: nat, x: nat, q: nat, y: nat)
    requires a > 0 && b > 0
    requires p * a <= n < p * a + a && x * b <= p < x * b + b
    requires q * b <= n < q * b + b && y * a <= q < y * a + a
    ensures x <= y
  {
    // x * a * b <= n, so x * a <= q, so x <= y
    var xa: nat, xb: nat := x * a, x * b;
    MulMono(xb, p, a);
    MulSwap(x, a, b);
    if q < xa { MulNext(q, xa, b); }
    if y < x { MulNext(y, x, a); }
  }

  /** A pulse at least as long as the period is a full duty cycle. */
  lemma FullDuty(ns: Word32, pulse: Word32, mhz: nat)
    requires !TooShort(ns, mhz) && ns <= pulse && pulse * mhz / 1000 < WORD
    ensures Clamp(RawPulse(pulse, mhz, Prescale(ns, mhz)), RawPeriod(ns, mhz)) == RawPeriod(ns, mhz)
  {
    var psc, n: nat, m: nat := Prescale(ns, mhz), ns * mhz, pulse * mhz;
    MulMono(ns, pulse, mhz);
    DutyAtLeast(n, m, psc);
    FloorMono(n, m, 1000);
    PeriodIs(ns, mhz, n);
    PulseIs(pulse, mhz, psc, m);
  }

  lemma DutyAtLeast(n: nat, m: nat, psc: nat)
    requires n <= m && psc > 0
    ensures n / 1000 / psc <= m / psc / 1000 <= m / 1000
  {
    FloorMono(n, m, 1000);
    var p: nat, q: nat := n / 1000, m / 1000;
    FloorMono(p, q, psc);
    FloorFloor(m, 1000, psc);
    var r := Floor(q, psc);
    MulMono(1, psc, r);
  }

  lemma FloorMono(n: nat, m: nat, b: nat)
    requires n <= m && b > 0
    ensures n / b <= m / b
  {
    var p := Floor(n, b);
    var q := Floor(m, b);
    if q < p { MulNext(q, p, b); }
  }

  /** A longer pulse in nanoseconds never gives a smaller compare value, and none exceeds the
      period, as long as its ticks fit 32 bits. */
  lemma PulseMonotone(pulse: Word32, pulse': Word32, mhz: nat, psc: nat, period: nat)
    requires pulse <= pulse' && psc > 0 && pulse' * mhz / psc / 1000 < WORD && MIN_PULSE <= period
    ensures RawPulse(pulse, mhz, psc) <= RawPulse(pulse', mhz, psc)
    ensures Clamp(RawPulse(pulse, mhz, psc), period) <= Clamp(RawPulse(pulse', mhz, psc), period) <= period
  {
    var n: nat, m: nat := pulse * mhz, pulse' * mhz;
    MulMono(pulse, pulse', mhz);
    FloorMono(n, m, psc);
    var p: nat, q: nat := n / psc, m / psc;
    FloorMono(p, q, 1000);
    assert RawPulse(pulse, mhz, psc) == p / 1000 && RawPulse(pulse', mhz, psc) == q / 1000;
  }

  /** A pulse whose ticks lie between the two limits is kept: what is read back is not above the
      request and less than 1000 * psc / MHz + 1 nanoseconds below it. */
  lemma PulseReadBackClose(pulse: Word32, mhz: nat, psc: nat, period: nat)
    requires 0 < mhz < WORD && psc > 0 && pulse * mhz / psc / 1000 < WORD
    requires var raw := RawPulse(pulse, mhz, psc); MIN_PULSE <= raw <= period && raw * psc * 1000 < WORD
    ensures var back := Nanoseconds(Clamp(RawPulse(pulse, mhz, psc), period), psc, mhz);
      back <= pulse && (pulse - back - 1) * mhz < 1000 * psc
  {
    var n: nat, raw := pulse * mhz, RawPulse(pulse, mhz, psc);
    var whole: nat := raw * psc;
    PulseWhole(pulse, mhz, psc, n, raw, whole);
    var back := ReadBack(raw, psc, mhz);
    PulseShort(n, whole, psc, back, pulse, mhz);
  }

  lemma PulseWhole(pulse: Word32, mhz: nat, psc: nat, n: nat, raw: nat, whole: nat)
    requires psc > 0 && n == pulse * mhz && n / psc / 1000 < WORD && raw == RawPulse(pulse, mhz, psc) && whole == raw * psc
    ensures whole * 1000 <= n < whole * 1000 + 1000 * psc
  {
    var p := Floor(n, psc);
    var q := Floor(p, 1000);
    PulseIs(pulse, mhz, psc, n);
    PulseRounded(n, p, q, psc, whole);
  }

  lemma PulseRounded(n: nat, p: nat, raw: nat, psc: nat, whole: nat)
    requires p * psc <= n < p * psc + psc && raw * 1000 <= p < raw * 1000 + 1000 && whole == raw * psc
    ensures whole * 1000 <= n < whole * 1000 + 1000 * psc
  {
    MulSwap(raw, 1000, psc);
    MulMono(raw * 1000, p, psc);
    MulNext(p, raw * 1000 + 1000, psc);
    MulAdd(raw * 1000, 1000, psc);
  }

  lemma PulseShort(n: nat, whole: nat, psc: nat, back: nat, ns: nat, mhz: nat)
    requires n == ns * mhz && whole * 1000 <= n < whole * 1000 + 1000 * psc
    requires back * mhz <= whole * 1000 < back * mhz + mhz
    ensures back <= ns && (ns - back - 1) * mhz < 1000 * psc
  {
    if back > ns { MulNext(ns, back, mhz); }
    assert (ns - back - 1) * mhz == n - back * mhz - mhz;
  }
}
