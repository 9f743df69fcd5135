/**
  The PWM driver (drivers/drv_pwm.c): a period and a pulse in nanoseconds become a prescaler, a reload
  and a compare value of a 16-bit timer, and are read back from those registers.
*/
module Pwm {
  import opened Division

  const U32: nat := 0x1_0000_0000
  const MAX_PERIOD: nat := 65535
  const MIN_PERIOD: nat := 3
  const MIN_PULSE: nat := 2

  type Word = n: nat | n < 0x1_0000_0000

  /** The timer clock in MHz; the driver divides by it. */
  predicate ClockOk(mhz: nat) { 1 <= mhz <= 999 }

  // ---------------------------------------------------------------- drv_pwm_set

  /** The requested time in timer clocks, 64-bit product. */
  function Clocks(ns: Word, mhz: nat): nat { ns * mhz / 1000 }

  function Prescale(clocks: nat): (psc: nat)
    ensures psc > 0
  {
    clocks / MAX_PERIOD + 1
  }

  function PeriodTicks(ns: Word, mhz: nat): nat {
    var clocks := Clocks(ns, mhz);
    var ticks := clocks / Prescale(clocks);
    if ticks < MIN_PERIOD then MIN_PERIOD else ticks
  }

  function PulseTicks(ns: Word, mhz: nat, psc: nat, period: nat): nat
    requires psc > 0
  {
    var ticks := ns * mhz / psc / 1000;
    if ticks < MIN_PULSE then MIN_PULSE else if ticks > period then period else ticks
  }

  // ---------------------------------------------------------------- drv_pwm_get

  /** Nanoseconds read back from `ticks` prescaled ticks, 32-bit product. */
  function ReadBack(ticks: nat, psc: nat, mhz: nat): nat
    requires mhz > 0
  {
    ticks * psc * 1000 % U32 / mhz
  }

  // ---------------------------------------------------------------- arithmetic

  /** Dividing twice is dividing by the product. */
  lemma TwoQuotients(a: nat, b: nat)
    requires b > 0
    ensures a / b / 1000 * (b * 1000) <= a < a / b / 1000 * (b * 1000) + b * 1000
  {
    var q, r := a / b, a / b / 1000;
    Quotient(a, b);
    Quotient(q, 1000);
    Times(r * 1000, q, b);
    Times(q + 1, r * 1000 + 1000, b);
    assert r * 1000 * b == r * (b * 1000);
    assert (r * 1000 + 1000) * b == r * 1000 * b + 1000 * b;
    assert (q + 1) * b == q * b + b;
  }

  // ---------------------------------------------------------------- the registers fit

  /** The product fits the 32-bit variable it is stored in; prescaler and reload fit 16 bits. */
  lemma RegistersFit(ns: Word, mhz: nat)
    requires ClockOk(mhz)
    ensures Clocks(ns, mhz) < U32
    ensures Prescale(Clocks(ns, mhz)) - 1 < 65536
    ensures MIN_PERIOD <= PeriodTicks(ns, mhz) < MAX_PERIOD
  {
    Times(ns, U32 - 1, mhz);
    Times(mhz, 999, U32 - 1);
    assert ns * mhz <= 999 * (U32 - 1);
    var clocks := Clocks(ns, mhz);
    var psc := Prescale(clocks);
    Quotient(ns * mhz, 1000);
    Quotient(clocks, MAX_PERIOD);
    Quotient(clocks, psc);
    assert clocks < MAX_PERIOD * psc;
    if clocks / psc >= MAX_PERIOD { Times(MAX_PERIOD, clocks / psc, psc); }
  }

  /** The compare value never exceeds the reload value. */
  lemma PulseWithinPeriod(ns: Word, mhz: nat, psc: nat, period: nat)
    requires psc > 0 && period >= MIN_PERIOD
    ensures MIN_PULSE <= PulseTicks(ns, mhz, psc, period) <= period
  {
  }

  /** The prescaler is the least divisor that brings the period below the 16-bit maximum. */
  lemma PrescaleLeast(clocks: nat, d: nat)
    requires d > 0
    ensures clocks / d < MAX_PERIOD <==> Prescale(clocks) <= d
  {
    Quotient(clocks, MAX_PERIOD);
    Quotient(clocks, d);
    if clocks / d < MAX_PERIOD {
      Times(clocks / d + 1, MAX_PERIOD, d);
      if d <= clocks / MAX_PERIOD { Times(d, clocks / MAX_PERIOD, MAX_PERIOD); }
    } else {
      Times(MAX_PERIOD, clocks / d, d);
      if Prescale(clocks) <= d { Times(Prescale(clocks), d, MAX_PERIOD); }
    }
  }

  /** The reload value is the number of whole prescaled ticks in the requested period, or the minimum for a period
      of fewer than three clocks. */
  lemma PeriodTicksExactly(ns: Word, mhz: nat)
    requires ClockOk(mhz)
    ensures var psc, ticks := Prescale(Clocks(ns, mhz)), PeriodTicks(ns, mhz);
      if ns * mhz < MIN_PERIOD * 1000 then ticks == MIN_PERIOD && psc == 1
      else ticks * psc * 1000 <= ns * mhz < ticks * psc * 1000 + psc * 1000
  {
    var psc := Prescale(Clocks(ns, mhz));
    TicksShort(ns, mhz);
    Quotient(ns * mhz, 1000);
    Quotient(Clocks(ns, mhz), psc);
    if Clocks(ns, mhz) / psc < MIN_PERIOD {
      RaisedPeriod(ns, mhz);
    } else {
      Times(MIN_PERIOD, Clocks(ns, mhz) / psc, psc);
      Times(1, psc, 3000);
    }
  }

  /** The compare value is the number of whole prescaled ticks in the requested pulse, kept between the minimum
      and the period. */
  lemma PulseTicksExactly(ns: Word, mhz: nat, psc: nat, period: nat)
    requires psc > 0 && period >= MIN_PERIOD
    ensures var ticks := PulseTicks(ns, mhz, psc, period);
      if ns * mhz < MIN_PULSE * psc * 1000 then ticks == MIN_PULSE
      else if ns * mhz >= (period + 1) * (psc * 1000) then ticks == period
      else ticks * (psc * 1000) <= ns * mhz < ticks * (psc * 1000) + psc * 1000
  {
    var asked := ns * mhz / psc / 1000;
    TwoQuotients(ns * mhz, psc);
    if asked < MIN_PULSE { Times(asked + 1, MIN_PULSE, psc * 1000); } else { Times(MIN_PULSE, asked, psc * 1000); }
    if asked <= period { Times(asked + 1, period + 1, psc * 1000); } else { Times(period + 1, asked, psc * 1000); }
  }

  // ---------------------------------------------------------------- reading back

  /** `back` is at most `asked` and short of it by less than a prescaled tick plus a nanosecond. */
  predicate Close(back: nat, asked: nat, psc: nat, mhz: nat) {
    back <= asked && (asked - back) * mhz < psc * 1000 + mhz
  }

  /** Without overflow, whole ticks that are short of the request by less than one tick read back close. */
  lemma ReadBackClose(ticks: nat, psc: nat, mhz: nat, asked: nat)
    requires mhz > 0 && ticks * psc * 1000 < U32
    requires ticks * psc * 1000 <= asked * mhz < ticks * psc * 1000 + psc * 1000
    ensures Close(ReadBack(ticks, psc, mhz), asked, psc, mhz)
  {
    var x := ticks * psc * 1000;
    Small(x);
    var back := x / mhz;
    Quotient(x, mhz);
    assert (asked - back) * mhz == asked * mhz - back * mhz;
  }

  lemma Small(x: nat)
    requires x < U32
    ensures x % U32 == x
  {
  }

  /** The ticks of a period that was not raised to the minimum. */
  lemma TicksShort(ns: Word, mhz: nat)
    requires ClockOk(mhz)
    ensures var clocks := Clocks(ns, mhz); var psc := Prescale(clocks); var ticks := clocks / psc;
      ticks * psc * 1000 <= ns * mhz < ticks * psc * 1000 + psc * 1000
  {
    var clocks := Clocks(ns, mhz);
    var psc := Prescale(clocks);
    Quotient(ns * mhz, 1000);
    Quotient(clocks, psc);
    var ticks := clocks / psc;
    assert ticks * psc <= clocks <= ticks * psc + psc - 1;
  }

  /** A product that overflows 32 bits reads back far below the request. */
  lemma OverflowNotClose(ticks: nat, psc: nat, mhz: nat, asked: Word)
    requires ClockOk(mhz) && psc <= 65536 && ticks * psc * 1000 >= U32
    requires ticks * psc * 1000 <= asked * mhz
    ensures !Close(ReadBack(ticks, psc, mhz), asked, psc, mhz)
  {
    var x := ticks * psc * 1000;
    Wrapped(x);
    var back := ReadBack(ticks, psc, mhz);
    Quotient(x % U32, mhz);
    assert back * mhz <= x - U32;
    assert asked * mhz - back * mhz >= U32;
    assert (asked - back) * mhz == asked * mhz - back * mhz;
  }

  lemma Wrapped(x: nat)
    requires x >= U32
    ensures x % U32 <= x - U32
  {
    Quotient(x, U32);
    assert x / U32 >= 1;
    Times(1, x / U32, U32);
    assert x == x / U32 * U32 + x % U32;
  }

  /** A period below the minimum has no prescaling, and reads back as the minimum. */
  lemma RaisedPeriod(ns: Word, mhz: nat)
    requires ClockOk(mhz) && Clocks(ns, mhz) / Prescale(Clocks(ns, mhz)) < MIN_PERIOD
    ensures Prescale(Clocks(ns, mhz)) == 1 && ns * mhz < 3000
    ensures ReadBack(MIN_PERIOD, 1, mhz) == 3000 / mhz
    ensures Close(3000 / mhz, ns, 1, mhz) <==> ns == 3000 / mhz
  {
    var clocks := Clocks(ns, mhz);
    var psc := Prescale(clocks);
    Quotient(clocks, psc);
    Quotient(clocks, MAX_PERIOD);
    if psc > 1 {
      assert clocks < (clocks / psc + 1) * psc;
      Times(clocks / psc + 1, 3, psc);
    }
    assert clocks / 1 == clocks;
    Quotient(ns * mhz, 1000);
    Small(3000);
    Quotient(3000, mhz);
    if ns > 3000 / mhz { Times(3000 / mhz + 1, ns, mhz); }
  }

  /** The period read back is at most the requested one and short of it by less than one prescaled tick
      plus one nanosecond, exactly when the 32-bit product in drv_pwm_get does not overflow and the
      request was not raised to the minimum (or was the minimum itself). */
  lemma PeriodReadBackExactly(ns: Word, mhz: nat)
    requires ClockOk(mhz)
    ensures var psc, ticks := Prescale(Clocks(ns, mhz)), PeriodTicks(ns, mhz);
      Close(ReadBack(ticks, psc, mhz), ns, psc, mhz) <==>
        ticks * psc * 1000 < U32 && (Clocks(ns, mhz) / psc >= MIN_PERIOD || ns == 3000 / mhz)
  {
    var psc, ticks := Prescale(Clocks(ns, mhz)), PeriodTicks(ns, mhz);
    RegistersFit(ns, mhz);
    if Clocks(ns, mhz) / psc < MIN_PERIOD {
      RaisedPeriod(ns, mhz);
    } else {
      TicksShort(ns, mhz);
      if ticks * psc * 1000 < U32 { ReadBackClose(ticks, psc, mhz, ns); } else { OverflowNotClose(ticks, psc, mhz, ns); }
    }
  }

  /** 100 ms at 72 MHz: the product overflows, and the period reads back as 40 ms. */
  lemma LongPeriodOverflows()
    ensures Prescale(Clocks(100000000, 72)) == 110 && PeriodTicks(100000000, 72) == 65454
    ensures ReadBack(65454, 110, 72) == 40346843 && !Close(40346843, 100000000, 110, 72)
  {
  }

  /** The pulse read back is close to the request: if it was raised to the minimum, exactly when it was that
      already; if it was cut to the period, exactly when it was longer by no more than a prescaled tick and
      a nanosecond; and never when the product overflows. */
  lemma PulseReadBackExactly(ns: Word, mhz: nat, psc: nat, period: nat)
    requires ClockOk(mhz) && 0 < psc <= 65536 && MIN_PERIOD <= period
    ensures var asked, ticks := ns * mhz / psc / 1000, PulseTicks(ns, mhz, psc, period);
      Close(ReadBack(ticks, psc, mhz), ns, psc, mhz) <==>
        if asked < MIN_PULSE then ns == MIN_PULSE * psc * 1000 / mhz
        else ticks * psc * 1000 < U32 && (asked > period ==> ns <= period * psc * 1000 / mhz + (psc * 1000 + mhz - 1) / mhz)
  {
    var asked, ticks := ns * mhz / psc / 1000, PulseTicks(ns, mhz, psc, period);
    if asked < MIN_PULSE {
      RaisedPulse(ns, mhz, psc);
    } else {
      PulseProduct(ns, mhz, psc, ticks);
      if ticks * psc * 1000 >= U32 { OverflowNotClose(ticks, psc, mhz, ns); }
      else if asked <= period { ReadBackClose(ticks, psc, mhz, ns); }
      else { CutPulse(ns, mhz, psc, period); }
    }
  }

  /** No more ticks than were asked for, multiplied out. */
  lemma PulseProduct(ns: Word, mhz: nat, psc: nat, ticks: nat)
    requires psc > 0 && ticks <= ns * mhz / psc / 1000
    ensures ticks * psc * 1000 <= ns * mhz
    ensures ticks == ns * mhz / psc / 1000 ==> ns * mhz < ticks * psc * 1000 + psc * 1000
  {
    var asked := ns * mhz / psc / 1000;
    TwoQuotients(ns * mhz, psc);
    Times(ticks, asked, psc * 1000);
    assert ticks * (psc * 1000) == ticks * psc * 1000;
  }

  /** A pulse below the minimum. */
  lemma RaisedPulse(ns: Word, mhz: nat, psc: nat)
    requires ClockOk(mhz) && 0 < psc <= 65536 && ns * mhz / psc / 1000 < MIN_PULSE
    ensures Close(ReadBack(MIN_PULSE, psc, mhz), ns, psc, mhz) <==> ns == MIN_PULSE * psc * 1000 / mhz
  {
    TwoQuotients(ns * mhz, psc);
    Times(ns * mhz / psc / 1000, 1, psc * 1000);
    var x := MIN_PULSE * psc * 1000;
    Small(x);
    NoLonger(ns, mhz, x);
    OnlyItself(x / mhz, ns, psc, mhz);
  }

  lemma NoLonger(ns: nat, mhz: nat, x: nat)
    requires mhz > 0 && ns * mhz < x
    ensures ns <= x / mhz
  {
    Quotient(x, mhz);
    if ns > x / mhz { Times(x / mhz + 1, ns, mhz); }
  }

  /** What reads back no shorter than it was asked is close only if it is the same. */
  lemma OnlyItself(back: nat, asked: nat, psc: nat, mhz: nat)
    requires mhz > 0 && asked <= back
    ensures Close(back, asked, psc, mhz) <==> asked == back
  {
    Product(0, mhz);
  }

  /** A pulse above the period. */
  lemma CutPulse(ns: Word, mhz: nat, psc: nat, period: nat)
    requires ClockOk(mhz) && period * psc * 1000 < U32 && psc > 0 && period * psc * 1000 <= ns * mhz
    ensures Close(ReadBack(period, psc, mhz), ns, psc, mhz) <==> ns <= period * psc * 1000 / mhz + (psc * 1000 + mhz - 1) / mhz
  {
    var x, room := period * psc * 1000, psc * 1000 + mhz - 1;
    Small(x);
    var back := x / mhz;
    Quotient(x, mhz);
    Quotient(room, mhz);
    if back > ns { Times(ns + 1, back, mhz); }
    var gap := ns - back;
    if gap <= room / mhz { Times(gap, room / mhz, mhz); } else { Times(room / mhz + 1, gap, mhz); }
  }

  /** A pulse never reads back longer than the period, as long as the period does not overflow. */
  lemma PulseReadBackWithin(pulse: nat, period: nat, psc: nat, mhz: nat)
    requires mhz > 0 && pulse <= period && period * psc * 1000 < U32
    ensures ReadBack(pulse, psc, mhz) <= ReadBack(period, psc, mhz)
  {
    Times(pulse, period, psc);
    Small(pulse * psc * 1000);
    Small(period * psc * 1000);
    var x, y := pulse * psc * 1000, period * psc * 1000;
    Quotient(x, mhz);
    Quotient(y, mhz);
    if x / mhz > y / mhz { Times(y / mhz + 1, x / mhz, mhz); }
  }

  // ---------------------------------------------------------------- the timer

  class Timer {
    var prescaler: nat       // PSC
    var reload: nat          // ARR
    var compare: nat         // CCR of the channel
    var counter: nat         // CNT

    /** Every register holds 16 bits, and the output can reach its compare value. */
    ghost predicate Valid()
      reads this
    {
      prescaler < 65536 && reload < 65536 && compare <= reload
    }

    constructor ()
      ensures Valid()
    {
      prescaler, reload, compare, counter := 0, 65535, 0, 0;
    }

    /** drv_pwm_set. */
    method Set(period0: Word, pulse0: Word, coreClock: nat)
      requires ClockOk(coreClock / 1000000)
      modifies this
      ensures Valid() && counter == 0
      ensures var mhz := coreClock / 1000000; var psc := Prescale(Clocks(period0, mhz));
        && prescaler + 1 == psc && reload + 1 == PeriodTicks(period0, mhz)
        && compare + 1 == PulseTicks(pulse0, mhz, psc, PeriodTicks(period0, mhz))
    {
      var timClock := coreClock / 1000000;
      RegistersFit(period0, timClock);
      var period := period0 * timClock / 1000;
      var psc := period / MAX_PERIOD + 1;
      period := period / psc;
      prescaler := psc - 1;
      if period < MIN_PERIOD { period := MIN_PERIOD; }
      reload := period - 1;
      PulseWithinPeriod(pulse0, timClock, psc, period);
      var pulse := pulse0 * timClock / psc / 1000;
      if pulse < MIN_PULSE { pulse := MIN_PULSE; }
      else if pulse > period { pulse := period; }
      compare := pulse - 1;
      counter := 0;
    }

    /** drv_pwm_get; `division` is the clock division of the timer. */
    method Get(coreClock: nat, division: nat) returns (period: nat, pulse: nat)
      requires division in {1, 2, 4} && coreClock / division / 1000000 > 0
      ensures var mhz := coreClock / division / 1000000;
        period == ReadBack(reload + 1, prescaler + 1, mhz) && pulse == ReadBack(compare + 1, prescaler + 1, mhz)
    {
      var timClock := coreClock;
      if division == 2 { timClock := timClock / 2; }
      else if division == 4 { timClock := timClock / 4; }
      timClock := timClock / 1000000;
      period := (reload + 1) * (prescaler + 1) * 1000 % U32 / timClock;
      pulse := (compare + 1) * (prescaler + 1) * 1000 % U32 / timClock;
    }
  }
}
