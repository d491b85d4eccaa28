/** The programmable interval timer: choosing a reload value, and keeping time (pit.c, pit_handler.asm). */
module Pit {
  import opened Words

  const PIT_ACTUAL_FREQUENCY := 3579545
  const PIT_INTERNAL_DIVIDER := 3
  const CLOCK_LIMIT := 0x1_0000_0000_0000_0000

  // ----- reload value -----

  /** Nearest integer to n/d, halves rounded down. */
  function Nearest(n: int, d: int): (q: int)
    requires n >= 0 && d > 0
    ensures q >= 0
  {
    n / d + if n % d > d / 2 then 1 else 0
  }

  /** init_timer: two divisions, each rounded, with a cast to 16 bits after each. */
  function ReloadFor(frequency: Word): int {
    if frequency >= 0x1_0000 then 0
    else if frequency < PIT_ACTUAL_FREQUENCY / 0x1_0000 / PIT_INTERNAL_DIVIDER then 0xFFFF
    else Nearest(Nearest(PIT_ACTUAL_FREQUENCY, frequency) % 0x1_0000, PIT_INTERNAL_DIVIDER) % 0x1_0000
  }

  /** What init_timer_with_reload_value makes of a reload value: 1 becomes 2, and 0 stands for 65536. */
  function Programmed(reloadValue: int): int {
    if reloadValue == 1 then 2 else if reloadValue == 0 then 0x1_0000 else reloadValue
  }

  /** By how much d * q misses the timer's own frequency. */
  function Miss(d: int, q: int): int { d * q - 3579545 }

  /** y is a nearest integer to 3579545 / (3 * frequency). */
  predicate IsNearestReload(frequency: int, y: int) {
    var d := 3 * frequency;
    -d <= 2 * Miss(d, y) <= d
  }

  lemma NearestIsNear(n: int, d: int)
    requires n >= 0 && d > 0
    ensures -d <= 2 * (d * Nearest(n, d) - n) < d
  {
    var q, r := n / d, n % d;
    assert n == d * q + r;
    if r > d / 2 {
      assert d * (q + 1) == d * q + d;
    }
  }

  lemma NearestMiss(d: int)
    requires d > 0
    ensures -d <= 2 * Miss(d, Nearest(PIT_ACTUAL_FREQUENCY, d)) <= d
  {
    NearestIsNear(PIT_ACTUAL_FREQUENCY, d);
    hide Nearest;
  }

  /** Rounding to thirds. */
  lemma NearestThird(x: int)
    requires x >= 0
    ensures -1 <= 3 * Nearest(x, 3) - x <= 1
  {
  }

  /** Rounding twice, by the frequency and then by 3, still gives a nearest reload value: exactly for
      frequencies from 55 to 65535.  Below 55 the first quotient does not survive its cast, or is not
      computed at all; from 65536 on the longest period is programmed. */
  lemma ReloadIsNearestIff(frequency: Word)
    ensures IsNearestReload(frequency, Programmed(ReloadFor(frequency))) <==> 55 <= frequency < 0x1_0000
    ensures 55 <= frequency < 0x1_0000 ==>
              Programmed(ReloadFor(frequency)) == Nearest(Nearest(PIT_ACTUAL_FREQUENCY, frequency), 3)
  {
    hide Miss, Nearest, ReloadFor, Programmed;
    if 55 <= frequency < 0x1_0000 {
      HighIsNearest(frequency);
    } else if frequency >= 0x1_0000 {
      LongestPeriod(frequency);
    } else if frequency >= 18 {
      LowIsFar(frequency);
    } else {
      VeryLow(frequency);
    }
  }

  lemma MiddleReload(f: Word)
    requires 18 <= f < 0x1_0000
    ensures ReloadFor(f) == Nearest(Nearest(PIT_ACTUAL_FREQUENCY, f) % 0x1_0000, 3) % 0x1_0000
  {
    hide Nearest;
  }

  lemma HighIsNearest(f: Word)
    requires 55 <= f < 0x1_0000
    ensures IsNearestReload(f, Programmed(ReloadFor(f)))
    ensures Programmed(ReloadFor(f)) == Nearest(Nearest(PIT_ACTUAL_FREQUENCY, f), 3)
  {
    hide Miss, Nearest, ReloadFor;
    var x := Nearest(PIT_ACTUAL_FREQUENCY, f);
    NearestMiss(f);
    QuotientBelow(f, x);
    NearestThird(x);
    TwoRoundings(f, x, Nearest(x, 3));
    ReloadIsLarge(f, Nearest(x, 3));
    MiddleReload(f);
  }

  lemma LowIsFar(f: Word)
    requires 18 <= f <= 54
    ensures !IsNearestReload(f, Programmed(ReloadFor(f)))
  {
    hide Miss, Nearest, ReloadFor;
    var x := Nearest(PIT_ACTUAL_FREQUENCY, f);
    NearestMiss(f);
    QuotientAbove(f, x);
    LowQuotient(f);
    NearestThird(x % 0x1_0000);
    TruncatedIsFar(f, x, Nearest(x % 0x1_0000, 3));
    MiddleReload(f);
  }

  lemma LongestPeriod(f: Word)
    requires f >= 0x1_0000
    ensures !IsNearestReload(f, Programmed(ReloadFor(f)))
  {
    assert ReloadFor(f) == 0;
    hide ReloadFor;
  }

  lemma VeryLow(f: Word)
    requires f < 18
    ensures !IsNearestReload(f, Programmed(ReloadFor(f)))
  {
    assert ReloadFor(f) == 0xFFFF;
    hide ReloadFor;
  }

  /** x is a nearest integer to 3579545 / frequency that needs more than 16 bits, and y is nearest to a third of its
      lower 16 bits. */
  predicate IsCutQuotient(frequency: int, x: int, y: int) {
    && -frequency <= 2 * Miss(frequency, x) <= frequency
    && x >= 65536 && -1 <= 3 * y - x % 65536 <= 1
  }

  /** The three ways a reload value is found, in numbers.  Up to 17 interrupts a second are answered by a reload
      value of 65535; from 18 to 54 the quotient is cut to 16 bits before it is divided by 3; from 65536 on the
      value is 65536. */
  lemma OtherReloads(frequency: Word)
    ensures frequency < 18 ==> Programmed(ReloadFor(frequency)) == 65535
    ensures frequency >= 65536 ==> Programmed(ReloadFor(frequency)) == 65536
    ensures 18 <= frequency <= 54 ==>
              exists x :: IsCutQuotient(frequency, x, Programmed(ReloadFor(frequency)))
  {
    if frequency < 18 {
      assert ReloadFor(frequency) == 0xFFFF;
    } else if frequency >= 65536 {
      assert ReloadFor(frequency) == 0;
    } else if frequency <= 54 {
      CutReload(frequency);
    }
    hide ReloadFor;
  }

  lemma CutReload(f: Word)
    requires 18 <= f <= 54
    ensures exists x :: IsCutQuotient(f, x, Programmed(ReloadFor(f)))
  {
    var x := Nearest(PIT_ACTUAL_FREQUENCY, f);
    NearestMiss(f);
    hide Nearest, ReloadFor, Miss;
    QuotientAbove(f, x);
    LowQuotient(f);
    NearestThird(x % 0x1_0000);
    MiddleReload(f);
    assert IsCutQuotient(f, x, Programmed(ReloadFor(f)));
  }

  lemma MulMonotone(f: int, a: int, b: int)
    requires f >= 0 && a <= b
    ensures f * a <= f * b
  {
  }

  lemma QuotientBelow(f: int, x: int)
    requires 55 <= f < 0x1_0000 && -f <= 2 * Miss(f, x) <= f
    ensures 0 <= x < 0x1_0000
  {
    if x >= 0x1_0000 {
      MulMonotone(f, 0x1_0000, x);
    }
    if x < 0 {
      MulMonotone(f, x, 0);
    }
  }

  lemma QuotientAbove(f: int, x: int)
    requires 0 < f <= 54 && -f <= 2 * Miss(f, x) <= f
    ensures x >= 0x1_0000
  {
    if x < 0x1_0000 {
      MulMonotone(f, x, 0xFFFF);
    }
  }

  /** The truncated quotient is not so small that the reload value would be 0 or 1. */
  lemma LowQuotient(f: Word)
    requires 18 <= f <= 54
    ensures 6 <= Nearest(PIT_ACTUAL_FREQUENCY, f) % 0x1_0000
  {
    NearestMiss(f);
    var x := Nearest(PIT_ACTUAL_FREQUENCY, f);
    hide Nearest;
    QuotientAbove(f, x);
    if x % 0x1_0000 < 6 {
      NotNearMultiple(f, x, x / 0x1_0000, x % 0x1_0000);
      assert false;
    }
  }

  lemma NotNearMultiple(f: int, x: int, k: int, r: int)
    requires 18 <= f <= 54 && x == 0x1_0000 * k + r && 0 <= r < 6
    ensures !(-f <= 2 * Miss(f, x) <= f)
  {
    var p := f * k;
    assert f * x == 0x1_0000 * p + f * r;
    assert 0 <= f * r <= 54 * 5;
    assert p <= 54 || p >= 55;
  }

  lemma ReloadIsLarge(f: int, y: int)
    requires 0 < f < 0x1_0000 && IsNearestReload(f, y)
    ensures y >= 2
  {
    if y < 2 {
      MulMonotone(3 * f, y, 1);
    }
  }

  lemma TwoRoundings(f: int, x: int, y: int)
    requires f > 0 && -f <= 2 * Miss(f, x) <= f && -1 <= 3 * y - x <= 1
    ensures IsNearestReload(f, y)
  {
    var e := 3 * y - x;
    assert 3 * f * y == f * x + f * e;
    assert -f <= f * e <= f;
  }

  lemma TruncatedIsFar(f: int, x: int, y: int)
    requires f > 0 && 2 * Miss(f, x) <= f && 3 * y <= x - 0xFFFF
    ensures !IsNearestReload(f, y)
  {
    var e := x - 0xFFFF - 3 * y;
    assert 3 * f * y == f * x - 0xFFFF * f - f * e;
    assert f * e >= 0;
  }

  // ----- the increment per tick -----

  /** 2^42 milliseconds per clock period, rounded up (init_timer_with_reload_value). */
  const PERIOD := PIT_INTERNAL_DIVIDER * 1000 * 0x400_0000_0000 / PIT_ACTUAL_FREQUENCY + 1

  /** Units of 2^-32 ms per tick. */
  function Increment(reload: Word): (m: int)
    ensures 0 <= m < CLOCK_LIMIT
  {
    PERIOD * reload / 1024
  }

  /** No step of the computation leaves 64 bits, for any 32-bit reload value, and the upper half of
      the increment fits a word. */
  lemma IncrementFits(reload: Word)
    ensures PIT_INTERNAL_DIVIDER * 1000 * 0x400_0000_0000 < CLOCK_LIMIT
    ensures PERIOD * reload < CLOCK_LIMIT
    ensures 0 <= Increment(reload) < CLOCK_LIMIT && Increment(reload) / WORD_LIMIT < WORD_LIMIT
  {
    assert PERIOD == 3685982306;
    assert PERIOD * reload <= PERIOD * (WORD_LIMIT - 1);
  }

  /** The exact length of a tick is reload * 3000 * 2^32 / 3579545 units.  The increment is less than
      one unit below it and at most reload/1024 units above it. */
  lemma IncrementError(reload: Word)
    requires reload > 0
    ensures var error := Increment(reload) * 3579545 - reload * 3000 * 0x1_0000_0000;
            -3579545 < error && 1024 * error <= reload * 3579545
  {
    assert PERIOD == 3685982306;
    var m := Increment(reload);
    assert 1024 * m <= PERIOD * reload < 1024 * m + 1024;
  }

  // ----- the clock -----

  /** A tick of timer_handler: add to the low word, then to the high word with the carry. */
  function Add64(high: Word, low: Word, dh: Word, dl: Word): (r: (Word, Word)) {
    var sum := low + dl;
    ((high + dh + sum / WORD_LIMIT) % WORD_LIMIT, sum % WORD_LIMIT)
  }

  function Clock(high: Word, low: Word): int { high * WORD_LIMIT + low }

  /** The pair of words counts modulo 2^64. */
  lemma Add64IsAddition(high: Word, low: Word, dh: Word, dl: Word)
    ensures var r := Add64(high, low, dh, dl);
            Clock(r.0, r.1) == (Clock(high, low) + Clock(dh, dl)) % CLOCK_LIMIT
  {
    var sum := low + dl;
    var carry := sum / WORD_LIMIT;
    var top := high + dh + carry;
    assert Clock(high, low) + Clock(dh, dl) == top * WORD_LIMIT + sum % WORD_LIMIT;
    if top < WORD_LIMIT {
      assert top % WORD_LIMIT == top;
    } else {
      assert top % WORD_LIMIT == top - WORD_LIMIT;
    }
  }

  /** The clock after n ticks of m units. */
  function ClockAfter(m: int, n: nat): int
    requires 0 <= m < CLOCK_LIMIT
  {
    if n == 0 then 0 else (ClockAfter(m, n - 1) + m) % CLOCK_LIMIT
  }

  lemma ModStep(a: int, b: int)
    ensures (a % CLOCK_LIMIT + b) % CLOCK_LIMIT == (a + b) % CLOCK_LIMIT
  {
    var q := a / CLOCK_LIMIT;
    var r := (a + b) / CLOCK_LIMIT;
    assert a % CLOCK_LIMIT + b == (a + b) % CLOCK_LIMIT + (r - q) * CLOCK_LIMIT;
    ModMultiple((a + b) % CLOCK_LIMIT, r - q);
  }

  lemma ModMultiple(x: int, k: int)
    requires 0 <= x < CLOCK_LIMIT
    ensures (x + k * CLOCK_LIMIT) % CLOCK_LIMIT == x
  {
  }

  lemma {:induction false} ClockCounts(m: int, n: nat)
    requires 0 <= m < CLOCK_LIMIT
    ensures ClockAfter(m, n) == n * m % CLOCK_LIMIT
  {
    if n > 0 {
      ClockCounts(m, n - 1);
      ModStep((n - 1) * m, m);
      assert (n - 1) * m + m == n * m;
    }
  }

  /** Until it wraps, the clock is within 64 units per tick of true time, for every reload value the
      hardware takes: after n ticks it is at most n units slow and 64 n units fast. */
  lemma DriftIsBounded(reload: Word, n: nat)
    requires 2 <= reload <= 0x1_0000 && n * Increment(reload) < CLOCK_LIMIT
    ensures var error := ClockAfter(Increment(reload), n) * 3579545 - n * (reload * 3000 * 0x1_0000_0000);
            -(n * 3579545) <= error <= 64 * n * 3579545
  {
    hide *;
    IncrementError(reload);
    ClockCounts(Increment(reload), n);
    Drift(reload, Increment(reload), n, ClockAfter(Increment(reload), n));
  }

  lemma Drift(reload: int, m: int, n: nat, now: int)
    requires 2 <= reload <= 0x1_0000 && 0 <= n * m < CLOCK_LIMIT && now == n * m % CLOCK_LIMIT
    requires var e := m * 3579545 - reload * 3000 * 0x1_0000_0000;
             -3579545 < e && 1024 * e <= reload * 3579545
    ensures var error := now * 3579545 - n * (reload * 3000 * 0x1_0000_0000);
            -(n * 3579545) <= error <= 64 * n * 3579545
  {
    var e := m * 3579545 - reload * 3000 * 0x1_0000_0000;
    assert now == n * m;
    Scale(n, m, reload * 3000 * 0x1_0000_0000, e);
    ScaleBounds(n, e);
  }

  lemma Scale(n: nat, m: int, t: int, e: int)
    requires e == m * 3579545 - t
    ensures n * m * 3579545 - n * t == n * e
  {
    assert n * (m * 3579545) == n * m * 3579545;
  }

  lemma ScaleBounds(n: nat, e: int)
    requires -3579545 < e <= 64 * 3579545
    ensures -(n * 3579545) <= n * e <= 64 * n * 3579545
  {
  }

  // ----- the code -----

  /** The timer's variables. */
  class Timer {
    var reload: Word
    var interruptMillis: Word
    var interruptMillisFractions: Word
    var millis: Word
    var millisFractions: Word

    constructor ()
      ensures millis == 0 && millisFractions == 0
    {
      reload, interruptMillis, interruptMillisFractions, millis, millisFractions := 0, 0, 0, 0, 0;
    }

    ghost function Now(): int
      reads this
    {
      Clock(millis, millisFractions)
    }

    ghost function PerTick(): int
      reads this
    {
      Clock(interruptMillis, interruptMillisFractions)
    }

    /** init_timer_with_reload_value. */
    method InitWithReload(reloadValue: Word)
      modifies this`reload, this`interruptMillis, this`interruptMillisFractions
      ensures reload == Programmed(reloadValue)
      ensures reloadValue > 1 ==> reload == reloadValue
      ensures reloadValue == 1 ==> reload == 2
      ensures reloadValue == 0 ==> reload == 65536
      ensures PerTick() == Increment(reload)
    {
      reload := reloadValue;
      if reloadValue == 1 {
        reload := reload + 1;
      } else if reloadValue == 0 {
        reload := 0x1_0000;
      }
      IncrementFits(reload);
      var mils := (PIT_INTERNAL_DIVIDER * 1000 * 0x400_0000_0000 / PIT_ACTUAL_FREQUENCY + 1) * reload / 1024;
      interruptMillis := mils / WORD_LIMIT;
      interruptMillisFractions := mils % WORD_LIMIT;
    }

    /** init_timer. */
    method Init(frequency: Word)
      modifies this`reload, this`interruptMillis, this`interruptMillisFractions
      ensures 2 <= reload <= 0x1_0000 && PerTick() == Increment(reload)
      ensures reload == Programmed(ReloadFor(frequency))
      ensures IsNearestReload(frequency, reload) <==> 55 <= frequency < 0x1_0000
      ensures frequency < 18 ==> reload == 65535
      ensures frequency >= 65536 ==> reload == 65536
    {
      var value: Word;
      if frequency >= 0x1_0000 {
        value := 0;
      } else if frequency < PIT_ACTUAL_FREQUENCY / 0x1_0000 / PIT_INTERNAL_DIVIDER {
        value := 0xFFFF;
      } else {
        var bump := if PIT_ACTUAL_FREQUENCY % frequency > frequency / 2 then 1 else 0;
        value := (PIT_ACTUAL_FREQUENCY / frequency + bump) % 0x1_0000;
        bump := if value % PIT_INTERNAL_DIVIDER > PIT_INTERNAL_DIVIDER / 2 then 1 else 0;
        value := (value / PIT_INTERNAL_DIVIDER + bump) % 0x1_0000;
      }
      assert value == ReloadFor(frequency);
      ReloadIsNearestIff(frequency);
      OtherReloads(frequency);
      InitWithReload(value);
    }

    /** timer_handler. */
    method Tick()
      modifies this`millis, this`millisFractions
      ensures Now() == (old(Now()) + PerTick()) % CLOCK_LIMIT
    {
      Add64IsAddition(millis, millisFractions, interruptMillis, interruptMillisFractions);
      var carry := (millisFractions + interruptMillisFractions) / WORD_LIMIT;
      millisFractions := (millisFractions + interruptMillisFractions) % WORD_LIMIT;
      millis := (millis + interruptMillis + carry) % WORD_LIMIT;
    }

    /** n ticks from a clock at zero. */
    method Ticks(n: nat)
      requires Now() == 0 && 0 <= PerTick() < CLOCK_LIMIT
      modifies this`millis, this`millisFractions
      ensures Now() == n * PerTick() % CLOCK_LIMIT
    {
      for i := 0 to n
        invariant Now() == ClockAfter(PerTick(), i)
      {
        Tick();
      }
      ClockCounts(PerTick(), n);
    }
  }
}
