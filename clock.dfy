/**
 * The clock arithmetic of the wake-up watch: minute of the day from the
 * stored offset and the time since boot, the three-way mood classification
 * and the automatic show window.
 */
module Clock {

  /** One minute of the program's time per minute of real time. */
  const TimeMultiplier: nat := 1
  const MillisPerMinute: nat := 1000 * 60
  const MinutesPerDay: nat := 60 * 24

  /** 6.75 * 60, that is 6:45. */
  const AlmostWakeTime: int := 405
  /** 7.25 * 60, that is 7:15. */
  const WakeTime: int := 435
  /** 21.5 * 60, that is 21:30. */
  const SleepTime: int := 1290
  /** 6 * 60 */
  const ShowStart: int := 360
  /** 8 * 60 */
  const ShowEnd: int := 480

  /**
   * The minutes counted before reduction to a day: the product of the
   * multiplier with the elapsed minutes (a fraction) plus the offset,
   * truncated to an integer. Exact real arithmetic stands for the float.
   */
  function ScaledMinutes(elapsedMs: nat, offset: nat, multiplier: nat): (total: int)
    ensures multiplier * offset <= total
  {
    assert 0.0 <= multiplier as real * (elapsedMs as real / MillisPerMinute as real);
    (multiplier as real * (elapsedMs as real / MillisPerMinute as real + offset as real)).Floor
  }

  /** The minute of the day shown by the watch. */
  function CurrentMinutes(elapsedMs: nat, offset: nat, multiplier: nat): (m: int)
    ensures 0 <= m < MinutesPerDay
  {
    ScaledMinutes(elapsedMs, offset, multiplier) % MinutesPerDay
  }

  /** Truncating the real product is the same as integer division of the scaled milliseconds. */
  lemma ScaledMinutesExact(elapsedMs: nat, offset: nat, multiplier: nat)
    ensures ScaledMinutes(elapsedMs, offset, multiplier)
         == (multiplier * elapsedMs) / MillisPerMinute + multiplier * offset
  {
    var a := multiplier * elapsedMs;
    var q, r := a / MillisPerMinute, a % MillisPerMinute;
    assert a == q * MillisPerMinute + r;
    var x := multiplier as real * (elapsedMs as real / MillisPerMinute as real + offset as real);
    assert x == a as real / 60000.0 + (multiplier * offset) as real;
    assert a as real / 60000.0 == q as real + r as real / 60000.0;
    assert 0.0 <= r as real / 60000.0 < 1.0;
    assert x == (q + multiplier * offset) as real + r as real / 60000.0;
  }

  /** The reduced form in integers, for non-negative inputs. */
  lemma CurrentMinutesExact(elapsedMs: nat, offset: nat, multiplier: nat)
    ensures CurrentMinutes(elapsedMs, offset, multiplier)
         == ((multiplier * elapsedMs) / MillisPerMinute + multiplier * offset) % MinutesPerDay
  {
    ScaledMinutesExact(elapsedMs, offset, multiplier);
  }

  /** The unreduced count never goes backwards as time passes. */
  lemma ScaledMinutesMonotone(ms1: nat, ms2: nat, offset: nat, multiplier: nat)
    requires ms1 <= ms2
    ensures ScaledMinutes(ms1, offset, multiplier) <= ScaledMinutes(ms2, offset, multiplier)
  {
    ScaledMinutesExact(ms1, offset, multiplier);
    ScaledMinutesExact(ms2, offset, multiplier);
    assert multiplier * ms1 <= multiplier * ms2;
  }

  /**
   * Every k real minutes the shown minute moves multiplier * k minutes
   * ahead, wrapping at midnight.
   */
  lemma CurrentMinutesAdvance(elapsedMs: nat, k: nat, offset: nat, multiplier: nat)
    ensures CurrentMinutes(elapsedMs + k * MillisPerMinute, offset, multiplier)
         == (CurrentMinutes(elapsedMs, offset, multiplier) + multiplier * k) % MinutesPerDay
  {
    var a := multiplier * elapsedMs;
    ScaledMinutesExact(elapsedMs, offset, multiplier);
    ScaledMinutesExact(elapsedMs + k * MillisPerMinute, offset, multiplier);
    assert multiplier * (elapsedMs + k * MillisPerMinute) == a + (multiplier * k) * MillisPerMinute;
    assert (a + (multiplier * k) * MillisPerMinute) / MillisPerMinute == a / MillisPerMinute + multiplier * k;
    var s := ScaledMinutes(elapsedMs, offset, multiplier);
    assert ScaledMinutes(elapsedMs + k * MillisPerMinute, offset, multiplier) == s + multiplier * k;
    ModAddLeft(s, multiplier * k);
  }

  lemma ModAddLeft(a: int, b: int)
    ensures (a + b) % MinutesPerDay == (a % MinutesPerDay + b) % MinutesPerDay
  {
    var q := a / MinutesPerDay;
    assert a == q * MinutesPerDay + a % MinutesPerDay;
  }

  /** With the shipped multiplier, the clock repeats every 24 hours of running time. */
  lemma CurrentMinutesDaily(elapsedMs: nat, offset: nat)
    ensures CurrentMinutes(elapsedMs + MinutesPerDay * MillisPerMinute, offset, TimeMultiplier)
         == CurrentMinutes(elapsedMs, offset, TimeMultiplier)
  {
    CurrentMinutesAdvance(elapsedMs, MinutesPerDay, offset, TimeMultiplier);
  }

  /** Within the first minute after boot an offset inside the day is shown as it was set. */
  lemma CurrentMinutesAtStart(elapsedMs: nat, offset: nat)
    requires elapsedMs < MillisPerMinute && offset < MinutesPerDay
    ensures CurrentMinutes(elapsedMs, offset, TimeMultiplier) == offset
  {
    CurrentMinutesExact(elapsedMs, offset, TimeMultiplier);
  }

  /**
   * The multiplier scales the stored offset as well as the elapsed time:
   * at boot with multiplier 60, an offset of 7:00 reads as 12:00.
   */
  lemma CurrentMinutesScalesOffset(offset: nat, multiplier: nat)
    ensures CurrentMinutes(0, offset, multiplier) == (multiplier * offset) % MinutesPerDay
    ensures CurrentMinutes(0, 420, 60) == 720
  {
    CurrentMinutesExact(0, offset, multiplier);
    CurrentMinutesExact(0, 420, 60);
  }

  /** The icon the watch shows for a minute of the day. */
  datatype Icon = Asleep | AllClocks | Happy

  /**
   * Asleep before the almost-wake time or after the sleep time (which wraps
   * across midnight), clocks until the wake time, happy otherwise.
   */
  function Status(minute: int): (icon: Icon)
    ensures icon == Asleep <==> minute < 405 || 1290 < minute
    ensures icon == AllClocks <==> 405 <= minute < 435
    ensures icon == Happy <==> 435 <= minute <= 1290
  {
    if minute < AlmostWakeTime || minute > SleepTime then Asleep
    else if minute < WakeTime then AllClocks
    else Happy
  }

  lemma StatusBoundaries()
    ensures Status(404) == Asleep && Status(405) == AllClocks
    ensures Status(434) == AllClocks && Status(435) == Happy
    ensures Status(1290) == Happy && Status(1291) == Asleep
    ensures Status(0) == Asleep && Status(1439) == Asleep
  {
  }

  /** Whether the status is shown without a button press; both bounds are excluded. */
  predicate InShowWindow(minute: int)
    ensures InShowWindow(minute) ==> 0 <= minute < MinutesPerDay
  {
    ShowStart < minute < ShowEnd
  }

  lemma ShowWindowBoundaries()
    ensures !InShowWindow(360) && InShowWindow(361)
    ensures InShowWindow(479) && !InShowWindow(480)
  {
  }

  /**
   * Inside the show window the watch walks through all three icons: asleep
   * until 6:45, clocks until 7:15, happy after.
   */
  lemma ShowWindowStatus(minute: int)
    requires InShowWindow(minute)
    ensures Status(minute) == Asleep <==> minute < AlmostWakeTime
    ensures Status(minute) == AllClocks <==> AlmostWakeTime <= minute < WakeTime
    ensures Status(minute) == Happy <==> WakeTime <= minute
  {
  }
}
