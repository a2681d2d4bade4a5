/** Time of day as used by the planner: `java.time.LocalTime` reduced to whole
    minutes since midnight. Adding or subtracting minutes wraps around midnight;
    comparisons are plain comparisons of the minute count. */
module LocalTime {

  const MinutesPerDay: int := 1440

  /** Minutes since midnight, 00:00 .. 23:59. */
  type Time = t: int | 0 <= t < 1440

  /** `LocalTime.of(hour, minute)`. */
  function Of(hour: int, minute: int): (t: Time)
    requires 0 <= hour < 24 && 0 <= minute < 60
    ensures t / 60 == hour && t % 60 == minute
  {
    hour * 60 + minute
  }

  /** `t.plusMinutes(n)`: the time n minutes later, wrapping around midnight
      (n may be negative). */
  function PlusMinutes(t: Time, n: int): (r: Time)
    ensures (r - t - n) % MinutesPerDay == 0
    ensures 0 <= t + n < MinutesPerDay ==> r == t + n
  {
    (t + n) % MinutesPerDay
  }

  /** `t.minusMinutes(n)`: the time n minutes earlier, wrapping around midnight. */
  function MinusMinutes(t: Time, n: int): (r: Time)
    ensures (r - t + n) % MinutesPerDay == 0
    ensures 0 <= t - n < MinutesPerDay ==> r == t - n
  {
    PlusMinutes(t, -n)
  }

  /** `a.isBefore(b)`: `a` comes strictly earlier in the day, the mirror
      image of `b.isAfter(a)`. */
  predicate IsBefore(a: Time, b: Time): (r: bool)
    ensures r <==> IsAfter(b, a)
  {
    a < b
  }

  /** `a.isAfter(b)`: `a` comes strictly later in the day, so the duration
      from `b` to `a` is positive. */
  predicate IsAfter(a: Time, b: Time): (r: bool)
    ensures r ==> a != b
    ensures r <==> 0 < MinutesBetween(b, a)
  {
    a > b
  }

  /** `Duration.between(a, b).toMinutes()`: signed, not wrapped. Going
      forward by it from `a` lands on `b`, and it is negative exactly when
      `b` comes earlier in the day than `a`. */
  function MinutesBetween(a: Time, b: Time): (m: int)
    ensures -MinutesPerDay < m < MinutesPerDay
    ensures PlusMinutes(a, m) == b
    ensures 0 <= m <==> a <= b
  {
    b - a
  }

  /** Subtracting what was added gives back the original time, across midnight too. */
  lemma MinusUndoesPlus(t: Time, n: int)
    ensures MinusMinutes(PlusMinutes(t, n), n) == t
  {
    var r := PlusMinutes(t, n);
    assert (r - t - n) % MinutesPerDay == 0;
    var q := (r - t - n) / MinutesPerDay;
    assert r - n == t + q * MinutesPerDay;
    assert (r - n) % MinutesPerDay == t;
  }
}
