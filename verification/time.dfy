/** Instants are whole seconds on one local time line (the day-number
    abstraction of `LocalDateTime` and of the browser's `Date`); dates are
    integer day numbers. */
module Time {

  const SecondsPerMinute: int := 60
  const SecondsPerHour: int := 3600
  const SecondsPerDay: int := 86400

  /** The instant at `hour:minute` of `day`; hours and minutes outside their
      usual range carry over, as `Date.UTC` does. */
  function At(day: int, hour: int, minute: int): int {
    day * SecondsPerDay + hour * SecondsPerHour + minute * SecondsPerMinute
  }

  /** The calendar day an instant falls on (`format(t, "yyyy-MM-dd")`). */
  function DayOf(t: int): int {
    t / SecondsPerDay
  }

  /** `HH` of an instant. */
  function HourOf(t: int): nat {
    (t % SecondsPerDay) / SecondsPerHour
  }

  /** `mm` of an instant. */
  function MinuteOf(t: int): nat {
    (t % SecondsPerHour) / SecondsPerMinute
  }

  /** `LocalDate.now().atStartOfDay()` for the instant `t`. */
  function StartOfDay(t: int): (r: int)
    ensures r <= t < r + SecondsPerDay
    ensures DayOf(r) == DayOf(t)
  {
    DayOf(t) * SecondsPerDay
  }

  /** Reading day, hour and minute back from an instant built by `At`. */
  lemma AtComponents(day: int, hour: int, minute: int)
    requires 0 <= hour < 24 && 0 <= minute < 60
    ensures DayOf(At(day, hour, minute)) == day
    ensures HourOf(At(day, hour, minute)) == hour
    ensures MinuteOf(At(day, hour, minute)) == minute
  {
    var t := At(day, hour, minute);
    var inDay := hour * 3600 + minute * 60;
    DivModUnique(t, 86400, day, inDay);
    DivModUnique(inDay, 3600, hour, minute * 60);
    DivModUnique(t, 3600, day * 24 + hour, minute * 60);
    DivModUnique(minute * 60, 60, minute, 0);
  }

  /** Quotient and remainder are determined by any decomposition with a
      remainder in range. */
  lemma DivModUnique(t: int, d: int, q: int, r: int)
    requires d > 0 && 0 <= r < d && t == q * d + r
    ensures t / d == q && t % d == r
  {
    var q0, r0 := t / d, t % d;
    assert (q - q0) * d == r0 - r;
    if q != q0 {
      NonzeroMultiple(q - q0, d);
    }
  }

  /** A non-zero multiple of `d` is at least `d` away from zero. */
  lemma NonzeroMultiple(k: int, d: int)
    requires d > 0 && k != 0
    ensures k * d >= d || k * d <= -d
  {
    if k > 0 {
      assert (k - 1) * d >= 0;
    } else {
      assert (-k - 1) * d >= 0;
    }
  }
}
