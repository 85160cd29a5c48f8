/**
 * Go's time.Time values in UTC, as a count of nanoseconds since Go's zero
 * time, January 1, year 1, 00:00:00 UTC. The zero time is therefore 0.
 */
module GoTime {

  type Instant = int

  const ZeroTime: Instant := 0

  const Millisecond: int := 1_000_000
  const Second: int := 1_000_000_000
  const Minute: int := 60 * Second
  const Hour: int := 60 * Minute
  const Day: int := 24 * Hour

  /** t.Hour() in UTC. Dafny's division rounds towards minus infinity for a
      positive divisor, as Go's calendar arithmetic does. */
  function HourOf(t: Instant): (h: int)
    ensures 0 <= h < 24
  {
    (t % Day) / Hour
  }

  /** t.Minute() in UTC. */
  function MinuteOf(t: Instant): (m: int)
    ensures 0 <= m < 60
  {
    (t % Hour) / Minute
  }

  /** The instant whose UTC clock shows what t's clock shows in a Location
      that is zoneOffset seconds east of UTC at t: t.Hour() and t.Minute()
      read HourOf and MinuteOf of this. */
  function InZone(t: Instant, zoneOffset: int): Instant {
    t + zoneOffset * Second
  }

  /** time.Date(0, 0, 0, 0, 0, 0, 0, time.UTC), which Go normalises to
      November 30 of year -1: 32 days before year 0 begins, and year 0 is a
      leap year of 366 days. */
  const DateZeroZeroZero: Instant := -398 * Day

  /** time.Date(0, 0, 0, hour, min, 0, 0, time.UTC): hours and minutes outside
      their usual ranges carry into the days, as Go normalises them. */
  function DateOfDayZero(hour: int, min: int): Instant {
    DateZeroZeroZero + hour * Hour + min * Minute
  }

  lemma DateOfDayZeroClock(hour: int, min: int)
    requires 0 <= hour && 0 <= min < 60
    ensures HourOf(DateOfDayZero(hour, min)) == hour % 24
    ensures MinuteOf(DateOfDayZero(hour, min)) == min
  {
    var t := DateOfDayZero(hour, min);
    var h, q := hour % 24, hour / 24;
    var inHour := min * Minute;
    var inDay := h * Hour + inHour;
    assert hour == q * 24 + h;
    assert t == (q - 398) * Day + inDay;
    assert 0 <= inHour < Hour;
    DivModOf(q - 398, inDay, Day);
    DivModOf(h, inHour, Hour);
    assert t == ((q - 398) * 24 + h) * Hour + inHour;
    DivModOf((q - 398) * 24 + h, inHour, Hour);
    DivModOf(min, 0, Minute);
  }

  /** Euclidean division of q * m + a by m, for 0 <= a < m. */
  lemma DivModOf(q: int, a: int, m: int)
    requires 0 <= a < m
    ensures (q * m + a) % m == a && (q * m + a) / m == q
  {
    var n := q * m + a;
    var d, r := n / m, n % m;
    assert (q - d) * m == r - a;
    if d < q {
      MulAtLeast(q - d, m);
    } else if q < d {
      MulAtLeast(d - q, m);
    }
  }

  lemma MulAtLeast(k: int, m: int)
    requires 1 <= k && 0 < m
    ensures k * m >= m
  {
    assert k * m == (k - 1) * m + m;
  }
}
