/** `DateTime` values as a count of 100-nanosecond ticks, as .NET stores them. */
module Time {

  type Instant = int

  const TicksPerSecond: int := 10_000_000
  const TicksPerMinute: int := 600_000_000
  const TicksPerDay: int := 864_000_000_000

  /** `DateTime.AddMinutes` for a whole number of minutes. */
  function AddMinutes(t: Instant, minutes: int): Instant {
    t + minutes * TicksPerMinute
  }

  /** `DateTime.AddDays` for a whole number of days. */
  function AddDays(t: Instant, days: int): Instant {
    t + days * TicksPerDay
  }

  /** 1970-01-01T00:00:00Z, the origin of JWT NumericDate values. */
  const UnixEpoch: Instant := 621_355_968_000_000_000

  /** `EpochTime.GetIntDate`: whole seconds since the Unix epoch, the fraction
      dropped; instants at or before the epoch give 0. */
  function IntDate(t: Instant): (secs: int)
    ensures secs >= 0
    ensures t > UnixEpoch ==> UnixEpoch + secs * TicksPerSecond <= t < UnixEpoch + (secs + 1) * TicksPerSecond
    ensures t <= UnixEpoch ==> secs == 0
  {
    if t <= UnixEpoch then 0 else (t - UnixEpoch) / TicksPerSecond
  }

  /** Adding whole seconds to an instant after the epoch adds them to its NumericDate. */
  lemma IntDateAddSeconds(t: Instant, secs: int)
    requires t >= UnixEpoch && secs >= 0
    ensures IntDate(t + secs * TicksPerSecond) == IntDate(t) + secs
  {
    var q := IntDate(t);
    var u := t + secs * TicksPerSecond;
    if u > UnixEpoch {
      var d := IntDate(u);
      assert UnixEpoch + (q + secs) * TicksPerSecond <= u < UnixEpoch + (q + secs + 1) * TicksPerSecond;
      assert UnixEpoch + d * TicksPerSecond <= u < UnixEpoch + (d + 1) * TicksPerSecond;
    }
  }

  /** A later instant never has an earlier NumericDate. */
  lemma IntDateMonotone(a: Instant, b: Instant)
    requires a <= b
    ensures IntDate(a) <= IntDate(b)
  {
    if a > UnixEpoch {
      assert UnixEpoch + IntDate(a) * TicksPerSecond <= b < UnixEpoch + (IntDate(b) + 1) * TicksPerSecond;
    }
  }
}
