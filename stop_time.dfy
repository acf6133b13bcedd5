/** How periods.py turns the stop time into the seconds it plans with:
    `(endtime - now).seconds`, where endtime is the stop time on
    1900-01-01 and now is the current date and time. */
module StopTime {

  const MicrosPerSecond := 1_000_000
  const SecondsPerDay := 86_400
  const MicrosPerDay := 86_400_000_000

  /** Microseconds from midnight to hh:mm. */
  function StopMicros(hour: int, minute: int): int {
    (hour * 60 + minute) * 60 * MicrosPerSecond
  }

  /** The `seconds` attribute of a timedelta of `micros` microseconds:
      timedelta keeps a whole number of days (floored) and a remainder of
      seconds in [0, 86400) plus microseconds. */
  function TimedeltaSeconds(micros: int): (r: int)
    ensures 0 <= r < SecondsPerDay
    ensures r * MicrosPerSecond <= micros % MicrosPerDay < (r + 1) * MicrosPerSecond
  {
    (micros % MicrosPerDay) / MicrosPerSecond
  }

  /** The seconds planned with, for a stop time hh:mm, a current time of
      day nowMicros and dayDiff whole days between 1900-01-01 and today.
      Whatever the dates, the result is the whole seconds until the next
      hh:mm: today if it has not passed, tomorrow otherwise. */
  function SecondsLeft(dayDiff: int, hour: int, minute: int, nowMicros: int): (r: int)
    requires 0 <= hour < 24 && 0 <= minute < 60
    requires 0 <= nowMicros < MicrosPerDay
    ensures 0 <= r < SecondsPerDay
    ensures var stop := StopMicros(hour, minute);
      if nowMicros <= stop then r == (stop - nowMicros) / MicrosPerSecond
      else r == (stop + MicrosPerDay - nowMicros) / MicrosPerSecond
  {
    var x := StopMicros(hour, minute) - nowMicros;
    WholeDaysVanish(dayDiff, x);
    TimedeltaSeconds(dayDiff * MicrosPerDay + x)
  }

  lemma {:induction false} WholeDaysVanish(days: int, x: int)
    ensures (days * MicrosPerDay + x) % MicrosPerDay == x % MicrosPerDay
    decreases if days < 0 then -days else days
  {
    if days > 0 {
      WholeDaysVanish(days - 1, x);
      assert days * MicrosPerDay + x == ((days - 1) * MicrosPerDay + x) + MicrosPerDay;
    } else if days < 0 {
      WholeDaysVanish(days + 1, x);
      assert days * MicrosPerDay + x == ((days + 1) * MicrosPerDay + x) - MicrosPerDay;
    }
  }
}
