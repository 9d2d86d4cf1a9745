/**
 * Local wall-clock time.  Every instant is a whole number of minutes of local
 * time (the deployment's zone, America/Fortaleza, keeps no daylight saving),
 * and day 0 is 1970-01-01.  The model takes every instant as already local: the
 * reservation validator reads `inicio.time()` and `fim.time()` without
 * `localtime`, and here that is the same reading as the local date it takes
 * for the weekday and the blocked-date test.
 */
module Clock {
  const MinutesPerDay: int := 1440

  /** A time of day (Django `TimeField`) at minute resolution: 00:00 .. 23:59. */
  type TimeOfDay = t: int | 0 <= t < 1440

  /** `date.weekday()`: 0 = Monday .. 6 = Sunday. */
  type Weekday = w: int | 0 <= w < 7

  /** The local calendar date of an instant, as a day number. */
  function DayOf(m: int): int {
    m / MinutesPerDay
  }

  /** The local time of day of an instant. */
  function TimeOf(m: int): TimeOfDay {
    m % MinutesPerDay
  }

  /** `datetime.combine(day, t)`: the instant of time `t` on `day`. */
  function At(day: int, t: TimeOfDay): int {
    day * MinutesPerDay + t
  }

  /** Day 0, 1970-01-01, was a Thursday (weekday 3). */
  function WeekdayOf(day: int): Weekday {
    (day + 3) % 7
  }

  /** An instant inside a day has that day as its date and its offset as its time. */
  lemma WithinDay(day: int, m: int)
    requires At(day, 0) <= m < At(day, 0) + MinutesPerDay
    ensures DayOf(m) == day
    ensures TimeOf(m) == m - At(day, 0)
  {
    var t := m - day * MinutesPerDay;
    assert m == day * MinutesPerDay + t && 0 <= t < MinutesPerDay;
  }

  /** `combine` followed by `.date()` and `.time()` gives back the day and the time. */
  lemma AtRoundTrip(day: int, t: TimeOfDay)
    ensures DayOf(At(day, t)) == day
    ensures TimeOf(At(day, t)) == t
  {
    WithinDay(day, At(day, t));
  }

  /** Consecutive days have consecutive weekdays, Sunday wrapping to Monday. */
  lemma NextWeekday(day: int)
    ensures WeekdayOf(day + 1) == if WeekdayOf(day) == 6 then 0 else WeekdayOf(day) + 1
  {
  }
}
