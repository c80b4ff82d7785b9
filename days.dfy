/** The day helpers of the Gantt page. Instants are integer milliseconds; a calendar day is the
    integer `t / DAY_MS`, that is, days are counted in UTC, where every day is `DAY_MS` long. */
module Days {

  const DAY_MS: int := 24 * 60 * 60 * 1000

  function DayOf(t: int): int
  {
    t / DAY_MS
  }

  /** `startOfDay`: midnight at the start of the instant's day. */
  function StartOfDay(t: int): (r: int)
    ensures r <= t < r + DAY_MS
    ensures DayOf(r) == DayOf(t)
  {
    DayOf(t) * DAY_MS
  }

  /** `addDays`: midnight of the day n days after the instant's day; the time of day is dropped. */
  function AddDays(t: int, n: int): (r: int)
    ensures DayOf(r) == DayOf(t) + n
    ensures StartOfDay(r) == r
  {
    (DayOf(t) + n) * DAY_MS
  }

  /** `daysInclusive`: the number of calendar days from the first instant's day to the second's,
      both counted, and never less than one. */
  function DaysInclusive(from: int, to: int): (r: int)
    ensures r >= 1
    ensures DayOf(from) <= DayOf(to) ==> r == DayOf(to) - DayOf(from) + 1
    ensures DayOf(to) < DayOf(from) ==> r == 1
  {
    var a := StartOfDay(from);
    var b := StartOfDay(to);
    var diff := (b - a) / DAY_MS + 1;
    if 1 < diff then diff else 1
  }

  /** `durationForGantt`: one day for a span within one day (or running backwards); otherwise the
      number of days that makes `addDays(from, duration)` the midnight that starts the last day. */
  function DurationForGantt(from: int, to: int): (r: int)
    ensures r >= 1
    ensures DayOf(to) <= DayOf(from) ==> r == 1
    ensures DayOf(from) < DayOf(to) ==> AddDays(from, r) == StartOfDay(to)
    ensures DayOf(from) < DayOf(to) ==> r == DaysInclusive(from, to) - 1
  {
    var inc := DaysInclusive(from, to);
    if inc > 1 then inc - 1 else 1
  }
}
