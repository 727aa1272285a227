/**
 * Dates as the dashboard observes them. `new Date(x)` is the host's
 * parser and is a parameter of the components that use it; its result is
 * `None` for an Invalid Date, whose time value is NaN. A valid date has a
 * time value in milliseconds on the local clock, together with the
 * calendar year and month (0 for January) that `getFullYear` and
 * `getMonth` report for it.
 */
module Dates {
  import opened Wrappers
  import opened Cells

  const DayMs: int := 86400000

  type MonthIndex = m: int | 0 <= m < 12

  datatype Moment = Moment(stamp: int, year: int, month: MonthIndex)

  /** The host's `new Date(value)`. */
  type DateParser = Cell -> Option<Moment>

  /** `a > b` on two Date objects: false as soon as either time value is NaN. */
  predicate After(a: Option<Moment>, b: Option<Moment>) {
    a.Some? && b.Some? && a.value.stamp > b.value.stamp
  }

  lemma AfterTransitive(a: Option<Moment>, b: Option<Moment>, c: Option<Moment>)
    requires After(a, b) && After(b, c)
    ensures After(a, c)
  {
  }

  lemma AfterIrreflexive(a: Option<Moment>)
    ensures !After(a, a)
  {
  }

  /** `getDay()` of a local time value: 1 January 1970 was a Thursday (4). */
  function Weekday(stamp: int): (d: int)
    ensures 0 <= d < 7
  {
    (stamp / DayMs + 4) % 7
  }

  /** `setDate(getDate() + k)`: k calendar days later, same time of day. */
  function AddDays(stamp: int, k: int): int {
    stamp + k * DayMs
  }

  /** Whole days move the day number and keep the time of day. */
  lemma AddDaysDayNumber(stamp: int, k: int)
    ensures AddDays(stamp, k) / DayMs == stamp / DayMs + k
    ensures AddDays(stamp, k) % DayMs == stamp % DayMs
  {
    var q, r := stamp / DayMs, stamp % DayMs;
    assert stamp == DayMs * q + r;
    assert AddDays(stamp, k) == DayMs * (q + k) + r;
  }

  /** k days later is k weekdays later, modulo 7. */
  lemma WeekdayAddDays(stamp: int, k: int)
    ensures Weekday(AddDays(stamp, k)) == (Weekday(stamp) + k) % 7
  {
    AddDaysDayNumber(stamp, k);
    var n := stamp / DayMs + 4;
    assert n == 7 * (n / 7) + n % 7;
    assert n + k == 7 * (n / 7) + (n % 7 + k);
  }
}
