/**
 * Timestamps are whole minutes since an epoch. A calendar day is a timestamp
 * divided by the minutes in a day (floor division, so days before the epoch
 * are numbered consistently too).
 */
module Time {
  /** Half-width of the reservation exclusion window: 90 minutes either side. */
  const WindowMinutes: int := 90
  const MinutesPerDay: int := 1440

  function Abs(x: int): nat {
    if x < 0 then -x else x
  }

  /** The calendar day holding minute `t`. */
  function Day(t: int): int {
    t / MinutesPerDay
  }

  /** The first minute of calendar day `day`, which is what a date compares as against a date and time. */
  function Midnight(day: int): int {
    day * MinutesPerDay
  }
}
