/** Dates and timestamps. A calendar date is its proleptic Gregorian ordinal
    (`date.toordinal()`: 1 January of year 1 is day 1) and a timestamp is a
    whole number of seconds since midnight of day 0, so
    `date + timedelta(days = n)` is integer addition as long as the result is
    still a date. */
module Calendar {

  /** A calendar date, as a day number. */
  type Day = int

  /** A point in time, in seconds since midnight of day 0. */
  type Instant = int

  const SecondsPerDay: int := 86400

  /** `date.min`, 1 January of year 1. */
  const MinDay: Day := 1

  /** `date.max`, 31 December 9999. */
  const MaxDay: Day := 3652059

  /** Whether a day number is a date Python can represent. Date arithmetic
      whose result falls outside this range raises `OverflowError`. */
  predicate InRange(d: Day)
  {
    MinDay <= d <= MaxDay
  }

  /** The number of days ahead the generator fills when no end date is given. */
  const HorizonDays: int := 90

  /** The calendar date of a timestamp (`datetime.date()`): the day whose
      midnight-to-midnight span contains the instant. */
  function DayOf(t: Instant): (d: Day)
    ensures d * SecondsPerDay <= t < d * SecondsPerDay + SecondsPerDay
  {
    t / SecondsPerDay
  }
}
