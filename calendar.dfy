/**
 * Instants, calendar dates and times of day, all as integers.
 *
 * An instant is a whole number of minutes since a fixed UTC epoch, so every
 * stored datetime is in the canonical (UTC) representation. A date is a
 * proleptic Gregorian ordinal as Python's date.toordinal() gives it
 * (0001-01-01 is day 1, a Monday). A time of day is minutes after local
 * midnight. Time-zone resolution is not computed here: it is passed in as a
 * function, a Localizer from a local wall-clock reading to an instant, and a
 * LocalView from an instant to a local reading.
 */
module Calendar {

  type Instant = int
  type Date = int
  type TimeOfDay = t: int | 0 <= t < MinutesPerDay
  type TimeZoneName = string

  const MinutesPerDay := 1440

  /** Converts a local wall-clock reading (zone, date, time of day) to UTC. */
  type Localizer = (TimeZoneName, Date, TimeOfDay) -> Instant

  /** The local date and time of day of an instant in a zone. */
  type LocalView = (TimeZoneName, Instant) -> (Date, TimeOfDay)

  /** Python's date.weekday(): 0 is Monday, 5 Saturday, 6 Sunday. */
  function Weekday(d: Date): (w: int)
    ensures 0 <= w < 7
  {
    (d + 6) % 7
  }

  /** Saturday or Sunday. */
  predicate IsWeekend(d: Date) {
    Weekday(d) >= 5
  }

  /** The ordinal of 2024-01-01, a Monday. */
  const Jan1st2024: Date := 738886

  lemma Jan1st2024IsMonday()
    ensures Weekday(Jan1st2024) == 0
  {
  }
}
