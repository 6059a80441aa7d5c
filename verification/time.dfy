/** The clock of the model: a timestamp is a whole number of minutes since a fixed epoch, and
    a calendar day is the number of whole days since that epoch (no time zones). */
module Time {

  type Minute = nat

  const MinutesPerDay: nat := 1440

  /** The calendar day of a timestamp (Python's `datetime.date()`). */
  function Day(t: Minute): (d: nat)
    ensures d * MinutesPerDay <= t < (d + 1) * MinutesPerDay
  {
    t / MinutesPerDay
  }

  /** Later timestamps never fall on an earlier calendar day. */
  lemma DayMonotone(t: Minute, u: Minute)
    requires t <= u
    ensures Day(t) <= Day(u)
  {
  }
}
