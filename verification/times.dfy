/** Times of day, datetimes and the calendar. The calendar's Gregorian and
    ISO 8601 week arithmetic is left uninterpreted: a date is a day number,
    and a `Calendar` supplies its decomposition and the last representable
    day. */
module Times {
  import opened Wrappers

  datatype TimeOfDay = TimeOfDay(hour: nat, minute: nat, second: nat)

  /** A `NaiveTime` always holds a valid time of day. */
  type Time = t: TimeOfDay | t.hour < 24 && t.minute < 60 && t.second < 60
    witness TimeOfDay(0, 0, 0)

  /** `NaiveTime::from_hms_opt`. */
  function FromHms(hour: nat, minute: nat, second: nat): (r: Option<Time>)
    ensures r.Some? <==> hour < 24 && minute < 60 && second < 60
    ensures r.Some? ==> r.value == TimeOfDay(hour, minute, second)
  {
    if hour < 24 && minute < 60 && second < 60 then Some(TimeOfDay(hour, minute, second))
    else Option.None
  }

  /** Chronological order of times of day. */
  predicate Before(a: TimeOfDay, b: TimeOfDay) {
    || a.hour < b.hour
    || (a.hour == b.hour && a.minute < b.minute)
    || (a.hour == b.hour && a.minute == b.minute && a.second < b.second)
  }

  /** The parts of a date the recurrence rules look at: the weekday counted
      from Monday, the zero-based day of the month, the zero-based ISO 8601
      week number and the zero-based month. */
  datatype DateFields = DateFields(weekdayFromMonday: nat, day0: nat, week0: nat, month0: nat)

  /** Dates are day numbers up to `lastDay`, the last one the calendar can
      represent; `fields` decomposes each of them. */
  datatype Calendar = Calendar(lastDay: int, fields: int -> DateFields)

  /** `NaiveDate::checked_add_days`: None past the last representable day. */
  function AddDays(cal: Calendar, date: int, days: nat): (r: Option<int>)
    ensures r.Some? <==> date + days <= cal.lastDay
    ensures r.Some? ==> r.value == date + days
  {
    if date + days <= cal.lastDay then Some(date + days) else Option.None
  }

  datatype DateTime = DateTime(date: int, time: Time)

  /** Chronological order of datetimes. */
  predicate DtBefore(a: DateTime, b: DateTime) {
    a.date < b.date || (a.date == b.date && Before(a.time, b.time))
  }
}
