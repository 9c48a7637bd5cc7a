/** An `Interval` is a cron-like rule: six specifiers over minutes, hours,
    weekdays, days of the month, ISO weeks and months. */
module Intervals {
  import opened Wrappers
  import opened Specifiers
  import opened Times
  import opened DateTimeMatches
  import Weekdays
  import Months

  /** The six units an interval constrains. */
  datatype Unit = Minute | Hour | Weekday | Monthday | Week | Month

  datatype Range = Range(start: nat, end: nat)

  const MinutesRange := Range(0, 59)
  const HoursRange := Range(0, 23)
  const WeekdaysRange := Range(Weekdays.Monday().day, Weekdays.Sunday().day)
  const MonthdaysRange := Range(0, 31)
  const WeeksRange := Range(0, 52)
  const MonthsRange := Range(Months.January().month, Months.December().month)

  /** The fixed range of each unit. */
  function StandardRange(u: Unit): Range {
    match u
    case Minute => MinutesRange
    case Hour => HoursRange
    case Weekday => WeekdaysRange
    case Monthday => MonthdaysRange
    case Week => WeeksRange
    case Month => MonthsRange
  }

  datatype Interval = Interval(
    minutes: Specifier,
    hours: Specifier,
    weekdays: Specifier,
    monthdays: Specifier,
    weeks: Specifier,
    months: Specifier)

  function Get(iv: Interval, u: Unit): Specifier {
    match u
    case Minute => iv.minutes
    case Hour => iv.hours
    case Weekday => iv.weekdays
    case Monthday => iv.monthdays
    case Week => iv.weeks
    case Month => iv.months
  }

  function OwnRange(s: Specifier): Range {
    Range(s.min, s.max)
  }

  /** Every field was built by `Specifier::new` over its unit's fixed range,
      as the builder does. */
  ghost predicate WellFormed(iv: Interval) {
    forall u :: Specifiers.Valid(Get(iv, u)) && OwnRange(Get(iv, u)) == StandardRange(u)
  }

  /** `Specifier::new` over a unit's fixed range. */
  function ForUnit(u: Unit, kind: SpecifierKind): (s: Specifier)
    ensures Specifiers.Valid(s) && OwnRange(s) == StandardRange(u)
  {
    New(StandardRange(u).start, StandardRange(u).end, kind)
  }

  /** `IntervalBuilder`: an unset field is None. */
  datatype IntervalBuilder = IntervalBuilder(
    minutes: Option<Specifier>,
    hours: Option<Specifier>,
    weekdays: Option<Specifier>,
    monthdays: Option<Specifier>,
    weeks: Option<Specifier>,
    months: Option<Specifier>)

  function DefaultBuilder(): IntervalBuilder {
    IntervalBuilder(Option.None, Option.None, Option.None, Option.None, Option.None, Option.None)
  }

  function Field(b: IntervalBuilder, u: Unit): Option<Specifier> {
    match u
    case Minute => b.minutes
    case Hour => b.hours
    case Weekday => b.weekdays
    case Monthday => b.monthdays
    case Week => b.weeks
    case Month => b.months
  }

  /** The setters `minutes`, `hours`, `weekdays`, `monthdays`, `weeks` and
      `months`: build the unit's specifier over its fixed range. */
  function Set(b: IntervalBuilder, u: Unit, kind: SpecifierKind): (r: IntervalBuilder)
    ensures Field(r, u) == Some(ForUnit(u, kind))
    ensures forall v :: v != u ==> Field(r, v) == Field(b, v)
  {
    var s := Some(ForUnit(u, kind));
    match u
    case Minute => b.(minutes := s)
    case Hour => b.(hours := s)
    case Weekday => b.(weekdays := s)
    case Monthday => b.(monthdays := s)
    case Week => b.(weeks := s)
    case Month => b.(months := s)
  }

  /** `build`: every unset field takes its default, `All` over the unit's
      fixed range. */
  function Build(b: IntervalBuilder): (iv: Interval)
    ensures forall u :: Get(iv, u) == Field(b, u).GetOr(ForUnit(u, All))
  {
    Interval(
      b.minutes.GetOr(ForUnit(Minute, All)),
      b.hours.GetOr(ForUnit(Hour, All)),
      b.weekdays.GetOr(ForUnit(Weekday, All)),
      b.monthdays.GetOr(ForUnit(Monthday, All)),
      b.weeks.GetOr(ForUnit(Week, All)),
      b.months.GetOr(ForUnit(Month, All)))
  }

  /** `daily`: one run a day at `hour:minute`. */
  function Daily(minute: nat, hour: nat): Result<Interval> {
    if !(MinutesRange.start <= minute <= MinutesRange.end) then
      Failure("Expect 'minute' to be in range 0..=59")
    else if !(HoursRange.start <= hour <= HoursRange.end) then
      Failure("Expect 'hour' to be in range 0..=23")
    else
      Success(Build(Set(Set(DefaultBuilder(), Minute, Nth(minute)), Hour, Nth(hour))))
  }

  /** `validate`: the first field, in declaration order, whose range is not
      its unit's fixed range is reported. */
  function Validate(iv: Interval): Outcome {
    if OwnRange(iv.minutes) != MinutesRange then Fail("Minutes are not in range")
    else if OwnRange(iv.hours) != HoursRange then Fail("Hours are not in range")
    else if OwnRange(iv.weekdays) != WeekdaysRange then Fail("Weekdays are not in range")
    else if OwnRange(iv.monthdays) != MonthdaysRange then Fail("Monthdays are not in range")
    else if OwnRange(iv.weeks) != WeeksRange then Fail("Weeks are not in range")
    else if OwnRange(iv.months) != MonthsRange then Fail("Months are not in range")
    else Pass
  }

  /** `matches_date`: week and month must match; weekday and day of month
      are alternatives when both are restricted, and must both match
      otherwise. */
  predicate MatchesDate(iv: Interval, cal: Calendar, date: int) {
    var f := cal.fields(date);
    var weekdayMatch := Matches(iv.weekdays, Weekdays.FromU32(f.weekdayFromMonday).day);
    var monthdayMatch := Matches(iv.monthdays, f.day0);
    var dayMatch :=
      if iv.weekdays.kind != All && iv.monthdays.kind != All then weekdayMatch || monthdayMatch
      else weekdayMatch && monthdayMatch;
    var weekMatch := Matches(iv.weeks, f.week0);
    var monthMatch := Matches(iv.months, Months.FromU32(f.month0).month);
    dayMatch && weekMatch && monthMatch
  }

  /** `matches_time`: the seconds are ignored. */
  predicate MatchesTime(iv: Interval, t: Time) {
    Matches(iv.minutes, t.minute) && Matches(iv.hours, t.hour)
  }

  /** `matches_datetime`: the date is checked first. */
  function MatchesDatetime(iv: Interval, cal: Calendar, dt: DateTime): DateTimeMatch {
    if !MatchesDate(iv, cal, dt.date) then DateNotMatched
    else if !MatchesTime(iv, dt.time) then TimeNotMatched
    else Ok
  }

  /** `has_none_specifier`. */
  predicate HasNoneSpecifier(iv: Interval) {
    exists u :: Get(iv, u).kind == SpecifierKind.None
  }

  /** `cyclic_next_daytime`: the next matching minute of the day after `t`,
      wrapping round to the first one of the day. */
  function CyclicNextDaytime(iv: Interval, t: Time): Option<Time> {
    var hourMatches := Matches(iv.hours, t.hour);
    var nextMinute := if hourMatches then CyclicNext(iv.minutes, t.minute) else FirstMatch(iv.minutes);
    if nextMinute.None? then Option.None
    else
      var nextHour :=
        if hourMatches && nextMinute.value > t.minute then Some(t.hour)
        else CyclicNext(iv.hours, t.hour);
      if nextHour.None? then Option.None
      else FromHms(nextHour.value, nextMinute.value, 0)
  }

  /** `next_daytime`: as `cyclic_next_daytime`, but None when it wrapped. */
  function NextDaytime(iv: Interval, t: Time): Option<Time> {
    var next := CyclicNextDaytime(iv, t);
    if next.None? || !Before(t, next.value) then Option.None else next
  }

  /** The date loop of `next_datetime`: tries `remaining` days from `curr`
      on, stopping early when the calendar runs out. */
  function SearchDate(iv: Interval, cal: Calendar, curr: int, remaining: nat): (r: Option<int>)
    requires curr <= cal.lastDay
    ensures r.Some? ==>
      && curr <= r.value < curr + remaining && r.value <= cal.lastDay
      && MatchesDate(iv, cal, r.value)
      && forall d :: curr <= d < r.value ==> !MatchesDate(iv, cal, d)
    ensures r.None? ==>
      forall d :: curr <= d < curr + remaining && d <= cal.lastDay ==> !MatchesDate(iv, cal, d)
    decreases remaining
  {
    if remaining == 0 then Option.None
    else if MatchesDate(iv, cal, curr) then Some(curr)
    else
      var next := AddDays(cal, curr, 1);
      if next.None? then Option.None
      else SearchDate(iv, cal, next.value, remaining - 1)
  }

  /** How many days ahead `next_datetime` looks. */
  const SearchHorizon: nat := 365

  /** `next_datetime`: the next matching minute after `dt`, today if one is
      left, else on the first matching date of the following year. */
  function NextDatetime(iv: Interval, cal: Calendar, dt: DateTime): Option<DateTime> {
    var dateMatches := MatchesDate(iv, cal, dt.date);
    var nextTime :=
      if dateMatches then CyclicNextDaytime(iv, dt.time)
      else
        var lastSecond := FromHms(23, 59, 59);
        if lastSecond.None? then Option.None else CyclicNextDaytime(iv, lastSecond.value);
    if nextTime.None? then Option.None
    else if dateMatches && Before(dt.time, nextTime.value) then Some(DateTime(dt.date, nextTime.value))
    else
      var first := AddDays(cal, dt.date, 1);
      if first.None? then Option.None
      else
        var nextDate := SearchDate(iv, cal, first.value, SearchHorizon);
        if nextDate.None? then Option.None
        else Some(DateTime(nextDate.value, nextTime.value))
  }
}
