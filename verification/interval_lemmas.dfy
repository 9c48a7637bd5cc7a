/** What the matching and search functions of `Interval` promise, stated
    against `matches_date` and `matches_time` alone. */
module IntervalLemmas {
  import opened Wrappers
  import opened Specifiers
  import opened SpecifierLemmas
  import opened Times
  import opened DateTimeMatches
  import opened Intervals
  import SortedSeqs

  /** A whole minute of the day that the interval's time rule selects. */
  ghost predicate IsSlot(iv: Interval, t: Time) {
    t.second == 0 && MatchesTime(iv, t)
  }

  ghost predicate HasSlot(iv: Interval) {
    exists u: Time :: IsSlot(iv, u)
  }

  ghost predicate HasSlotAfter(iv: Interval, t: Time) {
    exists u: Time :: IsSlot(iv, u) && Before(t, u)
  }

  /** `r` is the earliest selected minute of the day. */
  ghost predicate IsFirstSlot(iv: Interval, r: Time) {
    IsSlot(iv, r) && forall u: Time :: IsSlot(iv, u) ==> !Before(u, r)
  }

  /** `r` is the earliest selected minute after `t`. */
  ghost predicate IsNextSlotAfter(iv: Interval, t: Time, r: Time) {
    IsSlot(iv, r) && Before(t, r) && forall u: Time :: IsSlot(iv, u) && Before(t, u) ==> !Before(u, r)
  }

  /** `r` follows `t` on the clock face: the next selected minute of the
      day, or else the first one. */
  ghost predicate IsFollowingSlot(iv: Interval, t: Time, r: Time) {
    if HasSlotAfter(iv, t) then IsNextSlotAfter(iv, t, r) else IsFirstSlot(iv, r)
  }

  lemma FieldsOf(iv: Interval)
    requires WellFormed(iv)
    ensures Specifiers.Valid(iv.minutes) && iv.minutes.min == 0 && iv.minutes.max == 59
    ensures Specifiers.Valid(iv.hours) && iv.hours.min == 0 && iv.hours.max == 23
  {
    assert Get(iv, Minute) == iv.minutes;
    assert Get(iv, Hour) == iv.hours;
  }

  /** A time of day is selected exactly when both its hour and minute are. */
  lemma SlotExists(iv: Interval)
    requires WellFormed(iv)
    ensures HasSlot(iv) <==> HasMatch(iv.minutes) && HasMatch(iv.hours)
  {
    FieldsOf(iv);
    if HasMatch(iv.minutes) && HasMatch(iv.hours) {
      var m: nat :| Matches(iv.minutes, m);
      var h: nat :| Matches(iv.hours, h);
      var u: Time := TimeOfDay(h, m, 0);
      assert IsSlot(iv, u);
    }
  }

  lemma CyclicNextDaytimeSameHour(iv: Interval, t: Time, nm: nat)
    requires WellFormed(iv) && Matches(iv.hours, t.hour)
    requires IsNextMatchAfter(iv.minutes, t.minute, nm)
    ensures nm < 60
    ensures IsNextSlotAfter(iv, t, TimeOfDay(t.hour, nm, 0))
  {
    FieldsOf(iv);
    var r: Time := TimeOfDay(t.hour, nm, 0);
  }

  lemma CyclicNextDaytimeLaterHour(iv: Interval, t: Time, nm: nat, nh: nat)
    requires WellFormed(iv)
    requires IsLeastMatch(iv.minutes, nm)
    requires Matches(iv.hours, t.hour) ==> forall y: nat :: t.minute < y ==> !Matches(iv.minutes, y)
    requires IsNextMatchAfter(iv.hours, t.hour, nh)
    ensures nm < 60 && nh < 24
    ensures IsNextSlotAfter(iv, t, TimeOfDay(nh, nm, 0))
  {
    FieldsOf(iv);
    var r: Time := TimeOfDay(nh, nm, 0);
  }

  lemma CyclicNextDaytimeWrapped(iv: Interval, t: Time, nm: nat, nh: nat)
    requires WellFormed(iv)
    requires IsLeastMatch(iv.minutes, nm)
    requires Matches(iv.hours, t.hour) ==> forall y: nat :: t.minute < y ==> !Matches(iv.minutes, y)
    requires IsLeastMatch(iv.hours, nh) && forall y: nat :: t.hour < y ==> !Matches(iv.hours, y)
    ensures nm < 60 && nh < 24
    ensures !HasSlotAfter(iv, t)
    ensures IsFirstSlot(iv, TimeOfDay(nh, nm, 0))
  {
    FieldsOf(iv);
    var r: Time := TimeOfDay(nh, nm, 0);
  }

  /** `cyclic_next_daytime` is defined exactly when some minute of the day
      is selected; it is then the next selected whole minute after `t`, or
      the first of the day when none is left. */
  lemma CyclicNextDaytimeSpec(iv: Interval, t: Time)
    requires WellFormed(iv)
    ensures CyclicNextDaytime(iv, t).Some? <==> HasSlot(iv)
    ensures CyclicNextDaytime(iv, t).Some? ==>
      IsSlot(iv, CyclicNextDaytime(iv, t).value)
      && IsFollowingSlot(iv, t, CyclicNextDaytime(iv, t).value)
  {
    FieldsOf(iv);
    SlotExists(iv);
    var h, m := t.hour, t.minute;
    CyclicNextSpec(iv.minutes, m);
    CyclicNextSpec(iv.hours, h);
    FirstMatchSpec(iv.minutes);
    var hm := Matches(iv.hours, h);
    if HasMatch(iv.minutes) && HasMatch(iv.hours) {
      var nm := (if hm then CyclicNext(iv.minutes, m) else FirstMatch(iv.minutes)).value;
      if hm {
        SuccessorFacts(iv.minutes, m, nm);
      }
      if hm && nm > m {
        CyclicNextDaytimeSameHour(iv, t, nm);
      } else {
        var nh := CyclicNext(iv.hours, h).value;
        SuccessorFacts(iv.hours, h, nh);
        if h < nh {
          CyclicNextDaytimeLaterHour(iv, t, nm, nh);
        } else {
          CyclicNextDaytimeWrapped(iv, t, nm, nh);
        }
      }
    }
  }

  /** `next_daytime` is the next selected whole minute later the same day,
      and None exactly when there is none. */
  lemma NextDaytimeSpec(iv: Interval, t: Time)
    requires WellFormed(iv)
    ensures NextDaytime(iv, t).Some? <==> HasSlotAfter(iv, t)
    ensures NextDaytime(iv, t).Some? ==> IsNextSlotAfter(iv, t, NextDaytime(iv, t).value)
  {
    CyclicNextDaytimeSpec(iv, t);
    if HasSlotAfter(iv, t) {
      var u: Time :| IsSlot(iv, u) && Before(t, u);
      assert HasSlot(iv);
    }
  }

  /** A minute at which the schedule fires: a representable date the date
      rule selects, at a selected whole minute. */
  ghost predicate IsOccurrence(iv: Interval, cal: Calendar, o: DateTime) {
    o.date <= cal.lastDay && MatchesDate(iv, cal, o.date) && IsSlot(iv, o.time)
  }

  /** `r` is the first occurrence after `dt`. */
  ghost predicate IsNextOccurrence(iv: Interval, cal: Calendar, dt: DateTime, r: DateTime) {
    && IsOccurrence(iv, cal, r) && DtBefore(dt, r)
    && forall o :: IsOccurrence(iv, cal, o) && DtBefore(dt, o) ==> !DtBefore(o, r)
  }

  /** Some occurrence after `dt` falls within the search horizon. */
  ghost predicate HasOccurrenceWithin(iv: Interval, cal: Calendar, dt: DateTime) {
    exists o :: IsOccurrence(iv, cal, o) && DtBefore(dt, o) && o.date <= dt.date + SearchHorizon
  }

  /** Every valid datetime's date is representable, so `dt.date <= lastDay`
      is assumed. `next_datetime` is the first occurrence after `dt`, found
      on `dt`'s date or within the following `SearchHorizon` days; it is None
      exactly when there is no such occurrence. */
  lemma NextDatetimeSpec(iv: Interval, cal: Calendar, dt: DateTime)
    requires WellFormed(iv) && dt.date <= cal.lastDay
    ensures NextDatetime(iv, cal, dt).Some? <==> HasOccurrenceWithin(iv, cal, dt)
    ensures NextDatetime(iv, cal, dt).Some? ==>
      var r := NextDatetime(iv, cal, dt).value;
      && IsNextOccurrence(iv, cal, dt, r) && r.date <= dt.date + SearchHorizon
      && r.time.second == 0 && MatchesDatetime(iv, cal, r) == Ok
  {
    var d, t := dt.date, dt.time;
    var dateMatches := MatchesDate(iv, cal, d);
    var lastSecond: Time := TimeOfDay(23, 59, 59);
    CyclicNextDaytimeSpec(iv, t);
    CyclicNextDaytimeSpec(iv, lastSecond);
    if !HasSlot(iv) {
      return;
    }
    var first := CyclicNextDaytime(iv, lastSecond).value;
    assert IsFirstSlot(iv, first);
    var nextTime := (if dateMatches then CyclicNextDaytime(iv, t) else CyclicNextDaytime(iv, lastSecond)).value;
    if dateMatches && Before(t, nextTime) {
      var r := DateTime(d, nextTime);
      assert IsNextSlotAfter(iv, t, nextTime);
      assert IsOccurrence(iv, cal, r);
      assert HasOccurrenceWithin(iv, cal, dt);
      return;
    }
    // No selected minute is left on `dt`'s date.
    assert nextTime == first;
    assert forall o :: IsOccurrence(iv, cal, o) && DtBefore(dt, o) ==> d < o.date;
    if d + 1 > cal.lastDay {
      return;
    }
    var found := SearchDate(iv, cal, d + 1, SearchHorizon);
    if found.Some? {
      var r := DateTime(found.value, first);
      assert IsOccurrence(iv, cal, r);
      assert HasOccurrenceWithin(iv, cal, dt);
    }
  }

  /** The builder only ever holds specifiers built over their unit's range. */
  ghost predicate BuilderWellFormed(b: IntervalBuilder) {
    forall u :: Field(b, u).Some? ==>
      Specifiers.Valid(Field(b, u).value) && OwnRange(Field(b, u).value) == StandardRange(u)
  }

  /** A fresh builder builds `All` over every unit's fixed range: minutes
      0-59, hours 0-23, weekdays Monday-Sunday, days of the month 0-31, weeks
      0-52 and months January-December. */
  lemma DefaultBuild()
    ensures BuilderWellFormed(DefaultBuilder())
    ensures var iv := Build(DefaultBuilder());
      && WellFormed(iv)
      && (forall u :: Get(iv, u).kind == All)
      && OwnRange(iv.minutes) == Range(0, 59) && OwnRange(iv.hours) == Range(0, 23)
      && OwnRange(iv.weekdays) == Range(0, 6) && OwnRange(iv.monthdays) == Range(0, 31)
      && OwnRange(iv.weeks) == Range(0, 52) && OwnRange(iv.months) == Range(0, 11)
  {
    var iv := Build(DefaultBuilder());
    assert iv.minutes == Get(iv, Minute);
    assert iv.hours == Get(iv, Hour);
    assert iv.weekdays == Get(iv, Weekday);
    assert iv.monthdays == Get(iv, Monthday);
    assert iv.weeks == Get(iv, Week);
    assert iv.months == Get(iv, Month);
  }

  /** A setter changes its own unit only, to the given kind over the unit's
      range, and keeps the builder well formed. */
  lemma SetBuild(b: IntervalBuilder, u: Unit, kind: SpecifierKind)
    requires BuilderWellFormed(b)
    ensures BuilderWellFormed(Set(b, u, kind))
    ensures Get(Build(Set(b, u, kind)), u) == New(StandardRange(u).start, StandardRange(u).end, kind)
    ensures forall v :: v != u ==> Get(Build(Set(b, u, kind)), v) == Get(Build(b), v)
  {
  }

  /** Whatever the setters did, `build` yields a well-formed interval that
      passes `validate`. */
  lemma BuildWellFormed(b: IntervalBuilder)
    requires BuilderWellFormed(b)
    ensures WellFormed(Build(b)) && Validate(Build(b)) == Pass
  {
    ValidateSpec(Build(b));
  }

  /** `validate` passes exactly when every field spans its unit's fixed
      range. */
  lemma ValidateSpec(iv: Interval)
    ensures Validate(iv) == Pass <==> forall u :: OwnRange(Get(iv, u)) == StandardRange(u)
  {
    if Validate(iv) != Pass {
      if OwnRange(iv.minutes) != MinutesRange { assert OwnRange(Get(iv, Minute)) != StandardRange(Minute); }
      else if OwnRange(iv.hours) != HoursRange { assert OwnRange(Get(iv, Hour)) != StandardRange(Hour); }
      else if OwnRange(iv.weekdays) != WeekdaysRange { assert OwnRange(Get(iv, Weekday)) != StandardRange(Weekday); }
      else if OwnRange(iv.monthdays) != MonthdaysRange { assert OwnRange(Get(iv, Monthday)) != StandardRange(Monthday); }
      else if OwnRange(iv.weeks) != WeeksRange { assert OwnRange(Get(iv, Week)) != StandardRange(Week); }
      else { assert OwnRange(Get(iv, Month)) != StandardRange(Month); }
    }
  }

  /** A decomposition a real calendar can produce. */
  predicate FieldsInRange(f: DateFields) {
    f.weekdayFromMonday < 7 && f.day0 < 31 && f.week0 < 53 && f.month0 < 12
  }

  /** `daily(minute, hour)` fails exactly on an out-of-range argument; it
      otherwise fires at `hour:minute` and at no other time of day, on every
      date. */
  lemma DailySpec(minute: nat, hour: nat)
    ensures Daily(minute, hour).Success? <==> minute <= 59 && hour <= 23
    ensures Daily(minute, hour).Success? ==>
      var iv := Daily(minute, hour).value;
      && WellFormed(iv)
      && iv.minutes.kind == Nth(minute) && iv.hours.kind == Nth(hour)
      && iv.weekdays.kind == All && iv.monthdays.kind == All
      && iv.weeks.kind == All && iv.months.kind == All
      && (forall t: Time :: MatchesTime(iv, t) <==> t.hour == hour && t.minute == minute)
      && (forall cal: Calendar, d :: FieldsInRange(cal.fields(d)) ==> MatchesDate(iv, cal, d))
  {
    if minute <= 59 && hour <= 23 {
      DefaultBuild();
      var b := Set(DefaultBuilder(), Minute, Nth(minute));
      SetBuild(DefaultBuilder(), Minute, Nth(minute));
      SetBuild(b, Hour, Nth(hour));
      var iv := Daily(minute, hour).value;
      BuildWellFormed(Set(b, Hour, Nth(hour)));
      assert iv.minutes == Get(iv, Minute);
      assert iv.hours == Get(iv, Hour);
      assert iv.weekdays == Get(iv, Weekday);
      assert iv.monthdays == Get(iv, Monthday);
      assert iv.weeks == Get(iv, Week);
      assert iv.months == Get(iv, Month);
    }
  }

  /** The day rule of `matches_date`: an unrestricted weekday (or day of
      the month) leaves the decision to the other, two restricted ones are
      alternatives; week and month must match in every case. */
  lemma MatchesDateCases(iv: Interval, cal: Calendar, d: int)
    requires WellFormed(iv) && FieldsInRange(cal.fields(d))
    ensures var f := cal.fields(d);
      var weekday := Matches(iv.weekdays, f.weekdayFromMonday);
      var monthday := Matches(iv.monthdays, f.day0);
      var rest := Matches(iv.weeks, f.week0) && Matches(iv.months, f.month0);
      && (iv.weekdays.kind == All ==> (MatchesDate(iv, cal, d) <==> monthday && rest))
      && (iv.monthdays.kind == All ==> (MatchesDate(iv, cal, d) <==> weekday && rest))
      && (iv.weekdays.kind != All && iv.monthdays.kind != All ==>
            (MatchesDate(iv, cal, d) <==> (weekday || monthday) && rest))
  {
    assert Get(iv, Weekday) == iv.weekdays;
    assert Get(iv, Monthday) == iv.monthdays;
  }

  /** `matches_datetime` reports the date first: `Ok` exactly when date and
      time both match, `DateNotMatched` whenever the date fails. */
  lemma MatchesDatetimeSpec(iv: Interval, cal: Calendar, dt: DateTime)
    ensures ToBool(MatchesDatetime(iv, cal, dt)) <==> MatchesDate(iv, cal, dt.date) && MatchesTime(iv, dt.time)
    ensures MatchesDatetime(iv, cal, dt) == DateNotMatched <==> !MatchesDate(iv, cal, dt.date)
    ensures MatchesDatetime(iv, cal, dt) == TimeNotMatched <==>
      MatchesDate(iv, cal, dt.date) && !MatchesTime(iv, dt.time)
  {
  }

  /** A `None` minute, hour, week or month rule never fires. Neither does a
      `None` weekday rule whose partner day-of-month rule is `All` or
      `None`, nor the same the other way round. A `None` weekday or
      day-of-month rule alone does not silence the interval: with a
      restricted partner rule the two are alternatives. */
  lemma NoneSpecifierNeverFires(iv: Interval, cal: Calendar, dt: DateTime)
    requires WellFormed(iv) && dt.date <= cal.lastDay
    requires || iv.minutes.kind == SpecifierKind.None || iv.hours.kind == SpecifierKind.None
             || iv.weeks.kind == SpecifierKind.None || iv.months.kind == SpecifierKind.None
             || (iv.weekdays.kind == SpecifierKind.None
                 && (iv.monthdays.kind == SpecifierKind.None || iv.monthdays.kind == All))
             || (iv.monthdays.kind == SpecifierKind.None
                 && (iv.weekdays.kind == SpecifierKind.None || iv.weekdays.kind == All))
    ensures HasNoneSpecifier(iv)
    ensures MatchesDatetime(iv, cal, dt) != Ok
    ensures NextDatetime(iv, cal, dt).None?
  {
    if iv.minutes.kind == SpecifierKind.None { assert Get(iv, Minute).kind == SpecifierKind.None; }
    else if iv.hours.kind == SpecifierKind.None { assert Get(iv, Hour).kind == SpecifierKind.None; }
    else if iv.weeks.kind == SpecifierKind.None { assert Get(iv, Week).kind == SpecifierKind.None; }
    else if iv.months.kind == SpecifierKind.None { assert Get(iv, Month).kind == SpecifierKind.None; }
    else if iv.weekdays.kind == SpecifierKind.None { assert Get(iv, Weekday).kind == SpecifierKind.None; }
    else { assert Get(iv, Monthday).kind == SpecifierKind.None; }
    NextDatetimeSpec(iv, cal, dt);
  }

  /** A `None` weekday rule is overridden by a restricted day-of-month
      rule: with `First` days of the month, the first day of a month
      still matches although `has_none_specifier` holds. */
  lemma NoneWeekdayOverridden(cal: Calendar, dt: DateTime)
    requires FieldsInRange(cal.fields(dt.date)) && cal.fields(dt.date).day0 == 0
    ensures var iv := Build(Set(Set(DefaultBuilder(), Weekday, SpecifierKind.None), Monthday, First));
      && HasNoneSpecifier(iv)
      && MatchesDatetime(iv, cal, dt) == Ok
  {
    var iv := Build(Set(Set(DefaultBuilder(), Weekday, SpecifierKind.None), Monthday, First));
    assert Get(iv, Weekday).kind == SpecifierKind.None;
    assert iv.monthdays == Specifier(0, 31, First);
  }

  /** Minute 0 of every hour: from any time the next run is the start of
      the following hour, which after 23:00 is midnight of the next day. */
  lemma HourlyScenario(cal: Calendar, d: int, t: Time)
    requires d + 1 <= cal.lastDay && FieldsInRange(cal.fields(d)) && FieldsInRange(cal.fields(d + 1))
    ensures var iv := Build(Set(DefaultBuilder(), Minute, First));
      NextDatetime(iv, cal, DateTime(d, t)) ==
        if t.hour < 23 then Some(DateTime(d, TimeOfDay(t.hour + 1, 0, 0)))
        else Some(DateTime(d + 1, TimeOfDay(0, 0, 0)))
  {
    var iv := Build(Set(DefaultBuilder(), Minute, First));
    assert iv.minutes == Specifier(0, 59, First) && iv.hours == Specifier(0, 23, All);
    assert MatchesDate(iv, cal, d) && MatchesDate(iv, cal, d + 1);
    assert CyclicNext(iv.minutes, t.minute) == Some(0);
    if t.hour < 23 {
      assert CyclicNext(iv.hours, t.hour) == Some(t.hour + 1);
      assert CyclicNextDaytime(iv, t) == Some(TimeOfDay(t.hour + 1, 0, 0));
    } else {
      assert CyclicNext(iv.hours, t.hour) == Some(0);
      assert CyclicNextDaytime(iv, t) == Some(TimeOfDay(0, 0, 0));
      assert SearchDate(iv, cal, d + 1, SearchHorizon) == Some(d + 1);
    }
  }

  /** Minute 0 of hour 12 on every day: from midnight the next run is noon
      the same day. */
  lemma NoonScenario(cal: Calendar, d: int)
    requires d <= cal.lastDay && FieldsInRange(cal.fields(d))
    ensures var iv := Build(Set(Set(DefaultBuilder(), Minute, First), Hour, Nth(12)));
      NextDatetime(iv, cal, DateTime(d, TimeOfDay(0, 0, 0))) == Some(DateTime(d, TimeOfDay(12, 0, 0)))
  {
    var iv := Build(Set(Set(DefaultBuilder(), Minute, First), Hour, Nth(12)));
    assert iv.minutes == Specifier(0, 59, First) && iv.hours == Specifier(0, 23, Nth(12));
    assert MatchesDate(iv, cal, d);
    assert CyclicNextDaytime(iv, TimeOfDay(0, 0, 0)) == Some(TimeOfDay(12, 0, 0));
  }
}
