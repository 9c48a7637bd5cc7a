# backup-rs recurrence engine and backup decisions, in Dafny

backup-rs keeps one *profile* per backup job. A profile holds:

- the directories and files to include;
- the directories and files to exclude;
- an `Interval`, a cron-like recurrence rule;
- `next_backup`, the time the next run is due.

This project models the part of backup-rs that decides *when* a backup runs and
*what* goes into it, and proves what that logic promises.

- **Specifiers** (`Specifiers`, `SpecifierLemmas`):
  - A `Specifier` selects some coordinates of an inclusive range `[min, max]`.
  - It does so by one of nine rules: `None`, `All`, `First`, `Last`, `Nth`,
    `BackNth`, `ExplicitNths`, `EveryNth`, `ExplicitList`.
  - Construction orders the bounds. It also filters, sorts and deduplicates
    the two list rules.
  - `matches` decides membership. `cyclic_next` returns the next selected
    coordinate, wrapping round. `first_match` returns the smallest one.
- **Weekdays, months, match results** (`Weekdays`, `Months`, `DateTimeMatches`):
  - Weekdays and months are cyclic indices, with wrapping conversions from
    numbers.
  - Matching a date and time has a three-way outcome.
- **Intervals** (`Intervals`, `IntervalLemmas`):
  - An `Interval` holds six specifiers. Their fixed ranges are minutes 0-59,
    hours 0-23, weekdays 0-6, month days 0-31, ISO weeks 0-52 and months 0-11.
  - Weekday and month-day rules are OR-ed when both are restricted, and
    AND-ed otherwise.
  - The time-of-day searches (`cyclic_next_daytime`, `next_daytime`) look
    within one day.
  - The date-and-time search (`next_datetime`) looks at most 365 days ahead.
  - The builder and its defaults, `daily` and `validate` are modelled too.
- **Profiles** (`ProfileConfigs`):
  - Path containment, exclusion and inclusion tests.
  - `get_next_scheduled`.
  - The conversion of an interval to and from its protobuf message, as a
    round trip.
- **Backup run** (`Backups`):
  - `is_scheduled` decides whether to refresh `next_backup` and whether to
    make a backup.
  - `handle_profile` applies that decision.
  - `add_file` decides whether an explicitly included file is written.
- **Restore** (`Restores`):
  - The archive name is `<uuid>_<stamp>.zip`; the stamp is cut out of it.
  - The restore picks the newest archive not later than the requested time.

A calendar is a parameter, not a built-in, so the proofs hold for any calendar:

- A date is a day number.
- A `Calendar` gives each day its weekday, day of month, ISO week and month.
- A `Calendar` also gives the last representable day. Adding days past that
  day fails, as `checked_add_days` does.

Clock readings, directory listings, file-system tests and date-string parsing
are parameters as well.

Three behaviours of the Rust code shape the whole model:

- `SpecifierKind::None` selects nothing: `matches` is false and
  `cyclic_next` is None for it (config/src/interval/specifier.rs:340, 391).
- Nothing in the core reports an error for a coordinate. An input outside a
  specifier's range simply does not match, and `cyclic_next` returns None for
  it (config/src/interval/specifier.rs:335-337, 386-388).
- A protobuf interval field that is absent leaves the builder's default
  (`All`) in place (config/src/profile_config.rs:235-254).

## Model

| member | source | states |
|---|---|---|
| `Weekdays.FromU32` | config/src/interval/weekdays.rs:93-106 | Any number wraps to a weekday below 7. Numbers below 7 keep their value, and the difference is a multiple of 7. |
| `Weekdays.Tomorrow` | config/src/interval/weekdays.rs:67-69 | Moves one day forward; Sunday wraps to Monday. |
| `Weekdays.Yesterday` | config/src/interval/weekdays.rs:82-84 | Moves one day back; Monday wraps to Sunday. |
| `Weekdays.NamedDays` | config/src/interval/weekdays.rs:93-155 | Monday to Sunday are the numbers 0 to 6, in order. The documented and tested conversions hold: 5 is Saturday and 25 is Friday; 7, 10, 13 and 70 are Monday, Thursday, Sunday and Monday. |
| `Weekdays.ConversionRoundTrip` | config/src/interval/weekdays.rs:87-106 | Converting a number and back gives it modulo 7. Converting a weekday and back gives the same weekday. |
| `Weekdays.TomorrowYesterdayInverse` | config/src/interval/weekdays.rs:67-84 | `yesterday` undoes `tomorrow`, and the other way round. |
| `Weekdays.FromU32Periodic` | config/src/interval/weekdays.rs:104-106 | Numbers seven apart name the same weekday. |
| `Months.FromU32` | config/src/interval/months.rs:88-101 | Any number wraps to a month between January and December. Numbers below 12 keep their value, and the difference is a multiple of 12. |
| `Months.NamedMonths` | config/src/interval/months.rs:22-80 | January to December are 0 to 11, in order. 17 wraps to June and 12 to January, as the documented examples say. |
| `Months.ConversionRoundTrip` | config/src/interval/months.rs:82-101 | Converting a number and back gives it modulo 12. Converting a month and back gives the same month. Every converted month lies between January and December in the derived order. |
| `Months.FromU32Periodic` | config/src/interval/months.rs:99-101 | Numbers twelve apart name the same month. |
| `SortedSeqs.KeepBetween` | config/src/interval/specifier.rs:199-203 | The range filter keeps exactly the elements inside the bounds. |
| `SortedSeqs.SortDedup` | config/src/interval/specifier.rs:204-205 | Sorting and deduplicating gives a strictly increasing list with the same elements. |
| `SortedSeqs.Normalise` | config/src/interval/specifier.rs:198-218 | A list rule's normal form is strictly increasing, lies within the bounds, and holds exactly the in-range input elements. |
| `SortedSeqs.StrictlyIncreasingUnique` | config/src/interval/specifier.rs:204-205 | Two strictly increasing lists with the same elements are equal, so the normal form is unique. |
| `SortedSeqs.NormaliseIdentity` | config/src/interval/specifier.rs:198-218 | Normalising an already normalised list changes nothing. |
| `Specifiers.New` | config/src/interval/specifier.rs:192-222 | Bounds are ordered and come from the two arguments. List rules keep exactly their in-range entries, sorted and without duplicates. Other rules are kept as given. |
| `Specifiers.Bisect` | config/src/interval/specifier.rs:465-468 | A hit finds the value. On a sorted list, a miss returns the insertion point: everything before it is smaller and everything from it on is larger. |
| `Specifiers.BinarySearch` | config/src/interval/specifier.rs:465-468 | The `binary_search` contract on a strictly increasing list. |
| `Specifiers.FirstAbove` | config/src/interval/specifier.rs:419-431 | Returns the first index in list order whose coordinate lies above `x`. None means no index does. |
| `SpecifierLemmas.CyclicNextSpec` | config/src/interval/specifier.rs:385-477 | `cyclic_next(x)` is Some exactly when `x` is in range and the rule selects something. It is then the smallest selected coordinate above `x`, or the smallest selected coordinate when none lies above. |
| `SpecifierLemmas.FirstMatchSpec` | config/src/interval/specifier.rs:269-271 | `first_match` is the smallest selected coordinate, and None exactly when nothing is selected. |
| `SpecifierLemmas.NewIdempotent` | config/src/interval/specifier.rs:192-222 | Rebuilding a built specifier from its own parts gives it back. |
| `SpecifierLemmas.NewSymmetric` | config/src/interval/specifier.rs:193-195 | The order of the two bounds does not matter. |
| `SpecifierLemmas.NewPreservesMatches` | config/src/interval/specifier.rs:192-222 | Normalisation drops only list entries that could never match. |
| `SpecifierLemmas.EveryNthProgression` | config/src/interval/specifier.rs:349-362 | With a positive step, `EveryNth(n, offset)` selects exactly the in-range coordinates `min + offset + k*n`. |
| `SpecifierLemmas.EveryFirstIsAll` | config/src/interval/specifier.rs:334-365 | `EveryNth(1, 0)` selects exactly what `All` selects. |
| `Arith.NextMultiple` | config/src/interval/specifier.rs:446-451 | The next step of a progression lies above `x`, is on the progression, and no point of the progression lies strictly between. |
| `Intervals.ForUnit` | config/src/interval.rs:72-79 | A field's specifier is built over that field's fixed range. |
| `Intervals.Set` | config/src/interval.rs:444-497 | A setter replaces its own field with a specifier over the fixed range and leaves the other five fields unchanged. |
| `Intervals.SearchDate` | config/src/interval.rs:424-436 | The search returns the first matching day among the next days, never passing the calendar's last day. None means none of those days matches. |
| `IntervalLemmas.SlotExists` | config/src/interval.rs:358-377 | Some time of day matches exactly when both the minute rule and the hour rule select something. |
| `IntervalLemmas.CyclicNextDaytimeSpec` | config/src/interval.rs:358-377 | `cyclic_next_daytime` is Some exactly when some time of day matches. It is then the first matching minute after the given time, at second 0, wrapping to the day's first match. |
| `IntervalLemmas.NextDaytimeSpec` | config/src/interval.rs:330-336 | `next_daytime` is Some exactly when a matching time lies later that day. It is then the earliest such time. |
| `IntervalLemmas.NextDatetimeSpec` | config/src/interval.rs:412-441 | `next_datetime` is Some exactly when a matching date and time lies after the given one within the horizon. It is then the earliest such moment, at second 0, and `matches_datetime` accepts it. |
| `IntervalLemmas.DefaultBuild` | config/src/interval.rs:27-70 | The default builder gives six `All` specifiers over the fixed ranges. |
| `IntervalLemmas.SetBuild` | config/src/interval.rs:444-497 | After a setter, the built interval has the new rule in that field and every other field as before. |
| `IntervalLemmas.BuildWellFormed` | config/src/interval.rs:144-176 | A built interval has valid specifiers over the fixed ranges, and `validate` accepts it. |
| `IntervalLemmas.ValidateSpec` | config/src/interval.rs:144-176 | `validate` succeeds exactly when every field's range is its fixed range. |
| `IntervalLemmas.DailySpec` | config/src/interval.rs:86-111 | `daily` succeeds exactly when the minute is at most 59 and the hour at most 23. It then matches exactly that minute of that hour on every day. |
| `IntervalLemmas.MatchesDateCases` | config/src/interval.rs:210-227 | A date matches when week and month match and the day rule matches. The day rule ORs weekday and month day when both are restricted, and ANDs them otherwise. |
| `IntervalLemmas.MatchesDatetimeSpec` | config/src/interval.rs:286-298 | The result is `Ok` exactly when date and time both match. A date mismatch is reported first, and a time mismatch only on a matching date. |
| `IntervalLemmas.NoneSpecifierNeverFires` | config/src/interval.rs:210-227 | Some intervals never fire: `has_none_specifier` flags them, no moment matches, and there is no next occurrence. These are the intervals with a `None` minute, hour, week or month rule, and those with a `None` weekday or day-of-month rule whose partner rule is `All` or `None`. |
| `IntervalLemmas.NoneWeekdayOverridden` | config/src/interval.rs:210-227 | A restricted day-of-month rule overrides a `None` weekday rule. With `First` days of the month, the first of a month matches although `has_none_specifier` holds. |
| `IntervalLemmas.HourlyScenario` | config/src/interval.rs:1327-1383 | With minute rule `First`, the next run from any time is the start of the next hour. From the 23rd hour it is midnight of the next day. |
| `IntervalLemmas.NoonScenario` | config/src/interval.rs:403-410 | With rules minute `First` and hour `Nth(12)`, the next run from midnight is noon the same day. |
| `ProfileConfigs.IsInDirPrefix` | config/src/profile_config.rs:144-146 | A path is in a directory exactly when the directory's components are a prefix of the path's. |
| `ProfileConfigs.IsInDirOrder` | config/src/profile_config.rs:144-146 | Every directory contains itself, and a directory is not inside a strictly deeper path inside it. |
| `ProfileConfigs.IsInDirTransitive` | config/src/profile_config.rs:144-146 | Containment is transitive. |
| `ProfileConfigs.InAnyDir` | config/src/profile_config.rs:162-166 | True exactly when some listed directory contains the path. |
| `ProfileConfigs.IsExcluded` | config/src/profile_config.rs:151-159 | True exactly when the path is an excluded file or lies in an excluded directory. |
| `ProfileConfigs.InIncludedDirs` | config/src/profile_config.rs:162-166 | True exactly when some included directory contains the path. |
| `ProfileConfigs.GetNextScheduledSpec` | config/src/profile_config.rs:108-127 | When an occurrence after the base time exists within the horizon, the result is the earliest one. Otherwise it is `next_backup` plus 365 days, or `next_backup` itself when that sum overflows. |
| `ProfileConfigs.GetNextScheduledFromOwnTime` | config/src/profile_config.rs:112-127 | Called without a start time, the result is never earlier than `next_backup`. |
| `ProfileConfigs.GetNextScheduledFallbackAnchor` | config/src/profile_config.rs:112-127 | With a start time later than `next_backup` plus a year and no occurrence, the result is earlier than the start time. The doc comment's "at least the provided time" therefore holds only as stated in `GetNextScheduledSpec`. |
| `ProfileConfigs.SpecifierKindRoundTrip` | config/src/profile_config.rs:186-322 | Decoding an encoded specifier rule gives back the same rule. |
| `ProfileConfigs.ToSpecifierKindSpec` | config/src/profile_config.rs:186-228 | Decoding fails exactly for an unknown code, or for too few values for `Nth`, `BackNth` (1) or `EveryNth` (2). On success the rule's code and values come from the message. |
| `ProfileConfigs.ApplyFields` | config/src/profile_config.rs:235-254 | Applying the message fields succeeds exactly when every present field decodes. Each present field then sets its rule and each absent field keeps the builder's value. |
| `ProfileConfigs.AssembleIntervalSpec` | config/src/profile_config.rs:235-258 | Assembling succeeds exactly when every present field decodes. Each field is then the decoded rule, or `All` when absent, over the fixed range. |
| `ProfileConfigs.AppliedToDefault` | config/src/profile_config.rs:235-254 | A present field that decodes replaces the default. An absent one leaves `All`. |
| `ProfileConfigs.FieldRoundTrip` | config/src/profile_config.rs:324-332 | Each field of an encoded interval decodes back to the field. |
| `ProfileConfigs.IntervalRoundTrip` | config/src/profile_config.rs:235-332 | Decoding the encoding of a built interval gives the same interval back. |
| `Backups.IsScheduledFlags` | backupper/src/backup.rs:66-91 | `next_backup` is refreshed exactly when the run is forced or due. A backup is never made without a refresh, and a forced run always makes one. |
| `Backups.IsScheduledSpec` | backupper/src/backup.rs:66-91 | An unforced backup is made exactly when some representable moment the interval matches lies between `next_backup` and `now`, at most a year after `next_backup`'s date. In particular a matching `next_backup` that is due always triggers one. A missed occurrence more than a year after `next_backup` never does. |
| `Backups.HandleProfileSpec` | backupper/src/backup.rs:26-45 | Only `next_backup` changes, and only when `is_scheduled` says to refresh. It then becomes `get_next_scheduled` from the second clock reading. That is the first occurrence after that reading when one lies within the horizon, and otherwise the fallback of `GetNextScheduledSpec`. |
| `Backups.AddFileSpec` | backupper/src/backup.rs:224-246 | A path that is not a file is an error. A file is skipped exactly when an included directory covers it and no exclusion applies. |
| `Restores.StripPrefix` | backupper/src/restore.rs:64-67 | Succeeds exactly when the text starts with the prefix, and returns the rest. |
| `Restores.StripSuffix` | backupper/src/restore.rs:63 | Succeeds exactly when the text ends with the suffix, and returns the rest. |
| `Restores.CreationDateTextRoundTrip` | backupper/src/restore.rs:60-68 | The stamp cut out of `<uuid>_<stamp>.zip` is `<stamp>`. |
| `Restores.CreationDateTextShape` | backupper/src/restore.rs:60-68 | A non-empty cut-out stamp comes from a file named `<uuid>_<stamp>.zip`. |
| `Restores.EligibleIsArchive` | backupper/src/restore.rs:56-75 | When parsing rejects the empty text, as date parsing does, only readable files named `<uuid>_<stamp>.zip` can be eligible. Every other entry is skipped. |
| `Restores.SelectBackup` | backupper/src/restore.rs:46-83 | Among readable non-directory entries whose stamp parses to a time not later than the target, returns the newest, and the first of equal ones. None means there is no such entry. |

## Left out

- Machine-integer behaviour of coordinates is not modelled. Coordinates are
  unbounded naturals, so `u32` wrap-around in `min + n`, `max - n`, the
  `EveryNth` step arithmetic and `range_len` is absent.
  - `max - n` with `n > max` panics in a debug build. Here it is a
    negative integer, so nothing matches and `cyclic_next` returns None,
    as the doc comment of `Specifier::new` describes.
- `cyclic_next` for `EveryNth` computes the step index with `f64` rounding.
  The model uses the exact integer `(x - min - offset) / n + 1`, which the
  rounding yields for all `u32` coordinates.
- `Specifiers.Bisect` does not probe in the same order as the standard library's
  `binary_search`. Only its result contract is modelled, and on sorted
  duplicate-free lists that contract fixes the result.
- Weekday and month specifiers are built over indices (0-6, 0-11) rather than
  the wrapper types. The wrappers are modelled separately in `Weekdays` and
  `Months`.
- chrono's calendar is not interpreted.
  - A `Calendar` parameter supplies each day's weekday, day of month, ISO
    week and month, and the last representable day.
  - There is no minimum date.
  - Nanoseconds and leap seconds are absent.
  - `FromHms(23, 59, 59)` is always defined, so that error path of
    `next_datetime` cannot occur.
  - `Times.FromHms` and `Times.AddDays` stand in for chrono's
    `from_hms_opt` and `checked_add_days`. They accept exactly the valid
    hour, minute and second, and the day sums up to the calendar's last
    day.
- Intervals loaded from JSON are not modelled. `Interval` derives
  `Deserialize` and `ProfileConfig::load` reads JSON
  (config/src/profile_config.rs:79-83), which bypasses `Specifier::new`.
  `validate` (config/src/interval.rs:113-176) is the only check for such an
  interval, and backup-rs calls it only from tests.
  - `IntervalLemmas.NextDatetimeSpec`, `ProfileConfigs.GetNextScheduledSpec`,
    `Backups.IsScheduledSpec` and `Backups.HandleProfileSpec` require
    `WellFormed`. They hold for intervals built by the builder or decoded
    from protobuf, not for an arbitrary deserialised one.
  - Passing `validate` does not establish `WellFormed`. It checks only the
    ranges (`IntervalLemmas.ValidateSpec`), not that list rules are sorted,
    free of duplicates and within range.
- `IntervalBuilder::build` cannot fail once every field has a default, so
  `Build` returns an interval directly. `daily` keeps its `Result` because of
  its range checks.
- Error messages are abbreviated to the field's name.
- I/O is outside the model:
  - the zip writer and directory walking;
  - `perform_backup`, the retry dialogs and the scheduler;
  - `store`/`load` and JSON;
  - uuid generation;
  - the printing.
  The clock becomes the parameters `now` and `later`; the file system becomes
  `isFile` and the directory-entry list; `parse_from_str` becomes a
  `parse` function parameter.
- `handle_profile` reads the clock twice: once in `is_scheduled` and once
  when refreshing `next_backup`. `HandleProfile` takes both readings as
  separate parameters.
- The prost byte encoding and `decode` failure of `from_buf`/`to_buf` are not
  modelled, nor are its other fields (name, uuid parsing, paths, `next_backup`
  set to the clock). Only the interval part of the message is modelled.
  - The `.proto` file is not part of this model, so the numeric kind codes
    are assumed: a distinct code from 0 to 8 per kind, `None` = 0 …
    `ExplicitList` = 8. The round trip relies only on the codes being
    distinct.
- Path canonicalisation and the non-UTF-8 fallback of `to_str` are not
  modelled. Paths are sequences of component strings.
- After `restore` selects the best archive it returns without extracting it.
  The model stops at the selection as well.
- `ProfileConfigs.GetNextScheduledSpec`: the doc comment promises a result "at
  least the provided time". That holds when no start time is given
  (`GetNextScheduledFromOwnTime`) or when an occurrence exists. The fallback
  adds a year to `next_backup`, not to the start time, and
  `GetNextScheduledFallbackAnchor` exhibits a start time it stays below. The
  model keeps the code's behaviour.
