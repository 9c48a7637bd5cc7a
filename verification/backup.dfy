/** The decisions the backup run takes: whether a profile is due, how its
    next run time is refreshed, and which files go into the archive. */
module Backups {
  import opened Wrappers
  import opened Times
  import opened DateTimeMatches
  import opened Intervals
  import opened IntervalLemmas
  import opened ProfileConfigs

  /** The two flags of `is_scheduled`. */
  datatype Decision = Decision(updateNextBackup: bool, performBackup: bool)

  /** `is_scheduled`, with the clock reading passed in as `now`: a forced run
      always happens; before `next_backup` nothing happens; afterwards the
      run time is refreshed, and a backup is made if `next_backup` itself
      matched or the interval's next time after it has passed and matches. */
  function IsScheduled(cfg: ProfileConfig, cal: Calendar, forced: bool, now: DateTime): Decision {
    if forced then Decision(true, true)
    else if DtBefore(now, cfg.nextBackup) then Decision(false, false)
    else
      var scheduled := GetNextScheduled(cfg, cal, Option.None);
      var nextBackupMatches := MatchesDatetime(cfg.interval, cal, cfg.nextBackup) == Ok;
      var scheduledMatches := MatchesDatetime(cfg.interval, cal, scheduled) == Ok;
      var skippedScheduled := !DtBefore(now, scheduled);
      Decision(true, nextBackupMatches || (skippedScheduled && scheduledMatches))
  }

  /** The flags: the run time is refreshed exactly when the run is forced or
      due, and a backup is never made without refreshing it. */
  lemma IsScheduledFlags(cfg: ProfileConfig, cal: Calendar, forced: bool, now: DateTime)
    ensures IsScheduled(cfg, cal, forced, now).updateNextBackup <==> forced || !DtBefore(now, cfg.nextBackup)
    ensures IsScheduled(cfg, cal, forced, now).performBackup ==> IsScheduled(cfg, cal, forced, now).updateNextBackup
    ensures forced ==> IsScheduled(cfg, cal, forced, now).performBackup
  {
  }

  /** A representable moment `o`, no earlier than `from`, no later than
      `to` and at most `SearchHorizon` days after `from`'s date, that the
      interval matches (seconds ignored). */
  ghost predicate MatchBetween(iv: Interval, cal: Calendar, from: DateTime, to: DateTime, o: DateTime) {
    && o.date <= cal.lastDay && MatchesDatetime(iv, cal, o) == Ok
    && !DtBefore(o, from) && !DtBefore(to, o) && o.date <= from.date + SearchHorizon
  }

  /** An unforced backup is made exactly when some matching moment lies
      between `next_backup` and `now` within a year after `next_backup`: a
      matching `next_backup` counts as soon as it is due, and a later one
      only through `get_next_scheduled`, which looks no further than a year.
      So an occurrence missed by more than a year never triggers a backup. */
  lemma IsScheduledSpec(cfg: ProfileConfig, cal: Calendar, now: DateTime)
    requires WellFormed(cfg.interval) && cfg.nextBackup.date <= cal.lastDay
    ensures IsScheduled(cfg, cal, false, now).performBackup <==>
      exists o :: MatchBetween(cfg.interval, cal, cfg.nextBackup, now, o)
    ensures MatchesDatetime(cfg.interval, cal, cfg.nextBackup) == Ok && !DtBefore(now, cfg.nextBackup) ==>
      IsScheduled(cfg, cal, false, now).performBackup
    ensures IsScheduled(cfg, cal, false, now).performBackup ==>
      || MatchesDatetime(cfg.interval, cal, cfg.nextBackup) == Ok
      || exists o :: DtBefore(cfg.nextBackup, o) && !DtBefore(now, o) && MatchesDatetime(cfg.interval, cal, o) == Ok
    ensures (exists o :: && IsOccurrence(cfg.interval, cal, o) && DtBefore(cfg.nextBackup, o)
                         && !DtBefore(now, o) && o.date <= cfg.nextBackup.date + SearchHorizon) ==>
      IsScheduled(cfg, cal, false, now).performBackup
  {
    var iv, nb := cfg.interval, cfg.nextBackup;
    var scheduled := GetNextScheduled(cfg, cal, Option.None);
    GetNextScheduledSpec(cfg, cal, Option.None);
    var nbMatches := MatchesDatetime(iv, cal, nb) == Ok;
    if IsScheduled(cfg, cal, false, now).performBackup {
      if nbMatches {
        assert MatchBetween(iv, cal, nb, now, nb);
      } else if HasOccurrenceWithin(iv, cal, nb) {
        var w :| IsOccurrence(iv, cal, w) && DtBefore(nb, w) && w.date <= nb.date + SearchHorizon;
        assert !DtBefore(w, scheduled);
        assert MatchBetween(iv, cal, nb, now, scheduled);
      } else {
        assert MatchBetween(iv, cal, nb, now, scheduled);
      }
    }
    if (exists o :: MatchBetween(iv, cal, nb, now, o)) && !nbMatches {
      var o :| MatchBetween(iv, cal, nb, now, o);
      var whole: Time := TimeOfDay(o.time.hour, o.time.minute, 0);
      var o' := DateTime(o.date, whole);
      assert IsOccurrence(iv, cal, o') && DtBefore(nb, o');
      assert !DtBefore(o', scheduled);
      MatchesDatetimeSpec(iv, cal, scheduled);
    }
    if exists o :: && IsOccurrence(iv, cal, o) && DtBefore(nb, o)
                    && !DtBefore(now, o) && o.date <= nb.date + SearchHorizon {
      var o :| && IsOccurrence(iv, cal, o) && DtBefore(nb, o)
               && !DtBefore(now, o) && o.date <= nb.date + SearchHorizon;
      assert MatchBetween(iv, cal, nb, now, o);
    }
  }

  /** What `handle_profile` leaves behind: the updated profile and whether
      a backup was attempted. */
  datatype Handled = Handled(cfg: ProfileConfig, performed: bool)

  /** `handle_profile` without its I/O: `now` is the clock reading taken by
      `is_scheduled`, `later` the one taken when refreshing `next_backup`. */
  function HandleProfile(cfg: ProfileConfig, cal: Calendar, forced: bool, now: DateTime, later: DateTime): Handled {
    var decision := IsScheduled(cfg, cal, forced, now);
    var updated :=
      if decision.updateNextBackup then cfg.(nextBackup := GetNextScheduled(cfg, cal, Some(later)))
      else cfg;
    Handled(updated, decision.performBackup)
  }

  /** Only `next_backup` changes, and only when `is_scheduled` says so; it
      then becomes `get_next_scheduled` from `later`: the first occurrence
      after `later` when there is one within the horizon, and otherwise the
      fallback that `GetNextScheduledSpec` describes. */
  lemma HandleProfileSpec(cfg: ProfileConfig, cal: Calendar, forced: bool, now: DateTime, later: DateTime)
    requires WellFormed(cfg.interval) && later.date <= cal.lastDay
    ensures var h := HandleProfile(cfg, cal, forced, now, later);
      && h.cfg == cfg.(nextBackup := h.cfg.nextBackup)
      && h.performed == IsScheduled(cfg, cal, forced, now).performBackup
      && (!IsScheduled(cfg, cal, forced, now).updateNextBackup ==> h.cfg.nextBackup == cfg.nextBackup)
      && (IsScheduled(cfg, cal, forced, now).updateNextBackup ==>
            h.cfg.nextBackup == GetNextScheduled(cfg, cal, Some(later)))
      && (IsScheduled(cfg, cal, forced, now).updateNextBackup && HasOccurrenceWithin(cfg.interval, cal, later) ==>
            IsNextOccurrence(cfg.interval, cal, later, h.cfg.nextBackup))
  {
    GetNextScheduledSpec(cfg, cal, Some(later));
  }

  /** Outcome of `add_file`. */
  datatype AddFileOutcome =
    | NotAFile         // the path is not a regular file: an error
    | AlreadyCovered   // the included directories already add it
    | Written          // handed to the archive writer

  /** `add_file`: an explicitly included file is written unless an included
      directory already covers it and no exclusion removed it there. */
  function AddFile(cfg: ProfileConfig, file: Path, isFile: bool): AddFileOutcome {
    if !isFile then NotAFile
    else if InIncludedDirs(cfg, file) && !IsExcluded(cfg, file) then AlreadyCovered
    else Written
  }

  /** A file is skipped exactly when it lies in an included directory and
      neither matches an excluded file nor lies in an excluded directory. */
  lemma AddFileSpec(cfg: ProfileConfig, file: Path, isFile: bool)
    ensures AddFile(cfg, file, isFile) == AlreadyCovered <==>
      && isFile
      && (exists i :: 0 <= i < |cfg.dirsToInclude| && IsInDir(file, cfg.dirsToInclude[i]))
      && (forall i :: 0 <= i < |cfg.filesToExclude| ==> cfg.filesToExclude[i] != file)
      && (forall i :: 0 <= i < |cfg.dirsToExclude| ==> !IsInDir(file, cfg.dirsToExclude[i]))
    ensures AddFile(cfg, file, isFile) == NotAFile <==> !isFile
  {
  }
}
