/** The pure decisions of a backup profile: which paths it covers, when it
    runs next, and how its interval maps to and from the wire description. */
module ProfileConfigs {
  import opened Wrappers
  import opened Specifiers
  import opened Times
  import opened Intervals
  import opened IntervalLemmas
  import SpecifierLemmas

  /** A path as its sequence of components (a root counts as one). */
  type Path = seq<string>

  datatype ProfileConfig = ProfileConfig(
    name: string,
    uuid: string,
    targetDir: Path,
    filesToInclude: seq<Path>,
    dirsToInclude: seq<Path>,
    filesToExclude: seq<Path>,
    dirsToExclude: seq<Path>,
    interval: Interval,
    nextBackup: DateTime)

  /* ---------------------------------------------------------------------
     Path inclusion
     --------------------------------------------------------------------- */

  /** `is_in_dir`, i.e. `Path::starts_with`: compares components pairwise
      until `dir` runs out. */
  function IsInDir(path: Path, dir: Path): bool {
    if |dir| == 0 then true
    else if |path| == 0 then false
    else path[0] == dir[0] && IsInDir(path[1..], dir[1..])
  }

  /** `is_in_dir` is exactly the component-wise prefix relation. */
  lemma {:induction false} IsInDirPrefix(path: Path, dir: Path)
    ensures IsInDir(path, dir) <==> dir <= path
  {
    if |dir| > 0 && |path| > 0 {
      IsInDirPrefix(path[1..], dir[1..]);
      assert dir <= path <==> path[0] == dir[0] && dir[1..] <= path[1..];
    }
  }

  /** Every directory is in itself, and a directory is never in one of its
      proper descendants. */
  lemma IsInDirOrder(parent: Path, child: Path)
    ensures IsInDir(parent, parent)
    ensures IsInDir(child, parent) && |parent| < |child| ==> !IsInDir(parent, child)
  {
    IsInDirPrefix(parent, parent);
    IsInDirPrefix(child, parent);
    IsInDirPrefix(parent, child);
  }

  /** Being inside is transitive. */
  lemma IsInDirTransitive(path: Path, dir: Path, outer: Path)
    requires IsInDir(path, dir) && IsInDir(dir, outer)
    ensures IsInDir(path, outer)
  {
    IsInDirPrefix(path, dir);
    IsInDirPrefix(dir, outer);
    IsInDirPrefix(path, outer);
  }

  /** `dirs.iter().any(|d| is_in_dir(path, d))`. */
  function InAnyDir(path: Path, dirs: seq<Path>): (r: bool)
    ensures r <==> exists i :: 0 <= i < |dirs| && IsInDir(path, dirs[i])
  {
    if |dirs| == 0 then false
    else if IsInDir(path, dirs[0]) then true
    else
      var rest := InAnyDir(path, dirs[1..]);
      assert forall i :: 1 <= i < |dirs| ==> dirs[i] == dirs[1..][i - 1];
      rest
  }

  /** `is_excluded`: listed as an excluded file, or inside an excluded
      directory. */
  function IsExcluded(cfg: ProfileConfig, path: Path): (r: bool)
    ensures r <==> (
      || (exists i :: 0 <= i < |cfg.filesToExclude| && cfg.filesToExclude[i] == path)
      || (exists i :: 0 <= i < |cfg.dirsToExclude| && IsInDir(path, cfg.dirsToExclude[i])))
  {
    path in cfg.filesToExclude || InAnyDir(path, cfg.dirsToExclude)
  }

  /** `in_included_dirs`. */
  function InIncludedDirs(cfg: ProfileConfig, path: Path): (r: bool)
    ensures r <==> exists i :: 0 <= i < |cfg.dirsToInclude| && IsInDir(path, cfg.dirsToInclude[i])
  {
    InAnyDir(path, cfg.dirsToInclude)
  }

  /* ---------------------------------------------------------------------
     Next scheduled run
     --------------------------------------------------------------------- */

  /** Days added to `next_backup` when the interval finds nothing. */
  const FallbackDays: nat := 365

  /** `get_next_scheduled`: the interval's next occurrence after `from` (or
      after `next_backup` when no time is given); failing that, a year after
      `next_backup`, or `next_backup` itself if that date cannot be
      represented. */
  function GetNextScheduled(cfg: ProfileConfig, cal: Calendar, from: Option<DateTime>): DateTime {
    var base := if from.Some? then from.value else cfg.nextBackup;
    var next := NextDatetime(cfg.interval, cal, base);
    if next.Some? then next.value
    else
      var later := AddDays(cal, cfg.nextBackup.date, FallbackDays);
      if later.Some? then DateTime(later.value, cfg.nextBackup.time) else cfg.nextBackup
  }

  /** Where `get_next_scheduled` starts looking. */
  function Base(cfg: ProfileConfig, from: Option<DateTime>): DateTime {
    if from.Some? then from.value else cfg.nextBackup
  }

  /** What `get_next_scheduled` returns when the interval finds nothing. */
  function Fallback(cfg: ProfileConfig, cal: Calendar): DateTime {
    var nb := cfg.nextBackup;
    if nb.date + FallbackDays <= cal.lastDay then DateTime(nb.date + FallbackDays, nb.time) else nb
  }

  /** The scheduled time is the first occurrence after the starting point
      when one falls within the search horizon, and the fallback otherwise. */
  lemma GetNextScheduledSpec(cfg: ProfileConfig, cal: Calendar, from: Option<DateTime>)
    requires WellFormed(cfg.interval) && Base(cfg, from).date <= cal.lastDay
    ensures HasOccurrenceWithin(cfg.interval, cal, Base(cfg, from)) ==>
      IsNextOccurrence(cfg.interval, cal, Base(cfg, from), GetNextScheduled(cfg, cal, from))
    ensures !HasOccurrenceWithin(cfg.interval, cal, Base(cfg, from)) ==>
      GetNextScheduled(cfg, cal, from) == Fallback(cfg, cal)
  {
    NextDatetimeSpec(cfg.interval, cal, Base(cfg, from));
  }

  /** Starting from `next_backup` itself, the result is never earlier than
      `next_backup`. */
  lemma GetNextScheduledFromOwnTime(cfg: ProfileConfig, cal: Calendar)
    requires WellFormed(cfg.interval) && cfg.nextBackup.date <= cal.lastDay
    ensures !DtBefore(GetNextScheduled(cfg, cal, Option.None), cfg.nextBackup)
  {
    GetNextScheduledSpec(cfg, cal, Option.None);
  }

  /** The fallback is anchored at `next_backup`, not at the given time: with
      an interval that never fires, a starting point more than a year after
      `next_backup` yields a time before that starting point. */
  lemma GetNextScheduledFallbackAnchor()
    ensures var cal := Calendar(1000, (d: int) => DateFields(0, 0, 0, 0));
      var iv := Build(Set(DefaultBuilder(), Minute, SpecifierKind.None));
      var midnight: Time := TimeOfDay(0, 0, 0);
      var cfg := ProfileConfig("", "", [], [], [], [], [], iv, DateTime(0, midnight));
      var from := DateTime(500, midnight);
      GetNextScheduled(cfg, cal, Some(from)) == DateTime(365, midnight)
      && DtBefore(GetNextScheduled(cfg, cal, Some(from)), from)
  {
    var cal := Calendar(1000, (d: int) => DateFields(0, 0, 0, 0));
    var iv := Build(Set(DefaultBuilder(), Minute, SpecifierKind.None));
    var midnight: Time := TimeOfDay(0, 0, 0);
    DefaultBuild();
    SetBuild(DefaultBuilder(), Minute, SpecifierKind.None);
    BuildWellFormed(Set(DefaultBuilder(), Minute, SpecifierKind.None));
    assert iv.minutes == Get(iv, Minute);
    NoneSpecifierNeverFires(iv, cal, DateTime(500, midnight));
  }

  /* ---------------------------------------------------------------------
     Wire description of specifiers
     --------------------------------------------------------------------- */

  /** Numeric codes of the wire enum of specifier kinds. */
  const CodeNone: int := 0
  const CodeAll: int := 1
  const CodeFirst: int := 2
  const CodeLast: int := 3
  const CodeNth: int := 4
  const CodeBackNth: int := 5
  const CodeExplicitNths: int := 6
  const CodeEveryNth: int := 7
  const CodeExplicitList: int := 8

  /** A specifier on the wire: a kind code and its parameters. */
  datatype ProtoSpecifier = ProtoSpecifier(kind: int, values: seq<nat>)

  /** An interval on the wire: every field is optional. */
  datatype ProtoInterval = ProtoInterval(
    minutes: Option<ProtoSpecifier>,
    hours: Option<ProtoSpecifier>,
    weekdays: Option<ProtoSpecifier>,
    monthdays: Option<ProtoSpecifier>,
    weeks: Option<ProtoSpecifier>,
    months: Option<ProtoSpecifier>)

  /** `to_specifier_kind`: reads the parameters the kind needs and ignores
      the rest; too few parameters or an unknown code is an error. */
  function ToSpecifierKind(p: ProtoSpecifier): Result<SpecifierKind> {
    if p.kind == CodeNone then Success(SpecifierKind.None)
    else if p.kind == CodeAll then Success(All)
    else if p.kind == CodeFirst then Success(First)
    else if p.kind == CodeLast then Success(Last)
    else if p.kind == CodeNth then
      if |p.values| < 1 then Failure("No value for SpecifierKind::Nth provided!")
      else Success(Nth(p.values[0]))
    else if p.kind == CodeBackNth then
      if |p.values| < 1 then Failure("No value for SpecifierKind::BackNth provided!")
      else Success(BackNth(p.values[0]))
    else if p.kind == CodeExplicitNths then Success(ExplicitNths(p.values))
    else if p.kind == CodeEveryNth then
      if |p.values| < 2 then Failure("Not enough values provided for SpecifierKind::EveryNth!")
      else Success(EveryNth(p.values[0], p.values[1]))
    else if p.kind == CodeExplicitList then Success(ExplicitList(p.values))
    else Failure("Unknown SpecifierKind")
  }

  /** `to_proto_specifier_kind`. */
  function ToProtoSpecifierKind(kind: SpecifierKind): int {
    match kind
    case None => CodeNone
    case All => CodeAll
    case First => CodeFirst
    case Last => CodeLast
    case Nth(_) => CodeNth
    case BackNth(_) => CodeBackNth
    case ExplicitNths(_) => CodeExplicitNths
    case EveryNth(_, _) => CodeEveryNth
    case ExplicitList(_) => CodeExplicitList
  }

  /** The parameters `to_proto_specifier` writes for a kind. */
  function ProtoValues(kind: SpecifierKind): seq<nat> {
    match kind
    case None => []
    case All => []
    case First => []
    case Last => []
    case Nth(n) => [n]
    case BackNth(n) => [n]
    case ExplicitNths(indices) => indices
    case EveryNth(n, offset) => [n, offset]
    case ExplicitList(values) => values
  }

  /** `to_proto_specifier`: the bounds are not sent. */
  function ToProtoSpecifier(s: Specifier): ProtoSpecifier {
    ProtoSpecifier(ToProtoSpecifierKind(s.kind), ProtoValues(s.kind))
  }

  /** How many parameters a code needs; list kinds take the whole list. */
  function Arity(code: int, values: seq<nat>): nat {
    if code == CodeNth || code == CodeBackNth then 1
    else if code == CodeEveryNth then 2
    else if code == CodeExplicitNths || code == CodeExplicitList then |values|
    else 0
  }

  /** Every kind survives the trip through the wire description. */
  lemma SpecifierKindRoundTrip(s: Specifier)
    ensures ToSpecifierKind(ToProtoSpecifier(s)) == Success(s.kind)
  {
  }

  /** Decoding fails exactly on an unknown code or on fewer parameters than
      the kind needs; a decoded kind has the same code and re-encodes to
      the parameters it used, so extra ones are dropped. */
  lemma ToSpecifierKindSpec(p: ProtoSpecifier)
    ensures ToSpecifierKind(p).Failure? <==>
      !(CodeNone <= p.kind <= CodeExplicitList) || |p.values| < Arity(p.kind, p.values)
    ensures ToSpecifierKind(p).Success? ==>
      && ToProtoSpecifierKind(ToSpecifierKind(p).value) == p.kind
      && ProtoValues(ToSpecifierKind(p).value) == p.values[..Arity(p.kind, p.values)]
  {
  }

  /* ---------------------------------------------------------------------
     Interval assembly
     --------------------------------------------------------------------- */

  function ProtoField(p: ProtoInterval, u: Unit): Option<ProtoSpecifier> {
    match u
    case Minute => p.minutes
    case Hour => p.hours
    case Weekday => p.weekdays
    case Monthday => p.monthdays
    case Week => p.weeks
    case Month => p.months
  }

  /** The order in which `from_buf` reads the fields. */
  const FieldOrder: seq<Unit> := [Minute, Hour, Weekday, Monthday, Week, Month]

  lemma FieldOrderComplete()
    ensures forall u :: u in FieldOrder
  {
    forall u ensures u in FieldOrder {
      match u
      case Minute => assert FieldOrder[0] == u;
      case Hour => assert FieldOrder[1] == u;
      case Weekday => assert FieldOrder[2] == u;
      case Monthday => assert FieldOrder[3] == u;
      case Week => assert FieldOrder[4] == u;
      case Month => assert FieldOrder[5] == u;
    }
  }

  /** A field is usable when it is absent or decodes. */
  predicate Decodes(p: ProtoInterval, u: Unit) {
    ProtoField(p, u).None? || ToSpecifierKind(ProtoField(p, u).value).Success?
  }

  /** What a usable field puts into the builder. */
  function Applied(p: ProtoInterval, u: Unit, current: Option<Specifier>): Option<Specifier> {
    match ProtoField(p, u)
    case None => current
    case Some(ps) =>
      match ToSpecifierKind(ps)
      case Success(kind) => Some(ForUnit(u, kind))
      case Failure(_) => current
  }

  /** The field-by-field part of `from_buf`: each present field is decoded
      and handed to its setter; the first error ends the assembly. */
  function ApplyFields(b: IntervalBuilder, p: ProtoInterval, units: seq<Unit>): (r: Result<IntervalBuilder>)
    ensures r.Success? <==> forall i :: 0 <= i < |units| ==> Decodes(p, units[i])
    ensures r.Success? ==>
      forall u :: Field(r.value, u) == if u in units then Applied(p, u, Field(b, u)) else Field(b, u)
    decreases |units|
  {
    if |units| == 0 then Success(b)
    else
      var u := units[0];
      var next :=
        match ProtoField(p, u)
        case None => Success(b)
        case Some(ps) =>
          match ToSpecifierKind(ps)
          case Success(kind) => Success(Set(b, u, kind))
          case Failure(e) => Failure(e);
      if next.Failure? then next
      else
        var rest := ApplyFields(next.value, p, units[1..]);
        assert forall i :: 1 <= i < |units| ==> units[i] == units[1..][i - 1];
        assert forall v :: v in units <==> v == u || v in units[1..];
        rest
  }

  /** The interval part of `from_buf`: a missing interval, or a missing
      field, keeps the builder default. */
  function AssembleInterval(p: Option<ProtoInterval>): Result<Interval> {
    if p.None? then Success(Build(DefaultBuilder()))
    else
      var b := ApplyFields(DefaultBuilder(), p.value, FieldOrder);
      if b.Failure? then Failure(b.error) else Success(Build(b.value))
  }

  /** The interval part of `to_buf`: every field is sent. */
  function ToProtoInterval(iv: Interval): ProtoInterval {
    ProtoInterval(
      Some(ToProtoSpecifier(iv.minutes)),
      Some(ToProtoSpecifier(iv.hours)),
      Some(ToProtoSpecifier(iv.weekdays)),
      Some(ToProtoSpecifier(iv.monthdays)),
      Some(ToProtoSpecifier(iv.weeks)),
      Some(ToProtoSpecifier(iv.months)))
  }

  /** The kind a field ends up with: its decoded kind, or `All` when absent. */
  function KindOrAll(p: ProtoInterval, u: Unit): SpecifierKind {
    match ProtoField(p, u)
    case None => All
    case Some(ps) => if ToSpecifierKind(ps).Success? then ToSpecifierKind(ps).value else All
  }

  /** Assembly fails exactly when a present field does not decode; it
      otherwise builds each unit's decoded kind over the unit's range, and
      `All` for every absent field. */
  lemma AssembleIntervalSpec(p: ProtoInterval)
    ensures AssembleInterval(Some(p)).Success? <==> forall u :: Decodes(p, u)
    ensures AssembleInterval(Some(p)).Success? ==>
      var iv := AssembleInterval(Some(p)).value;
      WellFormed(iv) && forall u :: Get(iv, u) == ForUnit(u, KindOrAll(p, u))
  {
    FieldOrderComplete();
    var b := ApplyFields(DefaultBuilder(), p, FieldOrder);
    if forall u :: Decodes(p, u) {
      assert b.Success?;
      forall u ensures Get(Build(b.value), u) == ForUnit(u, KindOrAll(p, u)) {
        AppliedToDefault(p, u);
      }
    } else {
      var u :| !Decodes(p, u);
      var i := match u
        case Minute => 0 case Hour => 1 case Weekday => 2
        case Monthday => 3 case Week => 4 case Month => 5;
      assert FieldOrder[i] == u;
    }
  }

  lemma AppliedToDefault(p: ProtoInterval, u: Unit)
    requires Decodes(p, u)
    ensures Applied(p, u, Field(DefaultBuilder(), u)).GetOr(ForUnit(u, All)) == ForUnit(u, KindOrAll(p, u))
  {
  }

  /** One field of a well-formed interval survives the wire. */
  lemma FieldRoundTrip(iv: Interval, u: Unit)
    requires WellFormed(iv)
    ensures Decodes(ToProtoInterval(iv), u)
    ensures ForUnit(u, KindOrAll(ToProtoInterval(iv), u)) == Get(iv, u)
  {
    var p := ToProtoInterval(iv);
    assert ProtoField(p, u) == Some(ToProtoSpecifier(Get(iv, u)));
    SpecifierKindRoundTrip(Get(iv, u));
    SpecifierLemmas.NewIdempotent(Get(iv, u));
  }

  /** Sending a well-formed interval and reading it back yields the same
      interval. */
  lemma IntervalRoundTrip(iv: Interval)
    requires WellFormed(iv)
    ensures AssembleInterval(Some(ToProtoInterval(iv))) == Success(iv)
  {
    var p := ToProtoInterval(iv);
    forall u ensures Decodes(p, u) && ForUnit(u, KindOrAll(p, u)) == Get(iv, u) {
      FieldRoundTrip(iv, u);
    }
    AssembleIntervalSpec(p);
    var r := AssembleInterval(Some(p)).value;
    assert Get(r, Minute) == Get(iv, Minute);
    assert Get(r, Hour) == Get(iv, Hour);
    assert Get(r, Weekday) == Get(iv, Weekday);
    assert Get(r, Monthday) == Get(iv, Monthday);
    assert Get(r, Week) == Get(iv, Week);
    assert Get(r, Month) == Get(iv, Month);
  }
}
