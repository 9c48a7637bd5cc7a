/** Choosing the archive to restore: the latest backup of a profile taken no
    later than a given time, recognised by its file name. */
module Restores {
  import opened Wrappers
  import opened Times
  import opened ProfileConfigs

  /** `str::strip_prefix`. */
  function StripPrefix(s: string, prefix: string): (r: Option<string>)
    ensures r.Some? <==> prefix <= s
    ensures r.Some? ==> s == prefix + r.value
  {
    if prefix <= s then Some(s[|prefix|..]) else Option.None
  }

  /** `str::strip_suffix`. */
  function StripSuffix(s: string, suffix: string): (r: Option<string>)
    ensures r.Some? <==> |suffix| <= |s| && s[|s| - |suffix|..] == suffix
    ensures r.Some? ==> s == r.value + suffix
  {
    if |suffix| <= |s| && s[|s| - |suffix|..] == suffix then Some(s[..|s| - |suffix|]) else Option.None
  }

  const ArchiveExtension: string := ".zip"

  /** Archives of a profile are named `<uuid>_<creation date>.zip`. */
  function ArchivePrefix(uuid: string): string {
    uuid + "_"
  }

  /** `Path::file_name`: the last component. */
  function FileName(path: Path): Option<string> {
    if |path| == 0 then Option.None else Some(path[|path| - 1])
  }

  /** The creation-date text of a path: every failing step yields "". */
  function CreationDateText(path: Path, uuid: string): string {
    var name := FileName(path);
    if name.None? then ""
    else
      var stem := StripSuffix(name.value, ArchiveExtension).GetOr("");
      StripPrefix(stem, ArchivePrefix(uuid)).GetOr("")
  }

  /** The name of an archive yields back the date text it was built from. */
  lemma CreationDateTextRoundTrip(dir: Path, uuid: string, stamp: string)
    ensures CreationDateText(dir + [ArchivePrefix(uuid) + stamp + ArchiveExtension], uuid) == stamp
  {
    var name := ArchivePrefix(uuid) + stamp + ArchiveExtension;
    var stem := ArchivePrefix(uuid) + stamp;
    assert name[|name| - |ArchiveExtension|..] == ArchiveExtension;
    assert name[..|name| - |ArchiveExtension|] == stem;
    assert ArchivePrefix(uuid) <= stem;
    assert stem[|ArchivePrefix(uuid)|..] == stamp;
  }

  /** Text other than "" only comes from a name of the archive form. */
  lemma CreationDateTextShape(path: Path, uuid: string)
    requires CreationDateText(path, uuid) != ""
    ensures FileName(path) == Some(ArchivePrefix(uuid) + CreationDateText(path, uuid) + ArchiveExtension)
  {
  }

  /** A directory entry; reading it may have failed. */
  datatype DirEntry = Unreadable | Entry(path: Path, isDir: bool)

  /** The creation date of an entry, if it is a readable file whose name has
      the archive form and whose date text `parse` accepts. */
  function EntryDate(e: DirEntry, uuid: string, parse: string -> Option<DateTime>): Option<DateTime> {
    if e.Unreadable? || e.isDir then Option.None
    else parse(CreationDateText(e.path, uuid))
  }

  /** The entry is a backup taken no later than `timestamp`. */
  predicate Eligible(e: DirEntry, uuid: string, parse: string -> Option<DateTime>, timestamp: DateTime) {
    EntryDate(e, uuid, parse).Some? && !DtBefore(timestamp, EntryDate(e, uuid, parse).value)
  }

  /** Date parsing never accepts the empty text, so only entries named
      `<uuid>_<stamp>.zip` can be eligible: every other name is skipped. */
  lemma EligibleIsArchive(e: DirEntry, uuid: string, parse: string -> Option<DateTime>, timestamp: DateTime)
    requires parse("").None?
    ensures Eligible(e, uuid, parse, timestamp) ==>
      && e.Entry? && !e.isDir
      && FileName(e.path) == Some(ArchivePrefix(uuid) + CreationDateText(e.path, uuid) + ArchiveExtension)
  {
    if Eligible(e, uuid, parse, timestamp) {
      assert CreationDateText(e.path, uuid) != "";
      CreationDateTextShape(e.path, uuid);
    }
  }

  datatype Backup = Backup(date: DateTime, path: Path)

  /** Among the first `n` entries, entry `i` is the one the selection keeps:
      an eligible backup, at least as late as every eligible one, and
      strictly later than every eligible one before it. */
  ghost predicate IsBestAmong(entries: seq<DirEntry>, n: nat, uuid: string, parse: string -> Option<DateTime>,
                              timestamp: DateTime, i: nat, b: Backup)
    requires n <= |entries|
  {
    && i < n
    && Eligible(entries[i], uuid, parse, timestamp)
    && entries[i].path == b.path && EntryDate(entries[i], uuid, parse).value == b.date
    && (forall j :: 0 <= j < n && Eligible(entries[j], uuid, parse, timestamp) ==>
          !DtBefore(b.date, EntryDate(entries[j], uuid, parse).value))
    && (forall j :: 0 <= j < i && Eligible(entries[j], uuid, parse, timestamp) ==>
          DtBefore(EntryDate(entries[j], uuid, parse).value, b.date))
  }

  /** Chronological order facts the selection relies on: a moment no later
      than `b` is before anything after `b`, and the order is asymmetric. */
  lemma DtOrder(a: DateTime, b: DateTime, c: DateTime)
    ensures !DtBefore(b, a) && DtBefore(b, c) ==> DtBefore(a, c)
    ensures DtBefore(a, c) ==> !DtBefore(c, a)
  {
  }

  /** Passing over entry `k` keeps the current best. */
  lemma SkipEntry(entries: seq<DirEntry>, k: nat, uuid: string, parse: string -> Option<DateTime>,
                  timestamp: DateTime, best: Option<Backup>, at: nat)
    requires k < |entries|
    requires best.None? <==> forall i :: 0 <= i < k ==> !Eligible(entries[i], uuid, parse, timestamp)
    requires best.Some? ==> IsBestAmong(entries, k, uuid, parse, timestamp, at, best.value)
    requires || !Eligible(entries[k], uuid, parse, timestamp)
             || (best.Some? && !DtBefore(best.value.date, EntryDate(entries[k], uuid, parse).value))
    ensures best.None? <==> forall i :: 0 <= i < k + 1 ==> !Eligible(entries[i], uuid, parse, timestamp)
    ensures best.Some? ==> IsBestAmong(entries, k + 1, uuid, parse, timestamp, at, best.value)
  {
  }

  /** Taking entry `k`, later than the current best, makes it the new best. */
  lemma TakeEntry(entries: seq<DirEntry>, k: nat, uuid: string, parse: string -> Option<DateTime>,
                  timestamp: DateTime, best: Option<Backup>, at: nat)
    requires k < |entries|
    requires best.None? <==> forall i :: 0 <= i < k ==> !Eligible(entries[i], uuid, parse, timestamp)
    requires best.Some? ==> IsBestAmong(entries, k, uuid, parse, timestamp, at, best.value)
    requires Eligible(entries[k], uuid, parse, timestamp)
    requires best.None? || DtBefore(best.value.date, EntryDate(entries[k], uuid, parse).value)
    ensures IsBestAmong(entries, k + 1, uuid, parse, timestamp, k,
                        Backup(EntryDate(entries[k], uuid, parse).value, entries[k].path))
  {
    var d := EntryDate(entries[k], uuid, parse).value;
    forall j | 0 <= j < k + 1 && Eligible(entries[j], uuid, parse, timestamp)
      ensures !DtBefore(d, EntryDate(entries[j], uuid, parse).value)
    {
      if j < k {
        DtOrder(EntryDate(entries[j], uuid, parse).value, best.value.date, d);
      }
    }
    forall j | 0 <= j < k && Eligible(entries[j], uuid, parse, timestamp)
      ensures DtBefore(EntryDate(entries[j], uuid, parse).value, d)
    {
      DtOrder(EntryDate(entries[j], uuid, parse).value, best.value.date, d);
    }
  }

  /** The selection loop of `restore`: the latest backup not after
      `timestamp`, the first one met on ties; None when there is none. */
  method SelectBackup(entries: seq<DirEntry>, uuid: string, parse: string -> Option<DateTime>, timestamp: DateTime)
    returns (best: Option<Backup>)
    ensures best.None? <==> forall i :: 0 <= i < |entries| ==> !Eligible(entries[i], uuid, parse, timestamp)
    ensures best.Some? ==>
      exists i :: 0 <= i < |entries| && IsBestAmong(entries, |entries|, uuid, parse, timestamp, i, best.value)
  {
    best := Option.None;
    ghost var at: nat := 0;
    var k := 0;
    while k < |entries|
      invariant 0 <= k <= |entries|
      invariant best.None? <==> forall i :: 0 <= i < k ==> !Eligible(entries[i], uuid, parse, timestamp)
      invariant best.Some? ==> IsBestAmong(entries, k, uuid, parse, timestamp, at, best.value)
    {
      var e := entries[k];
      if Eligible(e, uuid, parse, timestamp)
         && (best.None? || DtBefore(best.value.date, EntryDate(e, uuid, parse).value)) {
        TakeEntry(entries, k, uuid, parse, timestamp, best, at);
        best := Some(Backup(EntryDate(e, uuid, parse).value, e.path));
        at := k;
      } else {
        SkipEntry(entries, k, uuid, parse, timestamp, best, at);
      }
      k := k + 1;
    }
    if best.Some? {
      assert at < |entries| && IsBestAmong(entries, |entries|, uuid, parse, timestamp, at, best.value);
    }
  }
}
