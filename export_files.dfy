/**
 * The exporter: for each pending entry of an export list it finds the local file the entry
 * names, copies it into the output directory under a name the importer's search pattern
 * finds, and records the entry's status.
 */
module ExportFiles {
  import opened Wrappers
  import opened Text
  import opened Seqs
  import opened SyncManager

  // ---------------------------------------------------------------------------------------
  // Export names

  /** The index of the last `.` in `n`. */
  function LastDot(n: string): (r: Option<nat>)
    ensures r.Some? ==> r.value < |n| && n[r.value] == '.' && forall j :: r.value < j < |n| ==> n[j] != '.'
    ensures r.None? ==> forall j :: 0 <= j < |n| ==> n[j] != '.'
  {
    if |n| == 0 then None
    else if n[|n| - 1] == '.' then Some(|n| - 1)
    else LastDot(n[..|n| - 1])
  }

  /** `pathlib`'s rule: the last dot starts a suffix unless it is the first or the last character. */
  predicate HasSuffix(n: string) {
    LastDot(n).Some? && 0 < LastDot(n).value < |n| - 1
  }

  /** `PurePath.suffix` of a file name. */
  function Suffix(n: string): string {
    if HasSuffix(n) then n[LastDot(n).value..] else ""
  }

  /** `PurePath.stem` of a file name. */
  function Stem(n: string): string {
    if HasSuffix(n) then n[..LastDot(n).value] else n
  }

  /** The stem and suffix split a name; a suffix is a dot followed by at least one dot-free character. */
  lemma StemSuffix(n: string)
    ensures Stem(n) + Suffix(n) == n
    ensures Suffix(n) == "" || (|Suffix(n)| >= 2 && Suffix(n)[0] == '.' && '.' !in Suffix(n)[1..])
    ensures Suffix(n) == "" <==> !HasSuffix(n)
  {
    if HasSuffix(n) {
      var i := LastDot(n).value;
      assert n[..i] + n[i..] == n;
      forall j | 0 <= j < |n[i..][1..]| ensures n[i..][1..][j] != '.' {
        assert n[i..][1..][j] == n[i + 1 + j];
      }
    }
  }

  /** The file name of a path: everything after its last `/`. */
  function FileName(path: string): string {
    LastSegment(path, '/')
  }

  /** The export name: the source's stem, `_`, the key (url slashes as `_`), and the source's suffix. */
  function ExportName(localPath: string, kind: Kind, key: string): string {
    var n := FileName(localPath);
    Stem(n) + "_" + (if kind == ByHash then key else ReplaceChars(key, {'/'}, '_')) + Suffix(n)
  }

  /** An exported file with a suffix is found by the importer's pattern for the same key. */
  lemma ExportNameMatchesImport(localPath: string, kind: Kind, key: string)
    requires Suffix(FileName(localPath)) != ""
    ensures Contains(ExportName(localPath, kind, key), Pattern(kind, key))
  {
    var n := FileName(localPath);
    StemSuffix(n);
    var k := if kind == ByHash then key else ReplaceChars(key, {'/'}, '_');
    InfixOccurs(Stem(n), k, Suffix(n));
    ContainsIff(ExportName(localPath, kind, key), Pattern(kind, key));
  }

  lemma InfixOccurs(a: string, k: string, s: string)
    requires |s| >= 1 && s[0] == '.'
    ensures OccursAt(a + "_" + k + s, "_" + k + ".", |a|)
  {
    var e := a + "_" + k + s;
    assert e[|a|..|a| + |k| + 2] == "_" + k + ".";
  }

  // ---------------------------------------------------------------------------------------
  // Exporting

  /**
   * The file system as the exporter sees it: the paths that exist, and the paths whose copy
   * raises, with the exception's text.
   */
  datatype Env = Env(present: set<string>, copyErrors: map<string, string>)

  const DryRunMessage := "Dry run - file would be exported"

  /**
   * `_export_by_hash` / `_export_by_url`: the first images row for the key (in scan order),
   * then in this order no row, an empty `local_path`, a missing source; then a dry run
   * (status stays pending with a message) or the copy, which completes the entry or records
   * the copy's error. The result is the method's boolean.
   */
  function ExportEntry(db: SyncDb, output: set<string>, env: Env, scan: seq<nat>, kind: Kind, key: string,
                       id: nat, dryRun: bool): (SyncDb, set<string>, bool)
  {
    match MetadataRow(db.images, scan, kind, key)
    case None => (SetStatus(db, id, Error, Some("File not found in database")), output, false)
    case Some(row) =>
      var lp := db.images[row].localPath;
      if lp.None? || lp.value == "" then (SetStatus(db, id, Error, Some("No local path")), output, false)
      else if lp.value !in env.present then (SetStatus(db, id, Error, Some("Source file not found")), output, false)
      else if dryRun then (SetStatus(db, id, Pending, Some(DryRunMessage)), output, true)
      else if lp.value in env.copyErrors then (SetStatus(db, id, Error, Some(env.copyErrors[lp.value])), output, false)
      else (SetStatus(db, id, Completed, None), output + {ExportName(lp.value, kind, key)}, true)
  }

  /**
   * An entry is completed exactly when its row has a present local file, the run is not dry
   * and the copy succeeds; the copy then lies in the output directory under its export name.
   */
  lemma ExportEntryCompletes(db: SyncDb, output: set<string>, env: Env, scan: seq<nat>, kind: Kind, key: string,
                             id: nat, dryRun: bool)
    requires id in db.files
    ensures var r := ExportEntry(db, output, env, scan, kind, key, id, dryRun);
      var row := MetadataRow(db.images, scan, kind, key);
      var lp := if row.Some? then db.images[row.value].localPath else None;
      && (r.0.files[id].status == Completed <==>
            lp.Some? && lp.value != "" && lp.value in env.present && !dryRun && lp.value !in env.copyErrors)
      && (r.0.files[id].status == Completed ==> r.1 == output + {ExportName(lp.value, kind, key)})
      && (r.0.files[id].status != Completed ==> r.1 == output)
      && (r.2 <==> r.0.files[id].status != Error)
  {
  }

  /** An export changes only its own row and, when it copies, the output directory. */
  lemma ExportEntryFrame(db: SyncDb, output: set<string>, env: Env, scan: seq<nat>, kind: Kind, key: string,
                         id: nat, dryRun: bool)
    ensures var r := ExportEntry(db, output, env, scan, kind, key, id, dryRun);
      && r.0.images == db.images && r.0.files.Keys == db.files.Keys
      && (forall j :: j in db.files && j != id ==> r.0.files[j] == db.files[j])
      && (dryRun ==> r.1 == output && (id in db.files ==> r.0.files[id].status != Completed))
  {
    var st, msg := ExportEntryStatus(db, output, env, scan, kind, key, id, dryRun);
    SetStatusFrame(db, id, st, msg);
  }

  /** Every export sets its own row's status and message, and a dry run completes nothing. */
  lemma ExportEntryStatus(db: SyncDb, output: set<string>, env: Env, scan: seq<nat>, kind: Kind, key: string,
                          id: nat, dryRun: bool) returns (st: FileStatus, msg: Option<string>)
    ensures var r := ExportEntry(db, output, env, scan, kind, key, id, dryRun);
      r.0 == SetStatus(db, id, st, msg) && (dryRun ==> st != Completed && r.1 == output)
  {
    match MetadataRow(db.images, scan, kind, key)
    case None =>
      st, msg := Error, Some("File not found in database");
    case Some(row) =>
      var lp := db.images[row].localPath;
      if lp.None? || lp.value == "" {
        st, msg := Error, Some("No local path");
      } else if lp.value !in env.present {
        st, msg := Error, Some("Source file not found");
      } else if dryRun {
        st, msg := Pending, Some(DryRunMessage);
      } else if lp.value in env.copyErrors {
        st, msg := Error, Some(env.copyErrors[lp.value]);
      } else {
        st, msg := Completed, None;
      }
  }

  /** Setting a status touches that row alone. */
  lemma SetStatusFrame(db: SyncDb, id: nat, st: FileStatus, msg: Option<string>)
    ensures var r := SetStatus(db, id, st, msg);
      && r.images == db.images && r.files.Keys == db.files.Keys
      && (forall j :: j in db.files && j != id ==> r.files[j] == db.files[j])
      && (id in db.files ==> r.files[id].status == st)
  {
  }

  /** The pending entries of list `l`, in the file table's scan order. */
  function PendingOf(files: map<nat, ExportFile>, l: string, scan: seq<nat>): seq<Listed> {
    Filter((x: Listed) => x.status == Pending, ListedOf(files, l, scan))
  }

  /**
   * The loop of `prepare_export`. `bound` says whether `success` has been assigned: an entry
   * with neither prefix before any assignment raises `UnboundLocalError`, which ends the
   * run with false; after one it merely repeats the log line.
   */
  function ExportAll(db: SyncDb, output: set<string>, env: Env, scan: seq<nat>, dryRun: bool,
                     xs: seq<Listed>, bound: bool): (SyncDb, set<string>, bool)
    decreases |xs|
  {
    if |xs| == 0 then (db, output, true)
    else match EntryOf(xs[0].exportPath)
      case None => if bound then ExportAll(db, output, env, scan, dryRun, xs[1..], bound) else (db, output, false)
      case Some((kind, key)) =>
        var r := ExportEntry(db, output, env, scan, kind, key, xs[0].id, dryRun);
        ExportAll(r.0, r.1, env, scan, dryRun, xs[1..], true)
  }

  /** `prepare_export`. */
  function PrepareExport(db: SyncDb, output: set<string>, env: Env, l: string, fileScan: seq<nat>,
                         imageScan: seq<nat>, dryRun: bool): (SyncDb, set<string>, bool)
  {
    ExportAll(db, output, env, imageScan, dryRun, PendingOf(db.files, l, fileScan), false)
  }

  lemma {:induction false} ExportAllBound(db: SyncDb, output: set<string>, env: Env, scan: seq<nat>, dryRun: bool,
                                          xs: seq<Listed>)
    ensures ExportAll(db, output, env, scan, dryRun, xs, true).2
    decreases |xs|
  {
    if |xs| > 0 {
      match EntryOf(xs[0].exportPath)
      case None => ExportAllBound(db, output, env, scan, dryRun, xs[1..]);
      case Some((kind, key)) =>
        var r := ExportEntry(db, output, env, scan, kind, key, xs[0].id, dryRun);
        ExportAllBound(r.0, r.1, env, scan, dryRun, xs[1..]);
    }
  }

  /**
   * `prepare_export` reports success however many exports fail; it fails only when the
   * first pending entry has neither prefix.
   */
  lemma PrepareExportResult(db: SyncDb, output: set<string>, env: Env, l: string, fileScan: seq<nat>,
                            imageScan: seq<nat>, dryRun: bool)
    ensures var xs := PendingOf(db.files, l, fileScan);
      PrepareExport(db, output, env, l, fileScan, imageScan, dryRun).2 <==> (|xs| == 0 || EntryOf(xs[0].exportPath).Some?)
  {
    var xs := PendingOf(db.files, l, fileScan);
    if |xs| > 0 {
      match EntryOf(xs[0].exportPath)
      case None =>
      case Some((kind, key)) =>
        var r := ExportEntry(db, output, env, imageScan, kind, key, xs[0].id, dryRun);
        ExportAllBound(r.0, r.1, env, imageScan, dryRun, xs[1..]);
    }
  }

  /**
   * `prepare_export` as written, where `sync_export_files` has no `error_message` column.
   * Every path of the first pending entry with a prefix ends in `_update_export_status`,
   * whose UPDATE raises; the handler's own update raises again, and the exception leaves the
   * loop. What stays is the copy, when the entry got that far; no status is recorded. A first
   * entry with neither prefix raises `UnboundLocalError`, as in the corrected run.
   */
  function PrepareExportAsWritten(db: SyncDb, output: set<string>, env: Env, l: string, fileScan: seq<nat>,
                                  imageScan: seq<nat>, dryRun: bool): (SyncDb, set<string>, bool)
  {
    var xs := PendingOf(db.files, l, fileScan);
    if |xs| == 0 then (db, output, true)
    else match EntryOf(xs[0].exportPath)
      case None => (db, output, false)
      case Some((kind, key)) => (db, ExportEntry(db, output, env, imageScan, kind, key, xs[0].id, dryRun).1, false)
  }

  /** Each export only adds names to the output directory. */
  lemma {:induction false} ExportAllGrows(db: SyncDb, output: set<string>, env: Env, scan: seq<nat>, dryRun: bool,
                                          xs: seq<Listed>, bound: bool)
    ensures output <= ExportAll(db, output, env, scan, dryRun, xs, bound).1
    decreases |xs|
  {
    if |xs| > 0 {
      match EntryOf(xs[0].exportPath)
      case None => ExportAllGrows(db, output, env, scan, dryRun, xs[1..], bound);
      case Some((kind, key)) =>
        var r := ExportEntry(db, output, env, scan, kind, key, xs[0].id, dryRun);
        ExportAllGrows(r.0, r.1, env, scan, dryRun, xs[1..], true);
    }
  }

  /**
   * As written, a list with a pending entry that has a prefix reports failure and records no
   * status, though at most one file, the first entry's, has been copied; the intended run
   * reports success and copies that file and possibly more.
   */
  lemma AsWrittenExportFails(db: SyncDb, output: set<string>, env: Env, l: string, fileScan: seq<nat>,
                             imageScan: seq<nat>, dryRun: bool)
    requires var xs := PendingOf(db.files, l, fileScan); |xs| > 0 && EntryOf(xs[0].exportPath).Some?
    ensures var r := PrepareExportAsWritten(db, output, env, l, fileScan, imageScan, dryRun);
      var c := PrepareExport(db, output, env, l, fileScan, imageScan, dryRun);
      && r.0 == db && !r.2 && c.2
      && output <= r.1 <= c.1 && |r.1| <= |output| + 1
  {
    var xs := PendingOf(db.files, l, fileScan);
    var e := EntryOf(xs[0].exportPath).value;
    var r := ExportEntry(db, output, env, imageScan, e.0, e.1, xs[0].id, dryRun);
    PrepareExportResult(db, output, env, l, fileScan, imageScan, dryRun);
    ExportAllGrows(r.0, r.1, env, imageScan, dryRun, xs[1..], true);
    assert r.1 == output || r.1 == output + {ExportName(db.images[MetadataRow(db.images, imageScan, e.0, e.1).value].localPath.value, e.0, e.1)};
  }

  /** A dry run copies nothing and completes no entry. */
  lemma {:induction false} DryRunCopiesNothing(db: SyncDb, output: set<string>, env: Env, scan: seq<nat>,
                                               xs: seq<Listed>, bound: bool)
    ensures var r := ExportAll(db, output, env, scan, true, xs, bound);
      && r.1 == output && r.0.files.Keys == db.files.Keys
      && forall j :: j in db.files && r.0.files[j].status == Completed ==> db.files[j] == r.0.files[j]
    decreases |xs|
  {
    if |xs| > 0 {
      match EntryOf(xs[0].exportPath)
      case None => DryRunCopiesNothing(db, output, env, scan, xs[1..], bound);
      case Some((kind, key)) =>
        var r := ExportEntry(db, output, env, scan, kind, key, xs[0].id, true);
        ExportEntryFrame(db, output, env, scan, kind, key, xs[0].id, true);
        DryRunCopiesNothing(r.0, r.1, env, scan, xs[1..], true);
    }
  }

  /** The run touches only the rows of the entries it was given; the images table never changes. */
  lemma {:induction false} ExportAllOthers(db: SyncDb, output: set<string>, env: Env, scan: seq<nat>, dryRun: bool,
                                           xs: seq<Listed>, bound: bool, j: nat)
    requires j in db.files && forall i :: 0 <= i < |xs| ==> xs[i].id != j
    ensures var r := ExportAll(db, output, env, scan, dryRun, xs, bound);
      r.0.images == db.images && r.0.files.Keys == db.files.Keys && r.0.files[j] == db.files[j]
    decreases |xs|
  {
    if |xs| > 0 {
      match EntryOf(xs[0].exportPath)
      case None => ExportAllOthers(db, output, env, scan, dryRun, xs[1..], bound, j);
      case Some((kind, key)) =>
        var r := ExportEntry(db, output, env, scan, kind, key, xs[0].id, dryRun);
        ExportEntryFrame(db, output, env, scan, kind, key, xs[0].id, dryRun);
        ExportAllOthers(r.0, r.1, env, scan, dryRun, xs[1..], true, j);
    }
  }

  /** Only pending entries of the list are ever exported: every other row stays as it was. */
  lemma OnlyPendingExported(db: SyncDb, output: set<string>, env: Env, l: string, fileScan: seq<nat>,
                            imageScan: seq<nat>, dryRun: bool, j: nat)
    requires j in db.files && (db.files[j].listId != l || db.files[j].status != Pending)
    ensures var r := PrepareExport(db, output, env, l, fileScan, imageScan, dryRun);
      r.0.images == db.images && j in r.0.files && r.0.files[j] == db.files[j]
  {
    var xs := PendingOf(db.files, l, fileScan);
    ListedOfRows(db.files, l, fileScan);
    assert forall i :: 0 <= i < |xs| ==> xs[i] in xs;
    ExportAllOthers(db, output, env, imageScan, dryRun, xs, false, j);
  }

  // ---------------------------------------------------------------------------------------
  // The exporter

  /** The database the exporter updates and the names in its output directory. */
  class FileExporter {
    var db: SyncDb
    var output: set<string>

    constructor (db0: SyncDb, output0: set<string>)
      ensures db == db0 && output == output0
    {
      db, output := db0, output0;
    }

    /** `_update_export_status`. */
    method UpdateExportStatus(id: nat, status: FileStatus, message: Option<string>)
      modifies this
      ensures db == SetStatus(old(db), id, status, message) && output == old(output)
    {
      if id in db.files {
        db := db.(files := db.files[id := db.files[id].(status := status, errorMessage := message)]);
      }
    }

    /** `_export_by_hash` and `_export_by_url`. */
    method ExportOne(env: Env, scan: seq<nat>, kind: Kind, key: string, id: nat, dryRun: bool) returns (ok: bool)
      modifies this
      ensures (db, output, ok) == ExportEntry(old(db), old(output), env, scan, kind, key, id, dryRun)
    {
      var row := MetadataRow(db.images, scan, kind, key);
      if row.None? {
        UpdateExportStatus(id, Error, Some("File not found in database"));
        return false;
      }
      var lp := db.images[row.value].localPath;
      if lp.None? || lp.value == "" {
        UpdateExportStatus(id, Error, Some("No local path"));
        return false;
      }
      if lp.value !in env.present {
        UpdateExportStatus(id, Error, Some("Source file not found"));
        return false;
      }
      if dryRun {
        UpdateExportStatus(id, Pending, Some(DryRunMessage));
        return true;
      }
      if lp.value in env.copyErrors {
        UpdateExportStatus(id, Error, Some(env.copyErrors[lp.value]));
        return false;
      }
      output := output + {ExportName(lp.value, kind, key)};
      UpdateExportStatus(id, Completed, None);
      return true;
    }

    /** `prepare_export`. */
    method PrepareExportFiles(env: Env, l: string, fileScan: seq<nat>, imageScan: seq<nat>, dryRun: bool)
      returns (ok: bool)
      modifies this
      ensures (db, output, ok) == PrepareExport(old(db), old(output), env, l, fileScan, imageScan, dryRun)
    {
      var xs := PendingOf(db.files, l, fileScan);
      var bound := false;
      var i := 0;
      while i < |xs|
        invariant 0 <= i <= |xs|
        invariant ExportAll(db, output, env, imageScan, dryRun, xs[i..], bound) ==
          PrepareExport(old(db), old(output), env, l, fileScan, imageScan, dryRun)
      {
        var entry := EntryOf(xs[i].exportPath);
        if entry.None? {
          if !bound {
            return false;
          }
        } else {
          var _ := ExportOne(env, imageScan, entry.value.0, entry.value.1, xs[i].id, dryRun);
          bound := true;
        }
        assert xs[i..][1..] == xs[i + 1..];
        i := i + 1;
      }
      return true;
    }
  }
}
