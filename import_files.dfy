/**
 * The importer: a dry run checks that every entry of an export list has exactly one
 * matching file in the import directory; a real run hands the list to the sync manager and
 * cleans up afterwards; two queries report the list's counts and its failed entries.
 */
module ImportFiles {
  import opened Wrappers
  import opened Text
  import opened SyncManager
  import Seqs

  const DryRunMessage := "Dry run - file would be imported"

  /**
   * `_verify_hash_file` / `_verify_url_file`: no match and several matches are errors; one
   * match sets the entry back to pending with the dry-run message, whatever its status was.
   */
  function VerifyEntry(db: SyncDb, names: set<string>, kind: Kind, key: string, id: nat): (SyncDb, bool) {
    var m := Matches(names, Pattern(kind, key));
    if |m| == 0 then (SetStatus(db, id, Error, Some("File not found")), false)
    else if |m| > 1 then (SetStatus(db, id, Error, Some("Multiple files found")), false)
    else (SetStatus(db, id, Pending, Some(DryRunMessage)), true)
  }

  /** An entry with a known prefix verifies when exactly one name matches its pattern. */
  predicate Verifies(names: set<string>, x: Listed) {
    match EntryOf(x.exportPath)
    case None => true
    case Some((kind, key)) => |Matches(names, Pattern(kind, key))| == 1
  }

  /** The loop of `_verify_import_files`: every entry is checked, and `success` drops on any failure. */
  function VerifyAll(db: SyncDb, names: set<string>, xs: seq<Listed>): (SyncDb, bool) {
    if |xs| == 0 then (db, true)
    else
      var r := VerifyAll(db, names, xs[..|xs| - 1]);
      var x := xs[|xs| - 1];
      match EntryOf(x.exportPath)
      case None => r
      case Some((kind, key)) =>
        var v := VerifyEntry(r.0, names, kind, key, x.id);
        (v.0, r.1 && v.1)
  }

  /** The dry run succeeds exactly when every entry with a known prefix verifies; other prefixes are ignored. */
  lemma {:induction false} VerifyAllIff(db: SyncDb, names: set<string>, xs: seq<Listed>)
    ensures VerifyAll(db, names, xs).1 <==> forall i :: 0 <= i < |xs| ==> Verifies(names, xs[i])
  {
    if |xs| > 0 {
      var init := xs[..|xs| - 1];
      assert forall i :: 0 <= i < |init| ==> init[i] == xs[i];
      VerifyAllIff(db, names, init);
    }
  }

  /** A verified entry ends pending with the dry-run message, a failed one with its error. */
  lemma VerifyEntryStatus(db: SyncDb, names: set<string>, kind: Kind, key: string, id: nat)
    requires id in db.files
    ensures var r := VerifyEntry(db, names, kind, key, id);
      && r.0.files.Keys == db.files.Keys && r.0.images == db.images && r.0.lists == db.lists
      && (r.1 ==> r.0.files[id].status == Pending && r.0.files[id].errorMessage == Some(DryRunMessage))
      && (!r.1 ==> r.0.files[id].status == Error)
      && forall j :: j in db.files && j != id ==> r.0.files[j] == db.files[j]
  {
  }

  /** The verification of a list touches only the file rows of its entries. */
  lemma {:induction false} VerifyAllOthers(db: SyncDb, names: set<string>, xs: seq<Listed>, j: nat)
    requires j in db.files && forall i :: 0 <= i < |xs| ==> xs[i].id != j
    ensures var r := VerifyAll(db, names, xs).0;
      r.files.Keys == db.files.Keys && r.files[j] == db.files[j] && r.images == db.images && r.lists == db.lists
  {
    if |xs| > 0 {
      var init := xs[..|xs| - 1];
      VerifyAllOthers(db, names, init, j);
    }
  }

  /**
   * The loop of `_verify_import_files` as written, where `sync_export_files` has no
   * `error_message` column: entries without a prefix are passed over, and the first entry
   * with one ends in `_update_file_status`, whose UPDATE raises twice (in the check and in
   * its handler), so the loop stops with false and no status recorded.
   */
  function VerifyAllAsWritten(db: SyncDb, xs: seq<Listed>): (SyncDb, bool) {
    if |xs| == 0 then (db, true)
    else if EntryOf(xs[0].exportPath).None? then VerifyAllAsWritten(db, xs[1..])
    else (db, false)
  }

  /**
   * As written, the dry run succeeds only for a list in which no entry has a prefix, and it
   * never records a status.
   */
  lemma {:induction false} AsWrittenVerifyFails(db: SyncDb, xs: seq<Listed>)
    ensures VerifyAllAsWritten(db, xs) == (db, forall i :: 0 <= i < |xs| ==> EntryOf(xs[i].exportPath).None?)
  {
    if |xs| > 0 && EntryOf(xs[0].exportPath).None? {
      AsWrittenVerifyFails(db, xs[1..]);
      assert forall i :: 0 < i < |xs| ==> xs[i] == xs[1..][i - 1];
    }
  }

  /** An entry with a prefix and one matching file verifies when intended, but fails the dry run as written. */
  lemma AsWrittenVerifyRejectsMatch(db: SyncDb, names: set<string>, x: Listed)
    requires EntryOf(x.exportPath).Some? && Verifies(names, x)
    ensures VerifyAll(db, names, [x]).1 && !VerifyAllAsWritten(db, [x]).1
  {
    assert [x][..0] == [];
  }

  /** `import_files`, handing the real run to the sync manager and its clean-up as intended. */
  function Import(db: SyncDb, disk: Disk, dirExists: bool, l: string, dryRun: bool, fileScan: seq<nat>,
                  imageScan: seq<nat>): (SyncDb, Disk, bool)
  {
    if !dirExists then (db, disk, false)
    else if dryRun then
      var v := VerifyAll(db, disk.importDir.Keys, ListedOf(db.files, l, fileScan));
      (v.0, disk, v.1)
    else
      var r := ProcessImported(db, disk, true, l, fileScan, imageScan);
      if r.2 then
        var c := Cleanup(r.0, r.1, l, fileScan);
        (c.0, c.1, true)
      else (r.0, r.1, false)
  }

  /**
   * `import_files` as written: the dry run fails on any entry with a prefix; the real run
   * stops at the first status update (the missing `error_message` column), and when the
   * processing gets through, the clean-up raises for any list with an entry.
   */
  function ImportAsWritten(db: SyncDb, disk: Disk, dirExists: bool, l: string, dryRun: bool, fileScan: seq<nat>,
                           imageScan: seq<nat>): (SyncDb, Disk, bool)
  {
    if !dirExists then (db, disk, false)
    else if dryRun then
      var v := VerifyAllAsWritten(db, ListedOf(db.files, l, fileScan));
      (v.0, disk, v.1)
    else
      var r := ProcessImportedAsWritten(db, disk, true, l, fileScan, imageScan);
      if r.2 then
        var c := CleanupAsWritten(r.0, r.1, l, fileScan);
        (c.0, c.1, c.2)
      else (r.0, r.1, false)
  }

  /**
   * As written, a real import of a list with an entry always reports failure and leaves the
   * tables as they were; the disk is what the failed processing left (at most one file moved).
   */
  lemma AsWrittenImportReportsFailure(db: SyncDb, disk: Disk, l: string, fileScan: seq<nat>, imageScan: seq<nat>, id: nat)
    requires id in fileScan && id in db.files && db.files[id].listId == l
    ensures var r := ImportAsWritten(db, disk, true, l, false, fileScan, imageScan);
      !r.2 && r.0 == db && r.1 == ProcessImportedAsWritten(db, disk, true, l, fileScan, imageScan).1
  {
    var p := ProcessImportedAsWritten(db, disk, true, l, fileScan, imageScan);
    if p.2 {
      assert p.0 == db && p.1 == disk;
      AsWrittenCleanupFails(db, disk, l, fileScan, id);
    }
  }

  /**
   * The clean-up bug on its own: when every entry of a non-empty list is already completed,
   * the processing succeeds without touching anything, and the import as written still
   * reports failure because the clean-up raises, where the intended import succeeds.
   */
  lemma AsWrittenCleanupFailsImport(db: SyncDb, disk: Disk, l: string, fileScan: seq<nat>, imageScan: seq<nat>, id: nat)
    requires id in fileScan && id in db.files && db.files[id].listId == l
    requires forall x :: x in ListedOf(db.files, l, fileScan) ==> x.status == Completed
    ensures ImportAsWritten(db, disk, true, l, false, fileScan, imageScan) == (db, disk, false)
    ensures Import(db, disk, true, l, false, fileScan, imageScan).2
  {
    var xs := ListedOf(db.files, l, fileScan);
    assert Seqs.FirstWhere(Actionable, xs).None?;
    AsWrittenCleanupFails(db, disk, l, fileScan, id);
    ImportResult(db, disk, true, l, false, fileScan, imageScan);
  }

  /** A real import succeeds exactly when the directory exists; a dry run when, besides, every entry verifies. */
  lemma ImportResult(db: SyncDb, disk: Disk, dirExists: bool, l: string, dryRun: bool, fileScan: seq<nat>,
                     imageScan: seq<nat>)
    ensures var r := Import(db, disk, dirExists, l, dryRun, fileScan, imageScan);
      var xs := ListedOf(db.files, l, fileScan);
      && (r.2 <==> dirExists && (dryRun ==> forall i :: 0 <= i < |xs| ==> Verifies(disk.importDir.Keys, xs[i])))
      && (!dirExists ==> r.0 == db && r.1 == disk)
      && (dryRun ==> r.1 == disk)
  {
    if dirExists && dryRun {
      VerifyAllIff(db, disk.importDir.Keys, ListedOf(db.files, l, fileScan));
    } else if dirExists {
      assert ProcessImported(db, disk, true, l, fileScan, imageScan).2;
    }
  }

  // ---------------------------------------------------------------------------------------
  // Reports

  /** The counts of `verify_import`; the two sums are NULL over an empty list. */
  datatype ImportStats = ImportStats(total: nat, completed: Option<nat>, failed: Option<nat>)

  /**
   * `verify_import` as written: `COUNT(*)` with two `SUM(CASE ...)`, which over no rows
   * give 0, NULL and NULL; `fetchone()` always returns that row, so the all-zero fallback
   * never applies.
   */
  function VerifyImportAsWritten(files: map<nat, ExportFile>, l: string): ImportStats {
    var total := |RowsOf(files, l)|;
    if total == 0 then ImportStats(0, None, None)
    else ImportStats(total, Some(|WithStatus(files, l, Completed)|), Some(|WithStatus(files, l, Error)|))
  }

  /** The counts as intended: whole numbers, zero for an empty list. */
  datatype Counts = Counts(total: nat, completed: nat, failed: nat)

  function VerifyImport(files: map<nat, ExportFile>, l: string): (c: Counts) {
    Counts(|RowsOf(files, l)|, |WithStatus(files, l, Completed)|, |WithStatus(files, l, Error)|)
  }

  /** As written, an empty list reports `None` for both sums, which the caller's `> 0` test cannot compare. */
  lemma AsWrittenEmptyListHasNoCounts(files: map<nat, ExportFile>, l: string)
    requires forall id :: id in files ==> files[id].listId != l
    ensures VerifyImportAsWritten(files, l) == ImportStats(0, None, None)
    ensures VerifyImport(files, l) == Counts(0, 0, 0)
  {
    assert RowsOf(files, l) == {};
    assert WithStatus(files, l, Completed) == {};
    assert WithStatus(files, l, Error) == {};
  }

  /** Completed and failed entries are disjoint parts of the list, and agree with the as-written sums when the list has rows. */
  lemma VerifyImportBounds(files: map<nat, ExportFile>, l: string)
    ensures var c := VerifyImport(files, l);
      && c.completed + c.failed <= c.total
      && (c.total > 0 ==> VerifyImportAsWritten(files, l) == ImportStats(c.total, Some(c.completed), Some(c.failed)))
  {
    StatusesBounded(files, l);
  }

  /** `get_failed_imports`: the path and message of each errored entry of the list, in scan order. */
  function FailedOf(files: map<nat, ExportFile>, l: string, scan: seq<nat>): seq<(string, Option<string>)> {
    if |scan| == 0 then []
    else
      var id := scan[|scan| - 1];
      FailedOf(files, l, scan[..|scan| - 1]) +
        (if id in files && files[id].listId == l && files[id].status == Error
         then [(files[id].exportPath, files[id].errorMessage)] else [])
  }

  /** It reports exactly the errored entries the scan visits. */
  lemma {:induction false} FailedOfIff(files: map<nat, ExportFile>, l: string, scan: seq<nat>, p: (string, Option<string>))
    ensures p in FailedOf(files, l, scan) <==> exists i :: (0 <= i < |scan| && scan[i] in files &&
      files[scan[i]].listId == l && files[scan[i]].status == Error &&
      p == (files[scan[i]].exportPath, files[scan[i]].errorMessage))
  {
    if |scan| > 0 {
      var init := scan[..|scan| - 1];
      assert forall i :: 0 <= i < |init| ==> init[i] == scan[i];
      FailedOfIff(files, l, init, p);
    }
  }

  // ---------------------------------------------------------------------------------------
  // The importer

  /** The local database and the disk, as the importer sees them. */
  class FileImporter {
    var db: SyncDb
    var disk: Disk

    constructor (db0: SyncDb, disk0: Disk)
      ensures db == db0 && disk == disk0
    {
      db, disk := db0, disk0;
    }

    /** `_update_file_status`. */
    method UpdateFileStatus(id: nat, status: FileStatus, message: Option<string>)
      modifies this
      ensures db == SetStatus(old(db), id, status, message) && disk == old(disk)
    {
      if id in db.files {
        db := db.(files := db.files[id := db.files[id].(status := status, errorMessage := message)]);
      }
    }

    /** `_verify_hash_file` and `_verify_url_file`. */
    method VerifyFile(kind: Kind, key: string, id: nat) returns (ok: bool)
      modifies this
      ensures (db, ok) == VerifyEntry(old(db), disk.importDir.Keys, kind, key, id) && disk == old(disk)
    {
      var m := Matches(disk.importDir.Keys, Pattern(kind, key));
      if |m| == 0 {
        UpdateFileStatus(id, Error, Some("File not found"));
        return false;
      }
      if |m| > 1 {
        UpdateFileStatus(id, Error, Some("Multiple files found"));
        return false;
      }
      UpdateFileStatus(id, Pending, Some(DryRunMessage));
      return true;
    }

    /** `_verify_import_files`. */
    method VerifyImportFiles(l: string, fileScan: seq<nat>) returns (success: bool)
      modifies this
      ensures (db, success) == VerifyAll(old(db), disk.importDir.Keys, ListedOf(old(db.files), l, fileScan))
      ensures disk == old(disk)
    {
      var xs := ListedOf(db.files, l, fileScan);
      ghost var db0 := db;
      success := true;
      for i := 0 to |xs|
        invariant (db, success) == VerifyAll(db0, disk.importDir.Keys, xs[..i]) && disk == old(disk)
      {
        assert xs[..i + 1][..i] == xs[..i];
        var entry := EntryOf(xs[i].exportPath);
        if entry.Some? {
          var ok := VerifyFile(entry.value.0, entry.value.1, xs[i].id);
          if !ok {
            success := false;
          }
        }
      }
      assert xs[..|xs|] == xs;
    }

    /** `get_failed_imports`. */
    method GetFailedImports(l: string, fileScan: seq<nat>) returns (failed: seq<(string, Option<string>)>)
      ensures failed == FailedOf(db.files, l, fileScan)
    {
      failed := [];
      for i := 0 to |fileScan|
        invariant failed == FailedOf(db.files, l, fileScan[..i])
      {
        assert fileScan[..i + 1][..i] == fileScan[..i];
        var id := fileScan[i];
        if id in db.files && db.files[id].listId == l && db.files[id].status == Error {
          failed := failed + [(db.files[id].exportPath, db.files[id].errorMessage)];
        }
      }
      assert fileScan[..|fileScan|] == fileScan;
    }

    /** `import_files`, with the sync manager's processing and clean-up as intended. */
    method ImportFilesRun(dirExists: bool, l: string, dryRun: bool, fileScan: seq<nat>, imageScan: seq<nat>)
      returns (ok: bool)
      modifies this
      ensures (db, disk, ok) == Import(old(db), old(disk), dirExists, l, dryRun, fileScan, imageScan)
    {
      if !dirExists {
        return false;
      }
      if dryRun {
        ok := VerifyImportFiles(l, fileScan);
        return;
      }
      var manager := new Manager(db, disk);
      ok := manager.ProcessImportedFiles(true, l, fileScan, imageScan);
      if ok {
        manager.CleanupSyncFiles(l, fileScan);
      }
      db, disk := manager.db, manager.disk;
    }
  }
}
