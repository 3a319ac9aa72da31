/**
 * The file synchronisation manager: it compares a remote archive database with the local
 * one, records an export list of the files the local side lacks, and processes the files
 * that arrive in an import directory, moving each into the library and recording its
 * status.
 */
module SyncManager {
  import opened Wrappers
  import opened Text
  import opened Seqs

  /** A row of the local `images` table, as far as synchronisation reads and writes it. */
  datatype LocalImage = LocalImage(sha256: Option<string>, url: Option<string>, pageUrl: Option<string>,
                                   author: Option<string>, license: Option<string>, localPath: Option<string>)

  /** A row of the remote `images` table. */
  datatype RemoteImage = RemoteImage(sha256: Option<string>, url: Option<string>, pageUrl: Option<string>)

  /** The `status` column of `sync_export_files`. */
  datatype FileStatus = Pending | Completed | Error

  /** A `sync_export_files` row; `image_id` is always NULL and is left out. */
  datatype ExportFile = ExportFile(listId: string, exportPath: string, status: FileStatus,
                                   errorMessage: Option<string>)

  /** A `sync_export_lists` row without its key, `list_id`. */
  datatype ExportList = ExportList(createdTime: string, totalFiles: nat, processedFiles: nat, status: string)

  /**
   * The tables: local images by id, export lists by `list_id`, export files by id, and the
   * next id `AUTOINCREMENT` hands out.
   */
  datatype SyncDb = SyncDb(images: map<nat, LocalImage>, lists: map<string, ExportList>,
                           files: map<nat, ExportFile>, nextFileId: nat)

  /**
   * The import directory (file name to the SHA-256 hex digest of its content), the paths
   * of the files moved into the library, and the names in the `temp_sync` directory.
   */
  datatype Disk = Disk(importDir: map<string, string>, library: set<string>, temp: set<string>)

  // ---------------------------------------------------------------------------------------
  // Analysis of a remote database

  /** The hashes of the local rows the query with `sha256_hash IS NOT NULL` returns. */
  function LocalHashes(images: map<nat, LocalImage>): set<string> {
    set id | id in images && images[id].sha256.Some? :: images[id].sha256.value
  }

  /** The urls of the same rows. */
  function LocalUrls(images: map<nat, LocalImage>): set<Option<string>> {
    set id | id in images && images[id].sha256.Some? :: images[id].url
  }

  /** The page urls of the same rows. */
  function LocalPageUrls(images: map<nat, LocalImage>): set<Option<string>> {
    set id | id in images && images[id].sha256.Some? :: images[id].pageUrl
  }

  /**
   * The comparison loop over the remote rows with a hash: a hash missing from `hashes` is
   * missing; a url is missing when neither it is in `urls` nor its page url in `pages`.
   */
  function Compare(hashes: set<string>, urls: set<Option<string>>, pages: set<Option<string>>,
                   rows: seq<RemoteImage>): (set<string>, set<Option<string>>)
  {
    if |rows| == 0 then ({}, {})
    else
      var acc := Compare(hashes, urls, pages, rows[..|rows| - 1]);
      var row := rows[|rows| - 1];
      if row.sha256.None? then acc
      else (acc.0 + (if row.sha256.value !in hashes then {row.sha256.value} else {}),
            acc.1 + (if row.url !in urls && row.pageUrl !in pages then {row.url} else {}))
  }

  /** What the comparison reports, both ways. */
  lemma {:induction false} CompareIff(hashes: set<string>, urls: set<Option<string>>,
                                      pages: set<Option<string>>, rows: seq<RemoteImage>,
                                      h: string, u: Option<string>)
    ensures var r := Compare(hashes, urls, pages, rows);
      && (h in r.0 <==> h !in hashes && exists i :: 0 <= i < |rows| && rows[i].sha256 == Some(h))
      && (u in r.1 <==> (u !in urls &&
            exists i :: 0 <= i < |rows| && rows[i].sha256.Some? && rows[i].url == u && rows[i].pageUrl !in pages))
  {
    if |rows| > 0 {
      var init := rows[..|rows| - 1];
      assert forall i :: 0 <= i < |init| ==> init[i] == rows[i];
      CompareIff(hashes, urls, pages, init, h, u);
    }
  }

  /**
   * `analyze_remote_db` as written: the url sets come from `fetchall()` calls on a cursor
   * the first call already exhausted, so they are empty. An unreadable remote database is
   * logged and yields two empty sets.
   */
  function AnalyzeAsWritten(remote: Option<seq<RemoteImage>>, images: map<nat, LocalImage>)
    : (set<string>, set<Option<string>>)
  {
    match remote
    case None => ({}, {})
    case Some(rows) => Compare(LocalHashes(images), {}, {}, rows)
  }

  /** `analyze_remote_db` with the local urls and page urls read as intended. */
  function Analyze(remote: Option<seq<RemoteImage>>, images: map<nat, LocalImage>)
    : (set<string>, set<Option<string>>)
  {
    match remote
    case None => ({}, {})
    case Some(rows) => Compare(LocalHashes(images), LocalUrls(images), LocalPageUrls(images), rows)
  }

  /** The missing hashes are exactly the remote hashes the local database lacks. */
  lemma MissingHashes(rows: seq<RemoteImage>, images: map<nat, LocalImage>, h: string)
    ensures h in Analyze(Some(rows), images).0 <==>
      h !in LocalHashes(images) && exists i :: 0 <= i < |rows| && rows[i].sha256 == Some(h)
    ensures AnalyzeAsWritten(Some(rows), images).0 == Analyze(Some(rows), images).0
  {
    CompareIff(LocalHashes(images), LocalUrls(images), LocalPageUrls(images), rows, h, None);
    forall x ensures x in AnalyzeAsWritten(Some(rows), images).0 <==> x in Analyze(Some(rows), images).0 {
      CompareIff(LocalHashes(images), {}, {}, rows, x, None);
      CompareIff(LocalHashes(images), LocalUrls(images), LocalPageUrls(images), rows, x, None);
    }
  }

  /** As written, every url of a remote row with a hash is reported missing. */
  lemma AsWrittenAllUrlsMissing(rows: seq<RemoteImage>, images: map<nat, LocalImage>, u: Option<string>)
    ensures u in AnalyzeAsWritten(Some(rows), images).1 <==>
      exists i :: 0 <= i < |rows| && rows[i].sha256.Some? && rows[i].url == u
  {
    CompareIff(LocalHashes(images), {}, {}, rows, "", u);
  }

  /** As intended, a url is missing when the local database has neither it nor its page url. */
  lemma MissingUrls(rows: seq<RemoteImage>, images: map<nat, LocalImage>, u: Option<string>)
    ensures u in Analyze(Some(rows), images).1 <==> (u !in LocalUrls(images) &&
      exists i :: 0 <= i < |rows| && rows[i].sha256.Some? && rows[i].url == u &&
        rows[i].pageUrl !in LocalPageUrls(images))
  {
    CompareIff(LocalHashes(images), LocalUrls(images), LocalPageUrls(images), rows, "", u);
  }

  /** Both databases hold the same image, yet as written its url is reported missing. */
  lemma AsWrittenReportsKnownUrl()
    ensures var images := map[0 := LocalImage(Some("h"), Some("u"), Some("p"), None, None, None)];
      var rows := [RemoteImage(Some("h"), Some("u"), Some("p"))];
      && AnalyzeAsWritten(Some(rows), images).1 == {Some("u")}
      && Analyze(Some(rows), images).1 == {}
  {
    var images := map[0 := LocalImage(Some("h"), Some("u"), Some("p"), None, None, None)];
    var rows := [RemoteImage(Some("h"), Some("u"), Some("p"))];
    assert images[0].sha256.Some?;
    assert "h" in LocalHashes(images) && Some("u") in LocalUrls(images) && Some("p") in LocalPageUrls(images);
    assert rows[..0] == [];
  }

  // ---------------------------------------------------------------------------------------
  // Export paths

  /** How the f-string `f"{u}"` renders a url that may be NULL. */
  function Show(u: Option<string>): string {
    match u
    case Some(s) => s
    case None => "None"
  }

  function HashPath(h: string): string {
    "hash_" + h
  }

  function UrlPath(u: Option<string>): string {
    "url_" + Show(u)
  }

  /** The two kinds of export entry. */
  datatype Kind = ByHash | ByUrl

  /** How `process_imported_files` reads an export path: by its prefix, the rest being the key. */
  function EntryOf(path: string): Option<(Kind, string)> {
    if "hash_" <= path then Some((ByHash, path[5..]))
    else if "url_" <= path then Some((ByUrl, path[4..]))
    else None
  }

  /** Export paths decode to what was encoded, and the two prefixes never overlap. */
  lemma ExportPathRoundTrip(h: string, u: Option<string>, p: string)
    ensures EntryOf(HashPath(h)) == Some((ByHash, h))
    ensures EntryOf(UrlPath(u)) == Some((ByUrl, Show(u)))
    ensures !("hash_" <= p && "url_" <= p)
  {
    assert HashPath(h)[5..] == h;
    assert UrlPath(u)[0] == 'u';
    assert UrlPath(u)[4..] == Show(u);
    if "hash_" <= p {
      assert p[0] == 'h';
    }
  }

  // ---------------------------------------------------------------------------------------
  // Import processing

  /** The text of the `TypeError` that `Path("images") / None` raises. */
  const NoneAuthorError := "unsupported operand type(s) for /: 'PosixPath' and 'NoneType'"

  /** The glob's `*_<key>.*` as the text a matching name must contain; url slashes become `_`. */
  function Pattern(kind: Kind, key: string): string {
    "_" + (if kind == ByHash then key else ReplaceChars(key, {'/'}, '_')) + "."
  }

  /** The names in the import directory the glob matches. */
  function Matches(dir: set<string>, pattern: string): set<string> {
    set n | n in dir && Contains(n, pattern)
  }

  /** The local row the `SELECT * ... WHERE sha256_hash = ?` (or `url = ?`) query describes. */
  predicate Describes(kind: Kind, key: string, row: LocalImage) {
    if kind == ByHash then row.sha256 == Some(key) else row.url == Some(key)
  }

  /** `fetchone()`: the first described row in the table's scan order. */
  function MetadataRow(images: map<nat, LocalImage>, scan: seq<nat>, kind: Kind, key: string): (r: Option<nat>)
    ensures r.Some? ==> r.value in images && Describes(kind, key, images[r.value])
    ensures r.None? ==> forall i :: 0 <= i < |scan| && scan[i] in images ==> !Describes(kind, key, images[scan[i]])
  {
    match FirstWhere((id: nat) => id in images && Describes(kind, key, images[id]), scan)
    case None => None
    case Some(i) => Some(scan[i])
  }

  /** The one element of a singleton. */
  function Only(s: set<string>): (x: string)
    requires |s| == 1
    ensures s == {x}
  {
    var x :| x in s;
    assert |s - {x}| == 0;
    assert s == {x};
    x
  }

  /** How one entry ends: with an error message, or moved from `name` to `target`. */
  datatype Verdict = Failed(message: string) | Moved(name: string, target: string)

  /**
   * The column that names the target folder: the author, as the code's comment intends, or
   * `metadata[6]` of `SELECT *`, which in the `images` table's column order is the licence.
   */
  datatype Column = AuthorColumn | SixthColumn

  function Cell(row: LocalImage, col: Column): Option<string> {
    if col == AuthorColumn then row.author else row.license
  }

  /**
   * `_process_hash_file` / `_process_url_file`, checked in this order: no match, several
   * matches, (by hash) the digest differs from the name's hash, no local metadata row, a
   * NULL folder name (the raising path join); otherwise the file goes to
   * `images/<folder>/<name>`.
   */
  function Judge(db: SyncDb, disk: Disk, scan: seq<nat>, kind: Kind, key: string, col: Column): Verdict {
    var m := Matches(disk.importDir.Keys, Pattern(kind, key));
    if |m| == 0 then Failed("File not found")
    else if |m| > 1 then Failed("Multiple files found")
    else
      var name := Only(m);
      if kind == ByHash && disk.importDir[name] != key then Failed("Hash mismatch")
      else match MetadataRow(db.images, scan, kind, key)
        case None => Failed("No metadata found")
        case Some(id) =>
          match Cell(db.images[id], col)
          case None => Failed(NoneAuthorError)
          case Some(a) => Moved(name, "images/" + a + "/" + name)
  }

  /** An entry is moved exactly when one file matches, its digest fits, and a row with an author describes it. */
  lemma JudgeMoves(db: SyncDb, disk: Disk, scan: seq<nat>, kind: Kind, key: string)
    ensures Judge(db, disk, scan, kind, key, AuthorColumn).Moved? <==>
      var m := Matches(disk.importDir.Keys, Pattern(kind, key));
      && |m| == 1
      && (kind == ByHash ==> disk.importDir[Only(m)] == key)
      && MetadataRow(db.images, scan, kind, key).Some?
      && db.images[MetadataRow(db.images, scan, kind, key).value].author.Some?
    ensures var v := Judge(db, disk, scan, kind, key, AuthorColumn);
      v.Moved? ==> (v.name in disk.importDir && Contains(v.name, Pattern(kind, key)) &&
        v.target == "images/" + db.images[MetadataRow(db.images, scan, kind, key).value].author.value + "/" + v.name)
  {
  }

  /**
   * As written, a file whose row has an author goes to the folder named after the row's
   * licence instead, and a row without a licence fails with the path join's `TypeError`.
   */
  lemma SixthColumnIsLicense(db: SyncDb, disk: Disk, scan: seq<nat>, kind: Kind, key: string, name: string, a: string)
    requires Judge(db, disk, scan, kind, key, AuthorColumn) == Moved(name, "images/" + a + "/" + name)
    ensures var row := db.images[MetadataRow(db.images, scan, kind, key).value];
      Judge(db, disk, scan, kind, key, SixthColumn) ==
        match row.license
        case None => Failed(NoneAuthorError)
        case Some(c) => Moved(name, "images/" + c + "/" + name)
  {
  }

  /** An `UPDATE sync_export_files SET status = ?, error_message = ? WHERE id = ?`. */
  function SetStatus(db: SyncDb, id: nat, status: FileStatus, message: Option<string>): SyncDb {
    if id in db.files then db.(files := db.files[id := db.files[id].(status := status, errorMessage := message)])
    else db
  }

  /** The rows of list `l`, and those among them with status `st`. */
  function RowsOf(files: map<nat, ExportFile>, l: string): set<nat> {
    set id | id in files && files[id].listId == l
  }

  function WithStatus(files: map<nat, ExportFile>, l: string, st: FileStatus): set<nat> {
    set id | id in files && files[id].listId == l && files[id].status == st
  }

  /**
   * `_update_file_status`: sets the file's status and error message, then recounts the
   * completed files of its list into `processed_files`. An unknown id changes nothing.
   */
  function UpdateStatus(db: SyncDb, id: nat, status: FileStatus, message: Option<string>): SyncDb {
    if id !in db.files then db
    else
      var files := db.files[id := db.files[id].(status := status, errorMessage := message)];
      var l := db.files[id].listId;
      db.(files := files,
          lists := if l in db.lists then db.lists[l := db.lists[l].(processedFiles := |WithStatus(files, l, Completed)|)]
                   else db.lists)
  }

  /** A subset is no larger. */
  lemma CardSubset(a: set<nat>, b: set<nat>)
    requires a <= b
    ensures |a| <= |b|
  {
    assert b == a + (b - a);
  }

  /** Completed and failed rows are disjoint parts of the list. */
  lemma StatusesBounded(files: map<nat, ExportFile>, l: string)
    ensures |WithStatus(files, l, Completed)| + |WithStatus(files, l, Error)| <= |RowsOf(files, l)|
  {
    var done, failed := WithStatus(files, l, Completed), WithStatus(files, l, Error);
    assert done !! failed;
    CardSubset(done + failed, RowsOf(files, l));
  }

  /** Every list's `processed_files` is the number of its completed files. */
  predicate Counted(db: SyncDb) {
    forall l :: l in db.lists ==> db.lists[l].processedFiles == |WithStatus(db.files, l, Completed)|
  }

  /** A status update keeps every list counted and changes no other file. */
  lemma UpdateStatusCounted(db: SyncDb, id: nat, status: FileStatus, message: Option<string>)
    requires Counted(db)
    ensures var r := UpdateStatus(db, id, status, message);
      && Counted(r)
      && r.files.Keys == db.files.Keys && r.images == db.images && r.lists.Keys == db.lists.Keys
      && (forall j :: j in db.files && j != id ==> r.files[j] == db.files[j])
      && (id in db.files ==> r.files[id] == db.files[id].(status := status, errorMessage := message))
  {
    if id in db.files {
      var r := UpdateStatus(db, id, status, message);
      var l0 := db.files[id].listId;
      forall l | l in r.lists && l != l0 ensures r.lists[l].processedFiles == |WithStatus(r.files, l, Completed)| {
        assert WithStatus(r.files, l, Completed) == WithStatus(db.files, l, Completed);
      }
    }
  }

  /** Every row a key describes gets the new `local_path`; no other row changes. */
  function SetPath(images: map<nat, LocalImage>, kind: Kind, key: string, target: string): (r: map<nat, LocalImage>)
    ensures r.Keys == images.Keys
  {
    map id | id in images :: if Describes(kind, key, images[id]) then images[id].(localPath := Some(target)) else images[id]
  }

  /** One entry: judge it, move the file and the rows' paths when it is moved, and record the status. */
  function ProcessEntry(db: SyncDb, disk: Disk, scan: seq<nat>, kind: Kind, key: string, id: nat): (SyncDb, Disk) {
    match Judge(db, disk, scan, kind, key, AuthorColumn)
    case Failed(msg) => (UpdateStatus(db, id, Error, Some(msg)), disk)
    case Moved(name, target) =>
      (UpdateStatus(db.(images := SetPath(db.images, kind, key, target)), id, Completed, None),
       disk.(importDir := disk.importDir - {name}, library := disk.library + {target}))
  }

  /** A listed entry of the export list: its id, path and status when the list was read. */
  datatype Listed = Listed(id: nat, exportPath: string, status: FileStatus)

  /** The list's entries in the table's scan order `scan`. */
  function ListedOf(files: map<nat, ExportFile>, l: string, scan: seq<nat>): seq<Listed> {
    if |scan| == 0 then []
    else
      var id := scan[|scan| - 1];
      ListedOf(files, l, scan[..|scan| - 1]) +
        (if id in files && files[id].listId == l then [Listed(id, files[id].exportPath, files[id].status)] else [])
  }

  /** The loop of `process_imported_files`: completed entries and unknown prefixes are skipped. */
  function ProcessAll(db: SyncDb, disk: Disk, scan: seq<nat>, xs: seq<Listed>): (SyncDb, Disk) {
    if |xs| == 0 then (db, disk)
    else
      var r := ProcessAll(db, disk, scan, xs[..|xs| - 1]);
      var x := xs[|xs| - 1];
      if x.status == Completed then r
      else match EntryOf(x.exportPath)
        case None => r
        case Some((kind, key)) => ProcessEntry(r.0, r.1, scan, kind, key, x.id)
  }

  /** `process_imported_files`: false without the import directory, otherwise the loop and true. */
  function ProcessImported(db: SyncDb, disk: Disk, dirExists: bool, l: string, fileScan: seq<nat>,
                           imageScan: seq<nat>): (SyncDb, Disk, bool)
  {
    if !dirExists then (db, disk, false)
    else
      var r := ProcessAll(db, disk, imageScan, ListedOf(db.files, l, fileScan));
      (r.0, r.1, true)
  }

  /** An entry the loop acts on: not completed, and with a known prefix. */
  predicate Actionable(x: Listed) {
    x.status != Completed && EntryOf(x.exportPath).Some?
  }

  /** The filesystem after a verdict: a moved file leaves the import directory for its target. */
  function MoveOf(disk: Disk, v: Verdict): Disk {
    match v
    case Failed(_) => disk
    case Moved(name, target) => disk.(importDir := disk.importDir - {name}, library := disk.library + {target})
  }

  /**
   * `process_imported_files` as written, on the tables its own DDL creates, where
   * `sync_export_files` has no `error_message` column. The first actionable entry is judged
   * with `metadata[6]`, the licence, as the folder; its file is moved when the verdict says
   * so, and then the first status update raises. The exception escapes both handlers and
   * the rollback restores the tables; only that file move stays done.
   */
  function ProcessImportedAsWritten(db: SyncDb, disk: Disk, dirExists: bool, l: string, fileScan: seq<nat>,
                                    imageScan: seq<nat>): (SyncDb, Disk, bool)
  {
    var xs := ListedOf(db.files, l, fileScan);
    if !dirExists then (db, disk, false)
    else match FirstWhere(Actionable, xs)
      case None => (db, disk, true)
      case Some(i) =>
        var e := EntryOf(xs[i].exportPath).value;
        (db, MoveOf(disk, Judge(db, disk, imageScan, e.0, e.1, SixthColumn)), false)
  }

  /**
   * As written, any run with an entry left to do fails and records nothing, even when it
   * has moved that entry's file out of the import directory.
   */
  lemma AsWrittenImportRollsBack(db: SyncDb, disk: Disk, l: string, fileScan: seq<nat>, imageScan: seq<nat>, k: nat)
    requires k < |ListedOf(db.files, l, fileScan)| && Actionable(ListedOf(db.files, l, fileScan)[k])
    ensures var r := ProcessImportedAsWritten(db, disk, true, l, fileScan, imageScan);
      && !r.2 && r.0 == db
      && (r.1 == disk || exists name, target :: r.1 == disk.(importDir := disk.importDir - {name}, library := disk.library + {target}))
  {
  }

  /**
   * As written, when the first entry left to do is described by a row without a licence,
   * the path join raises before the rename: the run fails and nothing moves.
   */
  lemma AsWrittenNullLicenseMovesNothing(db: SyncDb, disk: Disk, l: string, fileScan: seq<nat>, imageScan: seq<nat>, i: nat)
    requires i < |ListedOf(db.files, l, fileScan)| && FirstWhere(Actionable, ListedOf(db.files, l, fileScan)) == Some(i)
    requires var e := EntryOf(ListedOf(db.files, l, fileScan)[i].exportPath).value;
      var row := MetadataRow(db.images, imageScan, e.0, e.1);
      row.Some? && db.images[row.value].license.None?
    ensures ProcessImportedAsWritten(db, disk, true, l, fileScan, imageScan) == (db, disk, false)
  {
  }

  /** With the column present, one entry records its outcome: completed with no message, or its error message. */
  lemma ProcessEntryRecords(db: SyncDb, disk: Disk, scan: seq<nat>, kind: Kind, key: string, id: nat)
    requires id in db.files
    ensures var r := ProcessEntry(db, disk, scan, kind, key, id);
      var v := Judge(db, disk, scan, kind, key, AuthorColumn);
      && id in r.0.files
      && (v.Moved? <==> r.0.files[id].status == Completed)
      && (v.Failed? ==> r.0.files[id].errorMessage == Some(v.message) && r.0.images == db.images && r.1 == disk)
      && (v.Moved? ==> (r.0.files[id].errorMessage.None? &&
            r.0.images == SetPath(db.images, kind, key, v.target) &&
            r.1 == disk.(importDir := disk.importDir - {v.name}, library := disk.library + {v.target})))
  {
  }

  /** An entry processing keeps every list counted and touches only its own file row. */
  lemma ProcessEntryCounted(db: SyncDb, disk: Disk, scan: seq<nat>, kind: Kind, key: string, id: nat)
    requires Counted(db)
    ensures var r := ProcessEntry(db, disk, scan, kind, key, id).0;
      && Counted(r) && r.files.Keys == db.files.Keys && r.images.Keys == db.images.Keys
      && forall j :: j in db.files && j != id ==> r.files[j] == db.files[j]
  {
    match Judge(db, disk, scan, kind, key, AuthorColumn)
    case Failed(msg) => UpdateStatusCounted(db, id, Error, Some(msg));
    case Moved(name, target) =>
      UpdateStatusCounted(db.(images := SetPath(db.images, kind, key, target)), id, Completed, None);
  }

  /**
   * The loop keeps every list counted, and a file row that was completed, or belongs to no
   * listed entry, stays as it was.
   */
  lemma {:induction false} ProcessAllKeeps(db: SyncDb, disk: Disk, scan: seq<nat>, xs: seq<Listed>, j: nat)
    requires Counted(db)
    ensures var r := ProcessAll(db, disk, scan, xs).0;
      && Counted(r) && r.files.Keys == db.files.Keys
      && (j in db.files && (forall i :: 0 <= i < |xs| ==> xs[i].id != j || xs[i].status == Completed)
          ==> r.files[j] == db.files[j])
  {
    if |xs| > 0 {
      var init := xs[..|xs| - 1];
      var x := xs[|xs| - 1];
      assert forall i :: 0 <= i < |init| ==> init[i] == xs[i];
      ProcessAllKeeps(db, disk, scan, init, j);
      var r := ProcessAll(db, disk, scan, init);
      if x.status != Completed && EntryOf(x.exportPath).Some? {
        ProcessEntryCounted(r.0, r.1, scan, EntryOf(x.exportPath).value.0, EntryOf(x.exportPath).value.1, x.id);
      }
    }
  }

  /** The loop keeps every file row, and the list it belongs to. */
  lemma {:induction false} ProcessAllListIds(db: SyncDb, disk: Disk, scan: seq<nat>, xs: seq<Listed>, j: nat)
    requires j in db.files
    ensures var r := ProcessAll(db, disk, scan, xs).0;
      j in r.files && r.files[j].listId == db.files[j].listId
  {
    if |xs| > 0 {
      var init := xs[..|xs| - 1];
      var x := xs[|xs| - 1];
      ProcessAllListIds(db, disk, scan, init, j);
      var r := ProcessAll(db, disk, scan, init);
      if x.status != Completed && EntryOf(x.exportPath).Some? {
        var (kind, key) := EntryOf(x.exportPath).value;
        assert ProcessAll(db, disk, scan, xs) == ProcessEntry(r.0, r.1, scan, kind, key, x.id);
        ProcessEntryListId(r.0, r.1, scan, kind, key, x.id, j);
      } else {
        assert ProcessAll(db, disk, scan, xs) == r;
      }
    }
  }

  /** Processing one entry keeps every file row and its list. */
  lemma ProcessEntryListId(db: SyncDb, disk: Disk, scan: seq<nat>, kind: Kind, key: string, id: nat, j: nat)
    requires j in db.files
    ensures var r := ProcessEntry(db, disk, scan, kind, key, id).0;
      j in r.files && r.files[j].listId == db.files[j].listId
  {
    match Judge(db, disk, scan, kind, key, AuthorColumn)
    case Failed(msg) =>
      UpdateStatusListId(db, id, Error, Some(msg), j);
    case Moved(name, target) =>
      UpdateStatusListId(db.(images := SetPath(db.images, kind, key, target)), id, Completed, None, j);
  }

  /** A status update keeps every file row and its list. */
  lemma UpdateStatusListId(db: SyncDb, id: nat, st: FileStatus, msg: Option<string>, j: nat)
    requires j in db.files
    ensures var r := UpdateStatus(db, id, st, msg);
      j in r.files && r.files[j].listId == db.files[j].listId
  {
  }

  /** The listed entries are the list's rows, with their statuses when read. */
  lemma {:induction false} ListedOfRows(files: map<nat, ExportFile>, l: string, scan: seq<nat>)
    ensures forall x :: x in ListedOf(files, l, scan) ==>
      x.id in files && files[x.id].listId == l && x.status == files[x.id].status && x.exportPath == files[x.id].exportPath
  {
    if |scan| > 0 {
      ListedOfRows(files, l, scan[..|scan| - 1]);
    }
  }

  /**
   * Entries already completed are never redone, files of other lists are untouched, and
   * the list counts stay right.
   */
  lemma ProcessImportedKeeps(db: SyncDb, disk: Disk, dirExists: bool, l: string, fileScan: seq<nat>,
                             imageScan: seq<nat>, j: nat)
    requires Counted(db)
    requires j in db.files && (db.files[j].status == Completed || db.files[j].listId != l)
    ensures var r := ProcessImported(db, disk, dirExists, l, fileScan, imageScan).0;
      Counted(r) && j in r.files && r.files[j] == db.files[j]
  {
    var xs := ListedOf(db.files, l, fileScan);
    ListedOfRows(db.files, l, fileScan);
    assert forall i :: 0 <= i < |xs| ==> xs[i] in xs;
    ProcessAllKeeps(db, disk, imageScan, xs, j);
  }

  /**
   * A hash the analysis reports missing has, by construction, no local row; so while the
   * local table stays as analysed, importing that file always ends with 'No metadata found'
   * once a single file with the right digest is present.
   */
  lemma AnalysedHashHasNoMetadata(rows: seq<RemoteImage>, db: SyncDb, disk: Disk, scan: seq<nat>, h: string)
    requires h in Analyze(Some(rows), db.images).0
    requires |Matches(disk.importDir.Keys, Pattern(ByHash, h))| == 1
    requires disk.importDir[Only(Matches(disk.importDir.Keys, Pattern(ByHash, h)))] == h
    ensures Judge(db, disk, scan, ByHash, h, AuthorColumn) == Failed("No metadata found")
  {
    MissingHashes(rows, db.images, h);
  }

  // ---------------------------------------------------------------------------------------
  // Clean-up

  /** A temporary file name survives entry `x` when the entry's pattern does not match it. */
  predicate Spared(n: string, x: Listed) {
    match EntryOf(x.exportPath)
    case None => true
    case Some((kind, key)) => !Contains(n, Pattern(kind, key))
  }

  /** The `temp_sync` names left after unlinking every glob match of the entries `xs`. */
  function Sweep(temp: set<string>, xs: seq<Listed>): set<string> {
    if |xs| == 0 then temp
    else
      var rest := Sweep(temp, xs[..|xs| - 1]);
      match EntryOf(xs[|xs| - 1].exportPath)
      case None => rest
      case Some((kind, key)) => rest - Matches(rest, Pattern(kind, key))
  }

  /** Exactly the names no entry's pattern matches survive. */
  lemma {:induction false} SweepIff(temp: set<string>, xs: seq<Listed>, n: string)
    ensures n in Sweep(temp, xs) <==> n in temp && forall i :: 0 <= i < |xs| ==> Spared(n, xs[i])
  {
    if |xs| > 0 {
      var init := xs[..|xs| - 1];
      assert forall i :: 0 <= i < |init| ==> init[i] == xs[i];
      SweepIff(temp, init, n);
    }
  }

  /** The `UPDATE sync_export_lists SET status = 'completed'` of a list. */
  function MarkCompleted(db: SyncDb, l: string): SyncDb {
    if l in db.lists then db.(lists := db.lists[l := db.lists[l].(status := "completed")]) else db
  }

  /**
   * `cleanup_sync_files` as intended: each entry's export path is matched against
   * `temp_sync`, the matches are unlinked, and the list is marked completed.
   */
  function Cleanup(db: SyncDb, disk: Disk, l: string, scan: seq<nat>): (SyncDb, Disk) {
    (MarkCompleted(db, l), disk.(temp := Sweep(disk.temp, ListedOf(db.files, l, scan))))
  }

  /**
   * `cleanup_sync_files` as written: it iterates the fetched row tuples and calls
   * `startswith` on a tuple, which raises `AttributeError` for the first row; the handler
   * rolls back and re-raises. Only a list without entries gets marked completed.
   */
  function CleanupAsWritten(db: SyncDb, disk: Disk, l: string, scan: seq<nat>): (SyncDb, Disk, bool) {
    if |ListedOf(db.files, l, scan)| > 0 then (db, disk, false) else (MarkCompleted(db, l), disk, true)
  }

  /** As written, the clean-up of any list with an entry fails and changes nothing. */
  lemma AsWrittenCleanupFails(db: SyncDb, disk: Disk, l: string, scan: seq<nat>, id: nat)
    requires id in scan && id in db.files && db.files[id].listId == l
    ensures CleanupAsWritten(db, disk, l, scan) == (db, disk, false)
  {
    ListedOfHas(db.files, l, scan, id);
  }

  /** A row of the list that the scan visits is listed. */
  lemma {:induction false} ListedOfHas(files: map<nat, ExportFile>, l: string, scan: seq<nat>, id: nat)
    requires id in scan && id in files && files[id].listId == l
    ensures exists x :: x in ListedOf(files, l, scan) && x.id == id
  {
    if scan[|scan| - 1] == id {
      assert ListedOf(files, l, scan)[|ListedOf(files, l, scan)| - 1].id == id;
    } else {
      assert id in scan[..|scan| - 1];
      ListedOfHas(files, l, scan[..|scan| - 1], id);
    }
  }

  /**
   * The clean-up as intended leaves no temporary file that an entry of the list matches,
   * keeps every other one, and marks the list completed.
   */
  lemma CleanupSweeps(db: SyncDb, disk: Disk, l: string, scan: seq<nat>, n: string)
    ensures var r := Cleanup(db, disk, l, scan);
      && (n in r.1.temp <==> n in disk.temp && forall x :: x in ListedOf(db.files, l, scan) ==> Spared(n, x))
      && (l in db.lists ==> l in r.0.lists && r.0.lists[l].status == "completed")
      && r.0.files == db.files && r.0.images == db.images
      && r.1.importDir == disk.importDir && r.1.library == disk.library
  {
    var xs := ListedOf(db.files, l, scan);
    SweepIff(disk.temp, xs, n);
    assert forall x :: x in xs ==> exists i :: 0 <= i < |xs| && xs[i] == x;
  }

  // ---------------------------------------------------------------------------------------
  // The manager

  /** The paths of the file rows with an id of at least `from`. */
  function PathsFrom(files: map<nat, ExportFile>, from: nat): set<string> {
    set id | id in files && id >= from :: files[id].exportPath
  }

  /** A row added at a new id at least `from` adds its path. */
  lemma PathsFromAdd(files: map<nat, ExportFile>, from: nat, id: nat, e: ExportFile)
    requires id !in files && id >= from
    ensures PathsFrom(files[id := e], from) == PathsFrom(files, from) + {e.exportPath}
  {
    var r := files[id := e];
    forall p | p in PathsFrom(files, from) ensures p in PathsFrom(r, from) {
      var j :| j in files && j >= from && files[j].exportPath == p;
      assert r[j] == files[j];
    }
    assert r[id].exportPath == e.exportPath;
  }

  /** The image of a set under `f`. */
  function Image<K>(keys: set<K>, f: K -> string): set<string> {
    set k | k in keys :: f(k)
  }

  lemma ImageAdd<K>(keys: set<K>, k: K, f: K -> string)
    ensures Image(keys + {k}, f) == Image(keys, f) + {f(k)}
  {
  }

  /**
   * `after` is `before` with rows of list `l` added at the ids `lo` to `hi`, all pending
   * without an error message; `before` holds only ids below `lo`.
   */
  ghost predicate Appended(before: map<nat, ExportFile>, after: map<nat, ExportFile>, lo: nat, hi: nat, l: string) {
    && (forall id :: id in before ==> id < lo)
    && (forall id :: id in after <==> id in before || lo <= id < hi)
    && (forall id :: id in before ==> after[id] == before[id])
    && (forall id :: lo <= id < hi ==> after[id].listId == l && after[id].status == Pending && after[id].errorMessage.None?)
  }

  lemma AppendedStep(before: map<nat, ExportFile>, after: map<nat, ExportFile>, lo: nat, hi: nat, l: string, p: string)
    requires Appended(before, after, lo, hi, l) && lo <= hi
    ensures Appended(before, after[hi := ExportFile(l, p, Pending, None)], lo, hi + 1, l)
  {
  }

  lemma AppendedBelow(before: map<nat, ExportFile>, after: map<nat, ExportFile>, lo: nat, hi: nat, l: string)
    requires Appended(before, after, lo, hi, l) && lo <= hi
    ensures forall id :: id in after ==> id < hi
  {
  }

  lemma AppendedTrans(a: map<nat, ExportFile>, b: map<nat, ExportFile>, c: map<nat, ExportFile>,
                      lo: nat, mid: nat, hi: nat, l: string)
    requires Appended(a, b, lo, mid, l) && Appended(b, c, mid, hi, l) && lo <= mid <= hi
    ensures Appended(a, c, lo, hi, l)
  {
    forall id | id in a ensures id in c && c[id] == a[id] {
      assert id in b && b[id] == a[id];
    }
    forall id | lo <= id < mid ensures c[id] == b[id] {
      assert id in b;
    }
  }

  /** The state of `AddEntries` after the keys `done`, starting from `db0`. */
  ghost predicate Filled<K>(db0: SyncDb, db: SyncDb, from: nat, l: string, done: set<K>, path: K -> string) {
    && db.lists == db0.lists && db.images == db0.images
    && db.nextFileId == db0.nextFileId + |done|
    && Appended(db0.files, db.files, db0.nextFileId, db.nextFileId, l)
    && PathsFrom(db.files, from) == PathsFrom(db0.files, from) + Image(done, path)
  }

  /** Adding the entry for one more key at the next id keeps the table filled. */
  lemma FilledStep<K>(db0: SyncDb, db: SyncDb, from: nat, l: string, done: set<K>, k: K, path: K -> string)
    requires Filled(db0, db, from, l, done, path) && k !in done && from <= db0.nextFileId
    ensures var id := db.nextFileId;
      Filled(db0, db.(files := db.files[id := ExportFile(l, path(k), Pending, None)], nextFileId := id + 1),
             from, l, done + {k}, path)
  {
    var id := db.nextFileId;
    var e := ExportFile(l, path(k), Pending, None);
    AppendedStep(db0.files, db.files, db0.nextFileId, id, l, path(k));
    PathsFromAdd(db.files, from, id, e);
    ImageAdd(done, k, path);
    assert PathsFrom(db.files[id := e], from) == PathsFrom(db0.files, from) + Image(done + {k}, path);
  }

  /** Moving one key from the keys to do to the keys done keeps the two a partition of all keys. */
  lemma MoveKey<K>(keys: set<K>, todo: set<K>, done: set<K>, k: K)
    requires todo + done == keys && todo !! done && k in todo
    ensures k !in done && (todo - {k}) + (done + {k}) == keys && (todo - {k}) !! (done + {k})
    ensures |todo - {k}| < |todo|
  {
  }

  /** The local database and the disk, as the manager sees them. */
  class Manager {
    var db: SyncDb
    var disk: Disk

    constructor (db0: SyncDb, disk0: Disk)
      ensures db == db0 && disk == disk0
    {
      db, disk := db0, disk0;
    }

    /**
     * `analyze_remote_db` with the local url sets read as intended, the corrected `Analyze`;
     * the code as written is `AnalyzeAsWritten`.
     */
    method AnalyzeRemoteDb(remote: Option<seq<RemoteImage>>) returns (hashes: set<string>, urls: set<Option<string>>)
      ensures (hashes, urls) == Analyze(remote, db.images)
    {
      if remote.None? {
        return {}, {};
      }
      var rows := remote.value;
      var local := LocalHashes(db.images);
      var localUrls := LocalUrls(db.images);
      var localPages := LocalPageUrls(db.images);
      hashes, urls := {}, {};
      for i := 0 to |rows|
        invariant (hashes, urls) == Compare(local, localUrls, localPages, rows[..i])
      {
        assert rows[..i + 1][..i] == rows[..i];
        var row := rows[i];
        if row.sha256.Some? {
          hashes := hashes + (if row.sha256.value !in local then {row.sha256.value} else {});
          urls := urls + (if row.url !in localUrls && row.pageUrl !in localPages then {row.url} else {});
        }
      }
      assert rows[..|rows|] == rows;
    }

    /**
     * `create_export_list`: records list `l` with `total_files` the number of hashes plus
     * urls and no file processed, then one pending entry per hash and per url, in the
     * sets' iteration order. A list id already present makes the insert raise, and the
     * rollback leaves the tables as they were.
     */
    method CreateExportList(hashes: set<string>, urls: set<Option<string>>, l: string, now: string)
      returns (ok: bool)
      modifies this
      requires forall id :: id in db.files ==> id < db.nextFileId
      ensures ok <==> l !in old(db.lists)
      ensures !ok ==> db == old(db)
      ensures ok ==> db.lists == old(db.lists)[l := ExportList(now, |hashes| + |urls|, 0, "pending")]
      ensures ok ==> db.images == old(db.images)
      ensures ok ==> db.nextFileId == old(db.nextFileId) + |hashes| + |urls|
      ensures ok ==> Appended(old(db.files), db.files, old(db.nextFileId), db.nextFileId, l)
      ensures ok ==> PathsFrom(db.files, old(db.nextFileId)) == Image(hashes, HashPath) + Image(urls, UrlPath)
      ensures disk == old(disk)
    {
      if l in db.lists {
        return false;
      }
      db := db.(lists := db.lists[l := ExportList(now, |hashes| + |urls|, 0, "pending")]);
      var from := db.nextFileId;
      ghost var files0 := db.files;
      AddEntries(hashes, HashPath, l, from);
      ghost var files1, next1 := db.files, db.nextFileId;
      AppendedBelow(files0, files1, from, next1, l);
      AddEntries(urls, UrlPath, l, from);
      AppendedTrans(files0, files1, db.files, from, next1, db.nextFileId, l);
      assert PathsFrom(files0, from) == {};
      return true;
    }

    /** Appends one pending entry of list `l` per element of `keys`, at the next ids. */
    method AddEntries<K>(keys: set<K>, path: K -> string, l: string, from: nat)
      modifies this
      requires forall id :: id in db.files ==> id < db.nextFileId
      requires from <= db.nextFileId
      ensures db.lists == old(db.lists) && db.images == old(db.images) && disk == old(disk)
      ensures db.nextFileId == old(db.nextFileId) + |keys|
      ensures Appended(old(db.files), db.files, old(db.nextFileId), db.nextFileId, l)
      ensures PathsFrom(db.files, from) == PathsFrom(old(db.files), from) + Image(keys, path)
    {
      var todo := keys;
      ghost var done: set<K> := {};
      ghost var db0 := db;
      while todo != {}
        invariant todo + done == keys && todo !! done
        invariant Filled(db0, db, from, l, done, path) && disk == old(disk)
        decreases |todo|
      {
        var k :| k in todo;
        MoveKey(keys, todo, done, k);
        AddKey(db0, from, l, done, k, path);
        todo, done := todo - {k}, done + {k};
      }
      assert done == keys;
    }

    /** One loop step of `AddEntries`: the entry for key `k`. */
    method AddKey<K>(ghost db0: SyncDb, from: nat, l: string, ghost done: set<K>, k: K, path: K -> string)
      modifies this
      requires Filled(db0, db, from, l, done, path) && k !in done && from <= db0.nextFileId
      ensures Filled(db0, db, from, l, done + {k}, path) && disk == old(disk)
    {
      FilledStep(db0, db, from, l, done, k, path);
      AddEntry(l, path(k));
    }

    /** One `INSERT INTO sync_export_files`: a pending row of list `l` at the next id. */
    method AddEntry(l: string, p: string)
      modifies this
      ensures db == old(db).(files := old(db.files)[old(db.nextFileId) := ExportFile(l, p, Pending, None)],
                             nextFileId := old(db.nextFileId) + 1)
      ensures disk == old(disk)
    {
      var id := db.nextFileId;
      db := db.(files := db.files[id := ExportFile(l, p, Pending, None)], nextFileId := id + 1);
    }

    /** `_update_file_status`. */
    method UpdateFileStatus(id: nat, status: FileStatus, message: Option<string>)
      modifies this
      ensures db == UpdateStatus(old(db), id, status, message) && disk == old(disk)
    {
      if id !in db.files {
        return;
      }
      var files := db.files[id := db.files[id].(status := status, errorMessage := message)];
      var l := db.files[id].listId;
      var lists := db.lists;
      if l in lists {
        var count := |WithStatus(files, l, Completed)|;
        lists := lists[l := lists[l].(processedFiles := count)];
      }
      db := db.(files := files, lists := lists);
    }

    /**
     * `_process_hash_file` and `_process_url_file` with the target folder read from the
     * row's author, as the code's comment intends; the code as written reads the licence
     * (`SixthColumnIsLicense`).
     */
    method ProcessFile(scan: seq<nat>, kind: Kind, key: string, id: nat)
      modifies this
      ensures (db, disk) == ProcessEntry(old(db), old(disk), scan, kind, key, id)
    {
      var verdict := Judge(db, disk, scan, kind, key, AuthorColumn);
      match verdict
      case Failed(msg) =>
        UpdateFileStatus(id, Error, Some(msg));
      case Moved(name, target) =>
        disk := disk.(importDir := disk.importDir - {name}, library := disk.library + {target});
        db := db.(images := SetPath(db.images, kind, key, target));
        UpdateFileStatus(id, Completed, None);
    }

    /**
     * `cleanup_sync_files` as intended, the corrected `Cleanup`: each row's export path is
     * read out of the row; the code as written is `CleanupAsWritten`.
     */
    method CleanupSyncFiles(l: string, scan: seq<nat>)
      modifies this
      ensures (db, disk) == Cleanup(old(db), old(disk), l, scan)
    {
      var xs := ListedOf(db.files, l, scan);
      ghost var temp0 := disk.temp;
      for i := 0 to |xs|
        invariant db == old(db)
        invariant disk == old(disk).(temp := Sweep(temp0, xs[..i]))
      {
        assert xs[..i + 1][..i] == xs[..i];
        var entry := EntryOf(xs[i].exportPath);
        if entry.Some? {
          UnlinkMatches(Pattern(entry.value.0, entry.value.1));
        }
      }
      assert xs[..|xs|] == xs;
      db := MarkCompleted(db, l);
    }

    /** `for file in Path("temp_sync").glob(...): file.unlink()`. */
    method UnlinkMatches(pattern: string)
      modifies this
      ensures db == old(db) && disk == old(disk).(temp := old(disk.temp) - Matches(old(disk.temp), pattern))
    {
      var todo := Matches(disk.temp, pattern);
      ghost var all := todo;
      while todo != {}
        invariant todo <= all && db == old(db)
        invariant disk == old(disk).(temp := old(disk.temp) - (all - todo))
        decreases |todo|
      {
        var n :| n in todo;
        disk := disk.(temp := disk.temp - {n});
        todo := todo - {n};
      }
    }

    /** `process_imported_files`. */
    method ProcessImportedFiles(dirExists: bool, l: string, fileScan: seq<nat>, imageScan: seq<nat>)
      returns (ok: bool)
      modifies this
      ensures (db, disk, ok) == ProcessImported(old(db), old(disk), dirExists, l, fileScan, imageScan)
    {
      if !dirExists {
        return false;
      }
      var xs := ListedOf(db.files, l, fileScan);
      ghost var db0, disk0 := db, disk;
      for i := 0 to |xs|
        invariant (db, disk) == ProcessAll(db0, disk0, imageScan, xs[..i])
      {
        assert xs[..i + 1][..i] == xs[..i];
        var x := xs[i];
        if x.status != Completed {
          var entry := EntryOf(x.exportPath);
          if entry.Some? {
            ProcessFile(imageScan, entry.value.0, entry.value.1, x.id);
          }
        }
      }
      assert xs[..|xs|] == xs;
      return true;
    }
  }
}
