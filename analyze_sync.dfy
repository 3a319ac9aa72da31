/**
 * The sync analyser: it turns the comparison with a remote database into statistics and,
 * unless it is a dry run, an export list; and it reports the counts and the entries of an
 * existing list.
 */
module AnalyzeSync {
  import opened Wrappers
  import opened Text
  import opened SyncManager

  /** The statistics dictionary of `analyze_remote_db`. */
  datatype Stats = Stats(totalFiles: nat, hashFiles: nat, urlFiles: nat, completed: nat, failed: nat)

  /** The statistics of a comparison: the two counts, their sum, and nothing done yet. */
  function StatsOf(hashes: set<string>, urls: set<Option<string>>): (s: Stats)
    ensures s.totalFiles == s.hashFiles + s.urlFiles && s.completed == 0 && s.failed == 0
    ensures s.hashFiles == |hashes| && s.urlFiles == |urls|
  {
    Stats(|hashes| + |urls|, |hashes|, |urls|, 0, 0)
  }

  /** The outcome of `analyze_remote_db`: the list id (none on a dry run) with the statistics, or a raised error. */
  datatype Analysis = Analysis(listId: Option<string>, stats: Stats) | Raised

  // ---------------------------------------------------------------------------------------
  // List statistics

  /**
   * SQLite's `LIKE` with a pattern `<word>_%`: the word, compared without regard to ASCII
   * case, then any one character, then anything.
   */
  predicate LikeWord(p: string, word: string) {
    |p| > |word| && Lower(p[..|word|]) == word
  }

  /** The rows of `export_path LIKE 'hash_%'` and `LIKE 'url_%'`. */
  function LikeRows(files: map<nat, ExportFile>, l: string, word: string): set<nat> {
    set id | id in files && files[id].listId == l && LikeWord(files[id].exportPath, word)
  }

  /** The counts of `get_export_list_stats`; the sums are NULL over an empty list. */
  datatype ListStats = ListStats(total: nat, hashFiles: Option<nat>, urlFiles: Option<nat>,
                                 completed: Option<nat>, failed: Option<nat>)

  /** `get_export_list_stats`: the fallback of zeros never applies, since the aggregate row always exists. */
  function ListStatsOf(files: map<nat, ExportFile>, l: string): ListStats {
    var total := |RowsOf(files, l)|;
    if total == 0 then ListStats(0, None, None, None, None)
    else ListStats(total, Some(|LikeRows(files, l, "hash")|), Some(|LikeRows(files, l, "url")|),
                   Some(|WithStatus(files, l, Completed)|), Some(|WithStatus(files, l, Error)|))
  }

  /** The export paths `create_export_list` writes match their own pattern and not the other. */
  lemma ExportPathsLike(h: string, u: Option<string>)
    ensures LikeWord(HashPath(h), "hash") && !LikeWord(HashPath(h), "url")
    ensures LikeWord(UrlPath(u), "url") && !LikeWord(UrlPath(u), "hash")
  {
    HashPathLike(h);
    UrlPathLike(u);
  }

  lemma HashPathLike(h: string)
    ensures LikeWord(HashPath(h), "hash") && !LikeWord(HashPath(h), "url")
  {
    var p := HashPath(h);
    assert p[..4] == "hash" && p[..3] == "has";
    LowerOfLower("hash");
    assert Lower(p[..3])[0] == 'h';
  }

  lemma UrlPathLike(u: Option<string>)
    ensures LikeWord(UrlPath(u), "url") && !LikeWord(UrlPath(u), "hash")
  {
    var p := UrlPath(u);
    assert p[..3] == "url" && p[..4] == "url_";
    LowerOfLower("url");
    assert Lower(p[..4])[0] == 'u';
  }

  /** A word of lower-case letters is its own lower-case form. */
  lemma LowerOfLower(w: string)
    requires forall i :: 0 <= i < |w| ==> 'a' <= w[i] <= 'z'
    ensures Lower(w) == w
  {
  }

  /** The patterns are wider than the prefixes: `_` is a wildcard and case is ignored. */
  lemma LikeIsWider()
    ensures LikeWord("HASHES", "hash") && EntryOf("HASHES").None?
  {
    assert "HASHES"[..4] == "HASH";
    assert Lower("HASH") == "hash";
  }

  /** A path with one of the two prefixes is counted by exactly one pattern. */
  lemma PrefixLike(p: string)
    requires EntryOf(p).Some?
    ensures LikeWord(p, "hash") != LikeWord(p, "url")
  {
    if "hash_" <= p {
      assert p == HashPath(p[5..]);
      ExportPathsLike(p[5..], None);
    } else {
      assert p == UrlPath(Some(p[4..]));
      ExportPathsLike("", Some(p[4..]));
    }
  }

  /**
   * For a list whose entries all use the two prefixes, the hash and url counts add up to
   * the total; completed and failed entries never exceed it.
   */
  lemma ListStatsSum(files: map<nat, ExportFile>, l: string)
    requires forall id :: id in files && files[id].listId == l ==> EntryOf(files[id].exportPath).Some?
    ensures var s := ListStatsOf(files, l);
      && (s.total == 0 <==> s.hashFiles.None?)
      && (s.total > 0 ==> (s.hashFiles.value + s.urlFiles.value == s.total &&
            s.completed.value + s.failed.value <= s.total))
  {
    KindsPartition(files, l);
    StatusesBounded(files, l);
  }

  lemma KindsPartition(files: map<nat, ExportFile>, l: string)
    requires forall id :: id in files && files[id].listId == l ==> EntryOf(files[id].exportPath).Some?
    ensures |LikeRows(files, l, "hash")| + |LikeRows(files, l, "url")| == |RowsOf(files, l)|
  {
    var rows, hs, us := RowsOf(files, l), LikeRows(files, l, "hash"), LikeRows(files, l, "url");
    forall id | id in rows ensures (id in hs) != (id in us) {
      PrefixLike(files[id].exportPath);
    }
    assert hs !! us && hs + us == rows;
  }

  /** One row of `get_export_list_details`. */
  datatype Detail = Detail(id: nat, exportPath: string, status: FileStatus, errorMessage: Option<string>)

  /** The list's rows in scan order, with their messages. */
  function DetailsOf(files: map<nat, ExportFile>, l: string, scan: seq<nat>): seq<Detail> {
    if |scan| == 0 then []
    else
      var id := scan[|scan| - 1];
      DetailsOf(files, l, scan[..|scan| - 1]) +
        (if id in files && files[id].listId == l
         then [Detail(id, files[id].exportPath, files[id].status, files[id].errorMessage)] else [])
  }

  /** The details are the listed entries of the list, one for one, with each row's message added. */
  lemma {:induction false} DetailsAreListed(files: map<nat, ExportFile>, l: string, scan: seq<nat>)
    ensures var d, xs := DetailsOf(files, l, scan), ListedOf(files, l, scan);
      && |d| == |xs|
      && forall i :: 0 <= i < |d| ==> (d[i].id == xs[i].id && d[i].exportPath == xs[i].exportPath &&
           d[i].status == xs[i].status && d[i].id in files && d[i].errorMessage == files[d[i].id].errorMessage)
  {
    if |scan| > 0 {
      DetailsAreListed(files, l, scan[..|scan| - 1]);
    }
  }

  // ---------------------------------------------------------------------------------------
  // The analyser

  /** The local database as the analyser sees it. */
  class SyncAnalyzer {
    var db: SyncDb

    constructor (db0: SyncDb)
      ensures db == db0
    {
      db := db0;
    }

    /**
     * `analyze_remote_db`: the comparison, its statistics, and on a real run an export list
     * named `l` created at `now`; a clash of list ids raises.
     */
    method AnalyzeRemoteDb(remote: Option<seq<RemoteImage>>, dryRun: bool, l: string, now: string)
      returns (result: Analysis)
      modifies this
      requires forall id :: id in db.files ==> id < db.nextFileId
      ensures var (h, u) := Analyze(remote, old(db).images);
        && (dryRun ==> result == Analysis(None, StatsOf(h, u)) && db == old(db))
        && (!dryRun && l in old(db).lists ==> result == Raised && db == old(db))
        && (!dryRun && l !in old(db).lists ==>
              && result == Analysis(Some(l), StatsOf(h, u))
              && db.lists == old(db).lists[l := ExportList(now, |h| + |u|, 0, "pending")]
              && db.images == old(db).images
              && Appended(old(db).files, db.files, old(db).nextFileId, db.nextFileId, l)
              && PathsFrom(db.files, old(db).nextFileId) == Image(h, HashPath) + Image(u, UrlPath))
    {
      var manager := new Manager(db, Disk(map[], {}, {}));
      var hashes, urls := manager.AnalyzeRemoteDb(remote);
      var stats := StatsOf(hashes, urls);
      if dryRun {
        return Analysis(None, stats);
      }
      var ok := manager.CreateExportList(hashes, urls, l, now);
      db := manager.db;
      if !ok {
        return Raised;
      }
      return Analysis(Some(l), stats);
    }

    /** `get_export_list_details`. */
    method GetExportListDetails(l: string, scan: seq<nat>) returns (details: seq<Detail>)
      ensures details == DetailsOf(db.files, l, scan)
    {
      details := [];
      for i := 0 to |scan|
        invariant details == DetailsOf(db.files, l, scan[..i])
      {
        assert scan[..i + 1][..i] == scan[..i];
        var id := scan[i];
        if id in db.files && db.files[id].listId == l {
          details := details + [Detail(id, db.files[id].exportPath, db.files[id].status, db.files[id].errorMessage)];
        }
      }
      assert scan[..|scan|] == scan;
    }
  }
}
