/**
 * The photo crawler (indafoto.py): author directories and their numbered
 * shards, Tumblr share-link parsing, the metadata record with its defaults
 * and EXIF rows, the download filename rule, and the sequential crawl loop
 * with its three counters.
 *
 * The network is a set of oracles: for each search-page URL the hrefs of its
 * `<a>` elements (None when the request fails), for each photo page what the
 * HTML parser found there, and for each image URL whether its download
 * succeeds.  The filesystem is the set of paths of regular files.
 */
module Indafoto {
  import opened Wrappers
  import opened Text
  import opened Percent
  import opened Seqs

  /** A filesystem path as its list of components (`a/b/c` is `["a", "b", "c"]`). */
  type Path = seq<string>

  const BaseDir: string := "indafoto_archive"
  const FilesPerDir: nat := 1000
  const TotalPages: nat := 15000
  const SearchUrlPrefix: string :=
    "https://indafoto.hu/search/list?" + "profile=main&sphinx=1&search=advanced" +
    "&textsearch=fulltext&textuser=&textmap=" + "&textcompilation=&photo=&datefrom=" +
    "&dateto=&licence%5B1%5D=I1%3BI2%3BII1%3BII2" + "&licence%5B2%5D=I1%3BI2%3BI3&page_offset="

  /** The search-result URL of a page number. */
  function SearchUrl(page: nat): (r: string)
    ensures SearchUrlPrefix <= r && r[|SearchUrlPrefix|..] == NatToString(page)
  {
    SearchUrlPrefix + NatToString(page)
  }

  // ---------------------------------------------------------------------------
  // Author directories and shards
  // ---------------------------------------------------------------------------

  /** Characters an author name may not bring into a directory name. */
  const UnsafeChars: set<char> := {'<', '>', ':', '"', '/', '\\', '|', '?', '*'}

  /** The author's directory name: every unsafe character becomes `_`, all else is kept. */
  function DirName(author: string): (r: string)
    ensures |r| == |author|
    ensures forall i :: 0 <= i < |r| ==> r[i] !in UnsafeChars
    ensures forall i :: 0 <= i < |r| && author[i] !in UnsafeChars ==> r[i] == author[i]
    ensures forall i :: 0 <= i < |r| && author[i] in UnsafeChars ==> r[i] == '_'
  {
    ReplaceChars(author, UnsafeChars, '_')
  }

  /** A name that is already safe is its own directory name. */
  lemma DirNameOfSafe(author: string)
    requires forall i :: 0 <= i < |author| ==> author[i] !in UnsafeChars
    ensures DirName(author) == author
  {
  }

  /** Sanitising twice is sanitising once. */
  lemma DirNameIdempotent(author: string)
    ensures DirName(DirName(author)) == DirName(author)
  {
    DirNameOfSafe(DirName(author));
  }

  function AuthorDir(author: string): Path {
    [BaseDir, DirName(author)]
  }

  /** `p` lies somewhere below `dir`. */
  predicate Below(p: Path, dir: Path) {
    |p| > |dir| && p[..|dir|] == dir
  }

  /** Regular files directly inside `dir`: what `os.listdir` filtered by `os.path.isfile` counts. */
  function DirectFiles(files: set<Path>, dir: Path): set<Path> {
    set p | p in files && Below(p, dir) && |p| == |dir| + 1
  }

  /** Regular files anywhere below `dir`. */
  function TreeFiles(files: set<Path>, dir: Path): set<Path> {
    set p | p in files && Below(p, dir)
  }

  /** Regular files directly inside shard `k` of `dir`. */
  function ShardFiles(files: set<Path>, dir: Path, k: nat): set<Path> {
    set p | p in files && Below(p, dir) && |p| == |dir| + 2 && p[|dir|] == NatToString(k)
  }

  /** `get_image_directory` as written: the shard number counts the files directly in the author directory. */
  function ImageDirectoryAsWritten(files: set<Path>, author: string): (r: Path)
    ensures |r| == 3 && r[..2] == AuthorDir(author)
  {
    AuthorDir(author) + [NatToString(|DirectFiles(files, AuthorDir(author))| / FilesPerDir)]
  }

  /**
   * Downloads land in shard directories, never directly in the author
   * directory, so as written the count stays 0 and every download of an
   * author goes to shard `0`, however full it is.
   */
  lemma {:induction false} AsWrittenShardIsZero(files: set<Path>, author: string)
    requires DirectFiles(files, AuthorDir(author)) == {}
    ensures ImageDirectoryAsWritten(files, author) == AuthorDir(author) + ["0"]
  {
  }

  /** The counterexample: a thousand files in shard 0 and the next download still goes there. */
  lemma {:induction false} AsWrittenShardOverflows(files: set<Path>, author: string, name: string)
    requires DirectFiles(files, AuthorDir(author)) == {}
    requires |ShardFiles(files, AuthorDir(author), 0)| >= FilesPerDir
    requires ImageDirectoryAsWritten(files, author) + [name] !in files
    ensures |ShardFiles(files + {ImageDirectoryAsWritten(files, author) + [name]}, AuthorDir(author), 0)| > FilesPerDir
    ensures DirectFiles(files + {ImageDirectoryAsWritten(files, author) + [name]}, AuthorDir(author)) == {}
  {
    var dir := AuthorDir(author);
    AsWrittenShardIsZero(files, author);
    var p := dir + ["0"] + [name];
    assert p[..|dir|] == dir && p[|dir|] == NatToString(0);
    assert ShardFiles(files + {p}, dir, 0) == ShardFiles(files, dir, 0) + {p};
    assert DirectFiles(files + {p}, dir) == DirectFiles(files, dir);
  }

  /** The intended `get_image_directory`: the shard number counts all of the author's files. */
  function ImageDirectory(files: set<Path>, author: string): (r: Path)
    ensures |r| == 3 && r[..2] == AuthorDir(author)
  {
    AuthorDir(author) + [NatToString(|TreeFiles(files, AuthorDir(author))| / FilesPerDir)]
  }

  function Max(a: int, b: int): int {
    if a < b then b else a
  }

  /**
   * Shard `k` holds at most `FilesPerDir` files, and holds only what the
   * author's file count beyond `k * FilesPerDir` can account for.
   */
  ghost predicate ShardBound(files: set<Path>, dir: Path, k: nat) {
    && |ShardFiles(files, dir, k)| <= FilesPerDir
    && FilesPerDir * k + |ShardFiles(files, dir, k)| <= Max(FilesPerDir * k, |TreeFiles(files, dir)|)
  }

  ghost predicate Balanced(files: set<Path>, dir: Path) {
    forall k: nat :: ShardBound(files, dir, k)
  }

  lemma {:induction false} EmptyIsBalanced(dir: Path)
    ensures Balanced({}, dir)
  {
    forall k: nat ensures ShardBound({}, dir, k) {
      assert ShardFiles({}, dir, k) == {};
    }
  }

  /** How the author's file sets change when one new file goes into shard `m`. */
  lemma AddToShard(files: set<Path>, dir: Path, p: Path, m: nat, k: nat)
    requires p !in files && Below(p, dir) && |p| == |dir| + 2 && p[|dir|] == NatToString(m)
    ensures |TreeFiles(files + {p}, dir)| == |TreeFiles(files, dir)| + 1
    ensures |ShardFiles(files + {p}, dir, k)| == |ShardFiles(files, dir, k)| + (if k == m then 1 else 0)
  {
    TreeFilesAdd(files, dir, p);
    if k == m {
      ShardFilesAddOwn(files, dir, p, m);
    } else {
      ShardFilesAddOther(files, dir, p, m, k);
    }
  }

  lemma TreeFilesAdd(files: set<Path>, dir: Path, p: Path)
    requires p !in files && Below(p, dir) && |p| == |dir| + 2
    ensures |TreeFiles(files + {p}, dir)| == |TreeFiles(files, dir)| + 1
  {
    assert TreeFiles(files + {p}, dir) == TreeFiles(files, dir) + {p};
  }

  lemma ShardFilesAddOwn(files: set<Path>, dir: Path, p: Path, m: nat)
    requires p !in files && Below(p, dir) && |p| == |dir| + 2 && p[|dir|] == NatToString(m)
    ensures |ShardFiles(files + {p}, dir, m)| == |ShardFiles(files, dir, m)| + 1
  {
    assert ShardFiles(files + {p}, dir, m) == ShardFiles(files, dir, m) + {p};
  }

  lemma ShardFilesAddOther(files: set<Path>, dir: Path, p: Path, m: nat, k: nat)
    requires |p| == |dir| + 2 && p[|dir|] == NatToString(m) && k != m
    ensures ShardFiles(files + {p}, dir, k) == ShardFiles(files, dir, k)
  {
    if NatToString(k) == NatToString(m) {
      NatToStringInjective(k, m);
    }
  }

  /** With the intended count, adding a new file to the chosen shard keeps every shard within bounds. */
  lemma {:induction false} ShardsStayBounded(files: set<Path>, author: string, name: string)
    requires Balanced(files, AuthorDir(author))
    requires ImageDirectory(files, author) + [name] !in files
    ensures Balanced(files + {ImageDirectory(files, author) + [name]}, AuthorDir(author))
  {
    var dir := AuthorDir(author);
    var n := |TreeFiles(files, dir)|;
    var m := n / FilesPerDir;
    assert FilesPerDir * m <= n < FilesPerDir * m + FilesPerDir;
    var p := ImageDirectory(files, author) + [name];
    assert p[..|dir|] == dir && p[|dir|] == NatToString(m);
    forall k: nat ensures ShardBound(files + {p}, dir, k) {
      assert ShardBound(files, dir, k);
      AddToShard(files, dir, p, m, k);
    }
  }

  /** A file outside an author's directory leaves that author's shards alone. */
  lemma {:induction false} OtherFileKeepsBalance(files: set<Path>, dir: Path, p: Path)
    requires Balanced(files, dir) && !Below(p, dir)
    ensures Balanced(files + {p}, dir)
  {
    assert TreeFiles(files + {p}, dir) == TreeFiles(files, dir);
    forall k: nat ensures ShardBound(files + {p}, dir, k) {
      assert ShardBound(files, dir, k);
      assert ShardFiles(files + {p}, dir, k) == ShardFiles(files, dir, k);
    }
  }

  // ---------------------------------------------------------------------------
  // Tumblr share links on a search page
  // ---------------------------------------------------------------------------

  /** One image found on a search page. */
  datatype ShareRecord = ShareRecord(imageUrl: string, pageUrl: string, caption: string)

  const ShareMarker: string := "tumblr.com/share/photo"

  /** `href.split(name)[1].split('&')[0]`: the raw value of a query parameter. */
  function ParamValue(href: string, name: string): string
    requires Contains(href, name)
  {
    Before(SplitSecond(href, name), "&")
  }

  /**
   * The value starts right after the first `name`, contains neither `&`
   * nor `name`, and stops at the end of the href, at an `&` or at the
   * next `name`.
   */
  lemma {:induction false} ParamValueShape(href: string, name: string)
    requires |name| > 0 && Contains(href, name)
    ensures ParamValue(href, name) <= After(href, name)
    ensures !Contains(ParamValue(href, name), "&") && !Contains(ParamValue(href, name), name)
    ensures var rest := After(href, name)[|ParamValue(href, name)|..];
            rest == [] || "&" <= rest || name <= rest
  {
    var x := After(href, name);
    assert ParamValue(href, name) == Before(Before(x, name), "&");
    CutHasNeither(x, name);
    CutRest(x, name);
  }

  /** Text cut at the first `name` and then at the first `&` contains neither. */
  lemma CutHasNeither(x: string, name: string)
    requires |name| > 0
    ensures var v := Before(Before(x, name), "&");
      v <= x && !Contains(v, "&") && !Contains(v, name)
  {
    var b := Before(x, name);
    var v := Before(b, "&");
    BeforeHasNone(b, "&");
    BeforeHasNone(x, name);
    forall j: nat | OccursAt(v, name, j) ensures false {
      OccursInPrefix(b, v, name, j);
      ContainsIff(b, name);
    }
    ContainsIff(v, name);
  }

  /** What follows such a cut is empty, or starts with `&` or with `name`. */
  lemma CutRest(x: string, name: string)
    requires |name| > 0
    ensures var v := Before(Before(x, name), "&");
      |v| <= |x| && (x[|v|..] == [] || "&" <= x[|v|..] || name <= x[|v|..])
  {
    var b := Before(x, name);
    var v := Before(b, "&");
    var rest := x[|v|..];
    match Find(b, "&")
    case Some(j) =>
      assert b[j..j + 1] == "&";
      assert x[j..j + 1] == b[j..j + 1];
      assert "&" <= rest;
    case None =>
      match Find(x, name)
      case Some(i) =>
        assert x[i..i + |name|] == name;
        assert name <= rest;
      case None =>
        assert rest == [];
  }

  /** The record a share link yields: its photo needs both parameters and an `https://` image URL. */
  function ParseShareLink(href: string): (r: Option<ShareRecord>)
    ensures r.Some? <==>
      && Contains(href, "source=") && Contains(href, "clickthru=")
      && "https://" <= Unquote(Unquote(ParamValue(href, "source=")))
    ensures r.Some? ==> r.value.imageUrl == Unquote(Unquote(ParamValue(href, "source=")))
    ensures r.Some? ==> r.value.pageUrl == Unquote(Unquote(ParamValue(href, "clickthru=")))
    ensures r.Some? && !Contains(href, "caption=") ==> r.value.caption == ""
    ensures r.Some? && Contains(href, "caption=") ==>
              r.value.caption == Unquote(Unquote(ParamValue(href, "caption=")))
  {
    if Contains(href, "source=") && Contains(href, "clickthru=") then
      var image := Unquote(Unquote(ParamValue(href, "source=")));
      var page := Unquote(Unquote(ParamValue(href, "clickthru=")));
      var caption := if Contains(href, "caption=") then Unquote(Unquote(ParamValue(href, "caption="))) else "";
      if "https://" <= image then Some(ShareRecord(image, page, caption)) else None
    else None
  }

  /** What one `<a href>` of a search page contributes. */
  function LinkRecords(href: string): (r: seq<ShareRecord>)
    ensures |r| <= 1 && forall rec :: rec in r ==> "https://" <= rec.imageUrl
  {
    if Contains(href, ShareMarker) then
      match ParseShareLink(href)
      case Some(rec) => [rec]
      case None => []
    else []
  }

  /** The records of a search page, in link order. */
  function ImageLinks(hrefs: seq<string>): (r: seq<ShareRecord>)
    ensures |r| <= |hrefs|
    ensures forall rec :: rec in r ==> "https://" <= rec.imageUrl
  {
    FlatMapLength(LinkRecords, hrefs);
    FlatMapAll(LinkRecords, hrefs, (rec: ShareRecord) => "https://" <= rec.imageUrl);
    FlatMap(LinkRecords, hrefs)
  }

  /** A record is found exactly when some link of the page contributes it. */
  lemma ImageLinksFrom(hrefs: seq<string>, rec: ShareRecord)
    ensures rec in ImageLinks(hrefs) <==> exists i :: 0 <= i < |hrefs| && rec in LinkRecords(hrefs[i])
  {
    FlatMapMember(LinkRecords, hrefs, rec);
  }

  /** The loop body of `get_image_links` for one `<a href>`: the record it yields, if any. */
  method ParseLink(href: string) returns (rec: Option<ShareRecord>)
    ensures LinkRecords(href) == if rec.Some? then [rec.value] else []
  {
    rec := None;
    if Contains(href, ShareMarker) {
      rec := ParseShareLink(href);
    }
  }

  /** `get_image_links`: the records of a fetched page, nothing when the fetch failed. */
  method GetImageLinks(page: Option<seq<string>>) returns (data: seq<ShareRecord>)
    ensures data == if page.None? then [] else ImageLinks(page.value)
  {
    data := [];
    if page.None? {
      return;
    }
    var hrefs := page.value;
    var i := 0;
    while i < |hrefs|
      invariant 0 <= i <= |hrefs|
      invariant data == FlatMap(LinkRecords, hrefs[..i])
    {
      FlatMapSnoc(LinkRecords, hrefs, i);
      var rec := ParseLink(hrefs[i]);
      if rec.Some? {
        data := data + [rec.value];
      }
      i := i + 1;
    }
    assert hrefs[..i] == hrefs;
  }

  // ---------------------------------------------------------------------------
  // Photo-page metadata
  // ---------------------------------------------------------------------------

  /** The key and the value a two-cell EXIF row contributes. */
  function ExifKey(cells: seq<string>): string
    requires |cells| == 2
  {
    Strip(cells[0], {':'})
  }

  function ExifValue(cells: seq<string>): string
    requires |cells| == 2
  {
    StripWs(cells[1])
  }

  /** The EXIF dictionary built from the table rows' cell texts, a later key overwriting. */
  function ExifOf(rows: seq<seq<string>>): map<string, string> {
    if |rows| == 0 then map[]
    else
      var m := ExifOf(rows[..|rows| - 1]);
      var last := rows[|rows| - 1];
      if |last| == 2 then m[ExifKey(last) := ExifValue(last)] else m
  }

  /** A key is in the dictionary exactly when some two-cell row has it. */
  lemma {:induction false} ExifDomain(rows: seq<seq<string>>, k: string)
    ensures k in ExifOf(rows) <==> exists i :: 0 <= i < |rows| && |rows[i]| == 2 && ExifKey(rows[i]) == k
  {
    if |rows| > 0 {
      var init := rows[..|rows| - 1];
      ExifDomain(init, k);
      assert forall i :: 0 <= i < |init| ==> rows[i] == init[i];
    }
  }

  /** The value of a key is the one of the last two-cell row that has it. */
  lemma {:induction false} ExifLastWins(rows: seq<seq<string>>, i: nat)
    requires i < |rows| && |rows[i]| == 2
    requires forall j :: i < j < |rows| && |rows[j]| == 2 ==> ExifKey(rows[j]) != ExifKey(rows[i])
    ensures ExifKey(rows[i]) in ExifOf(rows) && ExifOf(rows)[ExifKey(rows[i])] == ExifValue(rows[i])
  {
    if i < |rows| - 1 {
      var init := rows[..|rows| - 1];
      assert init[i] == rows[i];
      ExifLastWins(init, i);
    }
  }

  /** The loop of `extract_metadata` that fills `exif_data`. */
  method CollectExif(rows: seq<seq<string>>) returns (exif: map<string, string>)
    ensures exif == ExifOf(rows)
  {
    exif := map[];
    var i := 0;
    while i < |rows|
      invariant 0 <= i <= |rows|
      invariant exif == ExifOf(rows[..i])
    {
      assert rows[..i + 1][..i] == rows[..i];
      var cells := rows[i];
      if |cells| == 2 {
        exif := exif[ExifKey(cells) := ExifValue(cells)];
      }
      i := i + 1;
    }
    assert rows[..i] == rows;
  }

  /** What the HTML parser found on a photo page. */
  datatype PageFacts = PageFacts(
    ogTitle: Option<string>,              // `content` of `<meta property="og:title">`
    ogDescription: Option<string>,        // `content` of `<meta property="og:description">`
    authorText: Option<string>,           // text of `<span class="photo-author">`
    licenseText: Option<string>,          // text of `<span class="photo-license">`
    exifRows: Option<seq<seq<string>>>,   // `td` texts of each row of the first table
    galleryLink: Option<(string, string)>, // text and href of the first `/album/` link
    uploadDate: Option<string>,           // the upload date once reformatted
    xxlHref: Option<string>)              // href of the first `_xxl.jpg` link

  /** The outcome of requesting a photo page. */
  datatype MetaResponse = Raised | NotOk | Ok(facts: PageFacts)

  datatype Metadata = Metadata(
    title: string, description: string, author: string, license: string,
    cameraMake: Option<string>, cameraModel: Option<string>, focalLength: Option<string>,
    aperture: Option<string>, shutterSpeed: Option<string>, takenDate: Option<string>,
    galleryName: Option<string>, galleryUrl: Option<string>, uploadDate: Option<string>,
    highResUrl: Option<string>)

  const DefaultMetadata: Metadata :=
    Metadata("Unknown", "No description", "Unknown", "Unknown",
             None, None, None, None, None, None, None, None, None, None)

  const MakeKey: string := "Gy\U{00E1}rt\U{00F3}"
  const ModelKey: string := "Model"
  const FocalKey: string := "F\U{00F3}kuszt\U{00E1}v"
  const ApertureKey: string := "Rekesz"
  const ShutterKey: string := "Z\U{00E1}rsebess\U{00E9}g"
  const TakenKey: string := "K\U{00E9}sz\U{00FC}lt"

  /** Python's `d.get(k)`. */
  function Get(d: map<string, string>, k: string): Option<string> {
    if k in d then Some(d[k]) else None
  }

  /** A meta tag's content, or the fallback when the tag or its content is missing or empty. */
  function ContentOr(content: Option<string>, fallback: string): (r: string)
    ensures fallback != "" ==> r != ""
  {
    if content.Some? && content.value != "" then content.value else fallback
  }

  function StrippedOr(text: Option<string>, fallback: string): string {
    if text.Some? then StripWs(text.value) else fallback
  }

  /** The record `extract_metadata` builds from a page and its EXIF dictionary. */
  function RecordOf(f: PageFacts, exif: map<string, string>): Metadata {
    Metadata(
      ContentOr(f.ogTitle, "Unknown"), ContentOr(f.ogDescription, "No description"),
      StrippedOr(f.authorText, "Unknown"), StrippedOr(f.licenseText, "Unknown"),
      Get(exif, MakeKey), Get(exif, ModelKey), Get(exif, FocalKey),
      Get(exif, ApertureKey), Get(exif, ShutterKey), Get(exif, TakenKey),
      if f.galleryLink.Some? then Some(f.galleryLink.value.0) else None,
      if f.galleryLink.Some? then Some(f.galleryLink.value.1) else None,
      f.uploadDate, f.xxlHref)
  }

  /** `extract_metadata` on a response. */
  function MetadataOf(resp: MetaResponse): (r: Option<Metadata>)
    ensures r.None? <==> resp.Raised?
    ensures resp.NotOk? ==> r == Some(DefaultMetadata)
    ensures r.Some? ==> r.value.title != "" && r.value.description != ""
    ensures resp.Ok? && resp.facts.exifRows.None? ==>
              r.value.cameraMake.None? && r.value.cameraModel.None? && r.value.focalLength.None? &&
              r.value.aperture.None? && r.value.shutterSpeed.None? && r.value.takenDate.None?
  {
    match resp
    case Raised => None
    case NotOk => Some(DefaultMetadata)
    case Ok(f) => Some(RecordOf(f, ExifOf(f.exifRows.GetOr([]))))
  }

  /** `extract_metadata`, with its EXIF loop. */
  method ExtractMetadata(resp: MetaResponse) returns (r: Option<Metadata>)
    ensures r == MetadataOf(resp)
  {
    match resp
    case Raised => return None;
    case NotOk => return Some(DefaultMetadata);
    case Ok(f) =>
      var exif := map[];
      if f.exifRows.Some? {
        exif := CollectExif(f.exifRows.value);
      }
      return Some(RecordOf(f, exif));
  }

  // ---------------------------------------------------------------------------
  // Downloading one image
  // ---------------------------------------------------------------------------

  /** Where `download_image` saves a URL: the author's shard and the text after the URL's last `/`. */
  function DownloadPath(files: set<Path>, url: string, author: string): (r: Path)
    ensures |r| == 4 && r[..3] == ImageDirectory(files, author)
    ensures r[3] == LastSegment(url, '/')
  {
    ImageDirectory(files, author) + [LastSegment(url, '/')]
  }

  /**
   * `os.path.exists`: a regular file, or (when the URL ends with `/` and the
   * file name is empty) the shard directory itself, which has just been created.
   */
  predicate Exists(files: set<Path>, p: Path) {
    p in files || (|p| > 0 && p[|p| - 1] == "")
  }

  /**
   * How the request for an image ends: refused before the file is opened
   * (a connection error, a timeout or a non-2xx status), broken while the body
   * is streamed into the already opened file, or complete.
   */
  datatype FetchOutcome = Refused | Broken | Complete

  /** `download_image`: the new set of files and the returned path, given how the request ends. */
  function Download(files: set<Path>, url: string, author: string, fetch: FetchOutcome): (r: (set<Path>, Option<Path>))
    ensures r.1.Some? ==> r.1.value == DownloadPath(files, url, author) && Exists(r.0, r.1.value)
    ensures r.1.None? <==> !Exists(files, DownloadPath(files, url, author)) && fetch != Complete
    ensures r.1.None? && fetch == Refused ==> r.0 == files
    ensures r.1.None? && fetch == Broken ==> r.0 == files + {DownloadPath(files, url, author)}
    ensures r.0 == files || r.0 == files + {DownloadPath(files, url, author)}
    ensures Exists(files, DownloadPath(files, url, author)) ==> r == (files, Some(DownloadPath(files, url, author)))
  {
    var p := DownloadPath(files, url, author);
    if Exists(files, p) then (files, Some(p))
    else match fetch
      case Refused => (files, None)
      case Broken => (files + {p}, None)
      case Complete => (files + {p}, Some(p))
  }

  /** An existing file is returned without a request: the outcome does not depend on the fetch. */
  lemma DownloadSkipsExisting(files: set<Path>, url: string, author: string, f: FetchOutcome, g: FetchOutcome)
    requires Exists(files, DownloadPath(files, url, author))
    ensures Download(files, url, author, f) == Download(files, url, author, g)
  {
  }

  /**
   * A download that breaks after the file is opened returns `None` but leaves the
   * truncated file; unless that file completes a shard, the next download of the same
   * URL finds it and returns it as downloaded, whatever its own request would do.
   */
  lemma BrokenDownloadIsKept(files: set<Path>, url: string, author: string, f: FetchOutcome)
    requires !Exists(files, DownloadPath(files, url, author))
    requires (|TreeFiles(files, AuthorDir(author))| + 1) % FilesPerDir != 0
    ensures var p := DownloadPath(files, url, author);
            var d := Download(files, url, author, Broken);
            d == (files + {p}, None) && Download(d.0, url, author, f) == (d.0, Some(p))
  {
    var p := DownloadPath(files, url, author);
    var n := |TreeFiles(files, AuthorDir(author))|;
    TreeFilesAdd(files, AuthorDir(author), p);
    assert (n + 1) / FilesPerDir == n / FilesPerDir;
    assert DownloadPath(files + {p}, url, author) == p;
  }

  /** A download adds at most one file, in the author's current shard, and keeps every shard within bounds. */
  lemma {:induction false} DownloadKeepsBalance(files: set<Path>, url: string, author: string, fetch: FetchOutcome, other: string)
    requires Balanced(files, AuthorDir(other))
    ensures Balanced(Download(files, url, author, fetch).0, AuthorDir(other))
  {
    var p := DownloadPath(files, url, author);
    if Download(files, url, author, fetch).0 != files {
      assert Download(files, url, author, fetch).0 == files + {p} && p !in files;
      var dir := AuthorDir(other);
      assert p[..2] == AuthorDir(author);
      if DirName(other) == DirName(author) {
        assert AuthorDir(other) == AuthorDir(author);
        ShardsStayBounded(files, author, p[3]);
      } else {
        assert p[1] != dir[1];
        OtherFileKeepsBalance(files, dir, p);
      }
    }
  }

  // ---------------------------------------------------------------------------
  // The crawl
  // ---------------------------------------------------------------------------

  datatype ImageRow = ImageRow(localPath: Path, meta: Metadata)

  /** The network as seen by the crawl. */
  datatype Oracles = Oracles(
    links: string -> Option<seq<string>>,   // hrefs of a search page, None when the request fails
    meta: string -> MetaResponse,           // the response for a photo page
    fetch: string -> FetchOutcome)          // how the request for an image URL ends

  /** The `images` table, the files, and the three counters of `crawl_images`. */
  datatype CrawlState = CrawlState(
    images: map<string, ImageRow>, files: set<Path>, downloaded: nat, skipped: nat, errors: nat)

  /** `metadata['high_res_url'] or image_url`. */
  function DownloadUrl(m: Metadata, imageUrl: string): string {
    if m.highResUrl.Some? && m.highResUrl.value != "" then m.highResUrl.value else imageUrl
  }

  /**
   * One listed image: skipped when known, an error when metadata or download fails, else
   * inserted. A download that breaks after the file is opened is an error that leaves the file.
   */
  function CrawlStep(s: CrawlState, rec: ShareRecord, o: Oracles): (r: CrawlState)
    ensures r.downloaded + r.skipped + r.errors == s.downloaded + s.skipped + s.errors + 1
    ensures rec.imageUrl in s.images <==> r.skipped == s.skipped + 1
    ensures rec.imageUrl in s.images ==> r == s.(skipped := s.skipped + 1)
    ensures r.downloaded == s.downloaded + 1 ==>
              rec.imageUrl !in s.images && r.images.Keys == s.images.Keys + {rec.imageUrl} &&
              r.images == s.images[rec.imageUrl := r.images[rec.imageUrl]] &&
              Exists(r.files, r.images[rec.imageUrl].localPath)
    ensures r.downloaded != s.downloaded + 1 ==> r.images == s.images
  {
    if rec.imageUrl in s.images then s.(skipped := s.skipped + 1)
    else match MetadataOf(o.meta(rec.pageUrl))
      case None => s.(errors := s.errors + 1)
      case Some(m) =>
        var url := DownloadUrl(m, rec.imageUrl);
        var (files', path) := Download(s.files, url, m.author, o.fetch(url));
        if path.Some? then
          s.(images := s.images[rec.imageUrl := ImageRow(path.value, m)], files := files',
             downloaded := s.downloaded + 1)
        else s.(files := files', errors := s.errors + 1)
  }

  /**
   * A step adds at most one file, and an error that adds one is a download broken after
   * the file was opened: the truncated file stays at the path the download chose.
   */
  lemma CrawlStepFiles(s: CrawlState, rec: ShareRecord, o: Oracles)
    ensures var r := CrawlStep(s, rec, o);
            r.downloaded != s.downloaded + 1 ==> s.files <= r.files && |r.files - s.files| <= 1
    ensures var r := CrawlStep(s, rec, o);
            r.errors == s.errors + 1 && r.files != s.files ==>
              rec.imageUrl !in s.images && MetadataOf(o.meta(rec.pageUrl)).Some? &&
              var m := MetadataOf(o.meta(rec.pageUrl)).value;
              var url := DownloadUrl(m, rec.imageUrl);
              o.fetch(url) == Broken && r.files == s.files + {DownloadPath(s.files, url, m.author)}
  {
    var r := CrawlStep(s, rec, o);
    if r.files != s.files {
      var m := MetadataOf(o.meta(rec.pageUrl)).value;
      var url := DownloadUrl(m, rec.imageUrl);
      var p := DownloadPath(s.files, url, m.author);
      assert r.files == s.files + {p} && p !in s.files;
      assert r.files - s.files == {p};
    }
  }

  /** A new image whose page gives no metadata is counted as an error. */
  lemma CrawlStepNoMetadata(s: CrawlState, rec: ShareRecord, o: Oracles)
    requires rec.imageUrl !in s.images && MetadataOf(o.meta(rec.pageUrl)).None?
    ensures CrawlStep(s, rec, o) == s.(errors := s.errors + 1)
  {
  }

  /** A new image with metadata: it is downloaded and recorded, or counted as an error with the files the download left. */
  lemma CrawlStepDownloads(s: CrawlState, rec: ShareRecord, o: Oracles, m: Metadata)
    requires rec.imageUrl !in s.images && MetadataOf(o.meta(rec.pageUrl)) == Some(m)
    ensures var url := DownloadUrl(m, rec.imageUrl);
      var d := Download(s.files, url, m.author, o.fetch(url));
      CrawlStep(s, rec, o) ==
        if d.1.Some? then s.(images := s.images[rec.imageUrl := ImageRow(d.1.value, m)], files := d.0,
                             downloaded := s.downloaded + 1)
        else s.(files := d.0, errors := s.errors + 1)
  {
  }

  /** The records of one page, in order. */
  function CrawlRecords(s: CrawlState, recs: seq<ShareRecord>, o: Oracles): CrawlState {
    if |recs| == 0 then s else CrawlStep(CrawlRecords(s, recs[..|recs| - 1], o), recs[|recs| - 1], o)
  }

  /** The records the crawl finds on a page. */
  function PageRecords(page: nat, o: Oracles): seq<ShareRecord> {
    match o.links(SearchUrl(page))
    case None => []
    case Some(hrefs) => ImageLinks(hrefs)
  }

  /** Pages `1..n`, in order. */
  function CrawlPages(s: CrawlState, n: nat, o: Oracles): CrawlState {
    if n == 0 then s else CrawlRecords(CrawlPages(s, n - 1, o), PageRecords(n, o), o)
  }

  /** Every listed image is counted exactly once, as downloaded, skipped or error. */
  lemma {:induction false} CrawlRecordsCounts(s: CrawlState, recs: seq<ShareRecord>, o: Oracles)
    ensures var r := CrawlRecords(s, recs, o);
            r.downloaded + r.skipped + r.errors == s.downloaded + s.skipped + s.errors + |recs|
  {
    if |recs| > 0 {
      CrawlRecordsCounts(s, recs[..|recs| - 1], o);
    }
  }

  /** Rows are only added, never changed, and each download adds exactly one. */
  lemma {:induction false} CrawlRecordsRows(s: CrawlState, recs: seq<ShareRecord>, o: Oracles)
    ensures var r := CrawlRecords(s, recs, o);
            && s.downloaded <= r.downloaded
            && (forall u :: u in s.images ==> u in r.images && r.images[u] == s.images[u])
            && |r.images.Keys| == |s.images.Keys| + (r.downloaded - s.downloaded)
  {
    if |recs| > 0 {
      CrawlRecordsRows(s, recs[..|recs| - 1], o);
      CrawlStepRows(CrawlRecords(s, recs[..|recs| - 1], o), recs[|recs| - 1], o);
    }
  }

  /** One step keeps every row and adds one exactly when it downloads. */
  lemma CrawlStepRows(s: CrawlState, rec: ShareRecord, o: Oracles)
    ensures var r := CrawlStep(s, rec, o);
            && s.downloaded <= r.downloaded <= s.downloaded + 1
            && (forall u :: u in s.images ==> u in r.images && r.images[u] == s.images[u])
            && |r.images.Keys| == |s.images.Keys| + (r.downloaded - s.downloaded)
  {
    var r := CrawlStep(s, rec, o);
    if r.downloaded == s.downloaded + 1 {
      assert rec.imageUrl !in s.images.Keys;
      assert |r.images.Keys| == |s.images.Keys| + 1;
    }
  }

  /** With the intended shard count, the crawl never puts more than `FilesPerDir` files in a shard. */
  lemma {:induction false} CrawlRecordsBalanced(s: CrawlState, recs: seq<ShareRecord>, o: Oracles, author: string)
    requires Balanced(s.files, AuthorDir(author))
    ensures Balanced(CrawlRecords(s, recs, o).files, AuthorDir(author))
  {
    if |recs| > 0 {
      var mid := CrawlRecords(s, recs[..|recs| - 1], o);
      CrawlRecordsBalanced(s, recs[..|recs| - 1], o, author);
      var rec := recs[|recs| - 1];
      if rec.imageUrl !in mid.images {
        match MetadataOf(o.meta(rec.pageUrl))
        case None =>
        case Some(m) =>
          var url := DownloadUrl(m, rec.imageUrl);
          DownloadKeepsBalance(mid.files, url, m.author, o.fetch(url), author);
      }
    }
  }

  lemma {:induction false} CrawlPagesBalanced(s: CrawlState, n: nat, o: Oracles, author: string)
    requires Balanced(s.files, AuthorDir(author))
    ensures Balanced(CrawlPages(s, n, o).files, AuthorDir(author))
  {
    if n > 0 {
      var prev := CrawlPages(s, n - 1, o);
      CrawlPagesBalanced(s, n - 1, o, author);
      CrawlRecordsBalanced(prev, PageRecords(n, o), o, author);
      assert CrawlPages(s, n, o).files == CrawlRecords(prev, PageRecords(n, o), o).files;
    }
  }

  /** The crawler's database table and image files. */
  class Crawler {
    var images: map<string, ImageRow>
    var files: set<Path>

    constructor (images0: map<string, ImageRow>, files0: set<Path>)
      ensures images == images0 && files == files0
    {
      images := images0;
      files := files0;
    }

    /** `download_image`. */
    method DownloadImage(url: string, author: string, o: Oracles) returns (path: Option<Path>)
      modifies this
      ensures var d := Download(old(files), url, author, o.fetch(url));
        files == d.0 && path == d.1
      ensures images == old(images)
    {
      var p := DownloadPath(files, url, author);
      if Exists(files, p) {
        return Some(p);
      }
      match o.fetch(url) {
        case Refused => return None;
        case Broken =>
          files := files + {p};
          return None;
        case Complete =>
          files := files + {p};
          return Some(p);
      }
    }

    /** The body of the inner loop of `crawl_images` for one listed image. */
    method HandleRecord(rec: ShareRecord, o: Oracles, downloaded: nat, skipped: nat, errors: nat)
      returns (downloaded': nat, skipped': nat, errors': nat)
      modifies this
      ensures CrawlState(images, files, downloaded', skipped', errors') ==
              CrawlStep(CrawlState(old(images), old(files), downloaded, skipped, errors), rec, o)
    {
      downloaded', skipped', errors' := downloaded, skipped, errors;
      ghost var before := CrawlState(images, files, downloaded, skipped, errors);
      if rec.imageUrl in images {
        skipped' := skipped + 1;
        return;
      }
      var metadata := ExtractMetadata(o.meta(rec.pageUrl));
      if metadata.None? {
        CrawlStepNoMetadata(before, rec, o);
        errors' := errors + 1;
        return;
      }
      var m := metadata.value;
      var url := DownloadUrl(m, rec.imageUrl);
      var path := DownloadImage(url, m.author, o);
      CrawlStepDownloads(before, rec, o, m);
      if path.Some? {
        images := images[rec.imageUrl := ImageRow(path.value, m)];
        downloaded' := downloaded + 1;
      } else {
        errors' := errors + 1;
      }
    }

    /** The inner loop of `crawl_images`: the images listed on one page, in order. */
    method CrawlRecordList(recs: seq<ShareRecord>, o: Oracles, downloaded: nat, skipped: nat, errors: nat)
      returns (downloaded': nat, skipped': nat, errors': nat)
      modifies this
      ensures CrawlState(images, files, downloaded', skipped', errors') ==
              CrawlRecords(CrawlState(old(images), old(files), downloaded, skipped, errors), recs, o)
    {
      ghost var start := CrawlState(images, files, downloaded, skipped, errors);
      downloaded', skipped', errors' := downloaded, skipped, errors;
      var i := 0;
      while i < |recs|
        invariant 0 <= i <= |recs|
        invariant CrawlState(images, files, downloaded', skipped', errors') == CrawlRecords(start, recs[..i], o)
      {
        assert recs[..i + 1][..i] == recs[..i];
        downloaded', skipped', errors' := HandleRecord(recs[i], o, downloaded', skipped', errors');
        i := i + 1;
      }
      assert recs[..i] == recs;
    }

    /** `crawl_images`: pages 1 to `TotalPages`, each listed image handled once. */
    method CrawlImages(o: Oracles) returns (downloaded: nat, skipped: nat, errors: nat)
      modifies this
      ensures CrawlState(images, files, downloaded, skipped, errors) ==
              CrawlPages(CrawlState(old(images), old(files), 0, 0, 0), TotalPages, o)
    {
      ghost var init := CrawlState(images, files, 0, 0, 0);
      downloaded, skipped, errors := 0, 0, 0;
      var page := 1;
      while page <= TotalPages
        invariant 1 <= page <= TotalPages + 1
        invariant CrawlState(images, files, downloaded, skipped, errors) == CrawlPages(init, page - 1, o)
      {
        var recs := GetImageLinks(o.links(SearchUrl(page)));
        assert recs == PageRecords(page, o);
        downloaded, skipped, errors := CrawlRecordList(recs, o, downloaded, skipped, errors);
        page := page + 1;
      }
    }
  }
}
