/**
 * The author crawler: it walks search-result pages, records every author it
 * finds in the `author_crawl` table, and picks the pages still to be visited.
 * The table is an insertion-ordered dictionary keyed by the unique `author`
 * column; the crawler object holds it together with the next page to enqueue.
 */
module AuthorCrawler {
  import opened Wrappers
  import opened Text
  import opened Seqs
  import opened Dicts
  import Indafoto
  import AuthorDetails

  const MaxRetries: nat := 3
  /** The most worker threads that run at once. */
  const MaxWorkers: nat := 10
  /** Pages per batch, both when selecting pending pages and when enqueuing new ones. */
  const BatchSize: nat := 100

  // ---------------------------------------------------------------------------
  // Authors on a search page

  /** An `a.pic_author` link: its `href` (empty when missing) and its stripped text. */
  datatype AuthorLink = AuthorLink(href: string, text: string)

  /** An author found on a page. */
  datatype FoundAuthor = FoundAuthor(author: string, slug: string, url: string)

  /** The slug: the last path segment of the link once trailing slashes are removed. */
  function AuthorSlug(href: string): (r: string)
    ensures '/' !in r
    ensures EndsWith(RStrip(href, {'/'}), r)
  {
    LastSegment(RStrip(href, {'/'}), '/')
  }

  /** A profile address `<base>/<slug>` with any number of trailing slashes has that slug. */
  lemma SlugOfProfile(base: string, slug: string, slashes: nat)
    requires slug != "" && '/' !in slug
    ensures AuthorSlug(base + "/" + slug + Repeat('/', slashes)) == slug
  {
    var core := base + "/" + slug;
    assert core[|core| - 1] == slug[|slug| - 1];
    RStripRepeat(core, '/', slashes);
    LastSegmentAfter(base, '/', slug);
  }

  /** The details scraper derives the same slug from the details page of an author url. */
  lemma SlugAgreesWithDetails(href: string)
    ensures AuthorDetails.SlugOf(AuthorDetails.DetailsUrl(href)) == Some(AuthorSlug(href))
  {
    AuthorDetails.DetailsUrlSlug(href);
  }

  /** What one link contributes: an author only when both its href and its text are non-empty. */
  function AuthorEntry(link: AuthorLink): seq<FoundAuthor> {
    if link.href != "" && link.text != "" then [FoundAuthor(link.text, AuthorSlug(link.href), link.href)] else []
  }

  function AuthorsOf(links: seq<AuthorLink>): seq<FoundAuthor> {
    FlatMap(AuthorEntry, links)
  }

  /** `extract_authors_from_page` once the page has been fetched. */
  method ExtractAuthors(links: seq<AuthorLink>) returns (authors: seq<FoundAuthor>)
    ensures authors == AuthorsOf(links)
  {
    authors := [];
    var i := 0;
    while i < |links|
      invariant 0 <= i <= |links|
      invariant authors == AuthorsOf(links[..i])
    {
      ExtractStep(links, i, authors);
      var link := links[i];
      if link.href != "" && link.text != "" {
        authors := authors + [FoundAuthor(link.text, AuthorSlug(link.href), link.href)];
      } else {
        assert authors + AuthorEntry(link) == authors;
      }
      i := i + 1;
    }
    assert links[..|links|] == links;
  }

  lemma ExtractStep(links: seq<AuthorLink>, i: nat, authors: seq<FoundAuthor>)
    requires i < |links| && authors == AuthorsOf(links[..i])
    ensures AuthorsOf(links[..i + 1]) == authors + AuthorEntry(links[i])
  {
    FlatMapSnoc(AuthorEntry, links, i);
  }

  /**
   * At most one author per link, and an author is found exactly when some link has a
   * non-empty href and text: the author is the text, the url the href, the slug its slug.
   */
  lemma AuthorsOfSpec(links: seq<AuthorLink>, a: FoundAuthor)
    ensures |AuthorsOf(links)| <= |links|
    ensures a in AuthorsOf(links) <==>
      exists i :: 0 <= i < |links| && links[i].href != "" && links[i].text != ""
        && a == FoundAuthor(links[i].text, AuthorSlug(links[i].href), links[i].href)
  {
    FlatMapLength(AuthorEntry, links);
    FlatMapMember(AuthorEntry, links, a);
  }

  /** The authors of a fetch: none when the request failed. */
  function Found(fetched: Option<seq<AuthorLink>>): seq<FoundAuthor> {
    if fetched.Some? then AuthorsOf(fetched.value) else []
  }

  // ---------------------------------------------------------------------------
  // The author_crawl table

  datatype CrawlRow = CrawlRow(
    slug: string, url: string, pageNumber: nat, foundDate: string,
    processed: bool, error: Option<string>, retryCount: nat)

  type CrawlTable = Dict<string, CrawlRow>

  /** The row an upsert leaves, whether the author is new or known: unprocessed, no error, no retries. */
  function FreshRow(a: FoundAuthor, page: nat, now: string): CrawlRow {
    CrawlRow(a.slug, a.url, page, now, false, None, 0)
  }

  /** The upserts of `process_page`, one per found author, in order. */
  function UpsertAll(rows: CrawlTable, authors: seq<FoundAuthor>, page: nat, now: string): CrawlTable {
    if |authors| == 0 then rows
    else
      var n := |authors| - 1;
      Set(UpsertAll(rows, authors[..n], page, now), authors[n].author, FreshRow(authors[n], page, now))
  }

  lemma UpsertAllSnoc(rows: CrawlTable, authors: seq<FoundAuthor>, i: nat, page: nat, now: string)
    requires i < |authors|
    ensures UpsertAll(rows, authors[..i + 1], page, now) ==
      Set(UpsertAll(rows, authors[..i], page, now), authors[i].author, FreshRow(authors[i], page, now))
  {
    assert authors[..i + 1][..i] == authors[..i];
  }

  /** The last found entry for an author. */
  function LastFound(authors: seq<FoundAuthor>, author: string): (r: Option<FoundAuthor>)
    ensures r.Some? <==> exists i :: 0 <= i < |authors| && authors[i].author == author
    ensures r.Some? ==> r.value in authors && r.value.author == author
  {
    if |authors| == 0 then None
    else if authors[|authors| - 1].author == author then Some(authors[|authors| - 1])
    else
      var r := LastFound(authors[..|authors| - 1], author);
      assert forall i :: 0 <= i < |authors| - 1 ==> authors[..|authors| - 1][i] == authors[i];
      r
  }

  /**
   * After the upserts each found author has a fresh row for this page, from its last
   * occurrence on the page, and every other author keeps its row.
   */
  lemma {:induction false} UpsertAllSpec(rows: CrawlTable, authors: seq<FoundAuthor>, page: nat, now: string, k: string)
    requires DistinctKeys(rows)
    ensures DistinctKeys(UpsertAll(rows, authors, page, now))
    ensures Get(UpsertAll(rows, authors, page, now), k) ==
      if LastFound(authors, k).Some? then Some(FreshRow(LastFound(authors, k).value, page, now)) else Get(rows, k)
  {
    if |authors| > 0 {
      var n := |authors| - 1;
      var before := UpsertAll(rows, authors[..n], page, now);
      var last := authors[n];
      var row := FreshRow(last, page, now);
      UpsertAllSpec(rows, authors[..n], page, now, k);
      SetDistinct(before, last.author, row);
      GetSet(before, last.author, row, k);
      var after := UpsertAll(rows, authors, page, now);
      assert after == Set(before, last.author, row);
      LastFoundSnoc(authors, k);
      if last.author == k {
        assert Get(after, k) == Some(row) && LastFound(authors, k) == Some(last);
      } else {
        assert Get(after, k) == Get(before, k) && LastFound(authors, k) == LastFound(authors[..n], k);
      }
    }
  }

  lemma LastFoundSnoc(authors: seq<FoundAuthor>, k: string)
    requires |authors| > 0
    ensures var n := |authors| - 1;
      LastFound(authors, k) == if authors[n].author == k then Some(authors[n]) else LastFound(authors[..n], k)
  {
  }

  /** A page is still to do while unprocessed, or failed fewer than `MaxRetries` times. */
  predicate Pending(row: CrawlRow) {
    !row.processed || (row.error.Some? && row.retryCount < MaxRetries)
  }

  function PendingPage(e: (string, CrawlRow)): seq<nat> {
    if Pending(e.1) then [e.1.pageNumber] else []
  }

  function NatLe(): (nat, nat) -> bool {
    (a: nat, b: nat) => a <= b
  }

  /** `get_pages_to_process`: distinct pending page numbers, ascending, at most `BatchSize`. */
  function PagesToProcess(rows: CrawlTable): seq<nat> {
    Take(SortBy(NatLe(), Dedup(FlatMap(PendingPage, rows))), BatchSize)
  }

  /** Some row for page `p` is pending. */
  predicate PendingAt(rows: CrawlTable, p: nat) {
    exists i :: 0 <= i < |rows| && Pending(rows[i].1) && rows[i].1.pageNumber == p
  }

  /**
   * The selected pages are strictly increasing, at most `BatchSize` of them, each has a
   * pending row, and a pending page left out means the batch is full of smaller pages.
   */
  lemma PagesToProcessSpec(rows: CrawlTable, p: nat)
    ensures var r := PagesToProcess(rows);
      && |r| <= BatchSize
      && (forall i, j :: 0 <= i < j < |r| ==> r[i] < r[j])
      && (p in r ==> PendingAt(rows, p))
      && (PendingAt(rows, p) && p !in r ==> |r| == BatchSize && forall q :: q in r ==> q < p)
  {
    var all := Dedup(FlatMap(PendingPage, rows));
    var sorted := SortBy(NatLe(), all);
    var r := PagesToProcess(rows);
    FlatMapMember(PendingPage, rows, p);
    assert p in sorted <==> p in all by {
      assert p in sorted <==> p in multiset(sorted);
    }
    assert TotalPreorder(NatLe());
    SortBySorted(NatLe(), all);
    SortByDistinct(NatLe(), all);
    TakeSorted(NatLe(), sorted, BatchSize, p);
  }

  /** A table with a pending row always has pages to process. */
  lemma PendingMeansWork(rows: CrawlTable, k: string)
    requires Get(rows, k).Some? && Pending(Get(rows, k).value)
    ensures PagesToProcess(rows) != []
  {
    var i :| 0 <= i < |rows| && rows[i] == (k, Get(rows, k).value);
    var p := rows[i].1.pageNumber;
    assert PendingAt(rows, p);
    PagesToProcessSpec(rows, p);
  }

  // ---------------------------------------------------------------------------
  // The crawler

  /** `range(a, b)` */
  function Range(a: nat, b: nat): (r: seq<nat>)
    ensures |r| == if b <= a then 0 else b - a
    ensures forall i :: 0 <= i < |r| ==> r[i] == a + i
  {
    if b <= a then [] else seq(b - a, i requires 0 <= i < b - a => a + i)
  }

  /** A batch of pages processed one after the other. */
  function ProcessBatch(rows: CrawlTable, batch: seq<nat>, fetch: string -> Option<seq<AuthorLink>>, now: string): CrawlTable {
    if |batch| == 0 then rows
    else
      var n := |batch| - 1;
      UpsertAll(ProcessBatch(rows, batch[..n], fetch, now), Found(fetch(Indafoto.SearchUrl(batch[n]))), batch[n], now)
  }

  /** The pages a round enqueues: a new batch only when nothing is pending and the end is not reached. */
  function NextBatch(rows: CrawlTable, start: nat, end: nat): (r: seq<nat>)
    ensures |r| <= BatchSize
    ensures forall i :: 0 <= i < |r| ==> start <= r[i] <= end
  {
    if PagesToProcess(rows) == [] && start < end then Range(start, Min(start + BatchSize, end + 1)) else []
  }

  function Min(a: nat, b: nat): nat {
    if a <= b then a else b
  }

  lemma {:induction false} UpsertKeepsPending(rows: CrawlTable, authors: seq<FoundAuthor>, page: nat, now: string, k: string)
    requires DistinctKeys(rows)
    requires Get(rows, k).Some? && Pending(Get(rows, k).value)
    ensures Get(UpsertAll(rows, authors, page, now), k).Some?
    ensures Pending(Get(UpsertAll(rows, authors, page, now), k).value)
  {
    UpsertAllSpec(rows, authors, page, now, k);
  }

  lemma {:induction false} BatchKeepsTable(rows: CrawlTable, batch: seq<nat>, fetch: string -> Option<seq<AuthorLink>>, now: string)
    requires DistinctKeys(rows)
    ensures DistinctKeys(ProcessBatch(rows, batch, fetch, now))
  {
    if |batch| > 0 {
      var n := |batch| - 1;
      BatchKeepsTable(rows, batch[..n], fetch, now);
      UpsertAllSpec(ProcessBatch(rows, batch[..n], fetch, now), Found(fetch(Indafoto.SearchUrl(batch[n]))), batch[n], now, "");
    }
  }

  /** Upserting at least one author leaves work behind: the last one's row is pending. */
  lemma UpsertLeavesWork(rows: CrawlTable, authors: seq<FoundAuthor>, page: nat, now: string)
    requires DistinctKeys(rows) && authors != []
    ensures PagesToProcess(UpsertAll(rows, authors, page, now)) != []
  {
    var a := authors[|authors| - 1].author;
    assert LastFound(authors, a).Some?;
    UpsertAllSpec(rows, authors, page, now, a);
    PendingMeansWork(UpsertAll(rows, authors, page, now), a);
  }

  /** Work pending before an upsert is still pending after it. */
  lemma UpsertKeepsWork(rows: CrawlTable, authors: seq<FoundAuthor>, page: nat, now: string)
    requires DistinctKeys(rows) && PagesToProcess(rows) != []
    ensures PagesToProcess(UpsertAll(rows, authors, page, now)) != []
  {
    WorkHasPendingKey(rows);
    var k :| Get(rows, k).Some? && Pending(Get(rows, k).value);
    UpsertKeepsPending(rows, authors, page, now, k);
    PendingMeansWork(UpsertAll(rows, authors, page, now), k);
  }

  /**
   * Once a page of the batch yielded an author, some row is pending after the batch:
   * every upsert writes `processed = 0`, and nothing in the crawler sets it to 1.
   */
  lemma {:induction false} ProductiveBatchLeavesWork(rows: CrawlTable, batch: seq<nat>, fetch: string -> Option<seq<AuthorLink>>,
                                                     now: string, j: nat)
    requires DistinctKeys(rows)
    requires j < |batch| && Found(fetch(Indafoto.SearchUrl(batch[j]))) != []
    ensures PagesToProcess(ProcessBatch(rows, batch, fetch, now)) != []
    decreases |batch|
  {
    var n := |batch| - 1;
    var before := ProcessBatch(rows, batch[..n], fetch, now);
    var authors := Found(fetch(Indafoto.SearchUrl(batch[n])));
    assert ProcessBatch(rows, batch, fetch, now) == UpsertAll(before, authors, batch[n], now);
    BatchKeepsTable(rows, batch[..n], fetch, now);
    if j == n {
      UpsertLeavesWork(before, authors, batch[n], now);
    } else {
      assert batch[..n][j] == batch[j];
      ProductiveBatchLeavesWork(rows, batch[..n], fetch, now, j);
      UpsertKeepsWork(before, authors, batch[n], now);
    }
  }

  /** A table with pages to process has a pending row. */
  lemma WorkHasPendingKey(rows: CrawlTable)
    requires DistinctKeys(rows) && PagesToProcess(rows) != []
    ensures exists k :: Get(rows, k).Some? && Pending(Get(rows, k).value)
  {
    var p := PagesToProcess(rows)[0];
    PagesToProcessSpec(rows, p);
    var i :| 0 <= i < |rows| && Pending(rows[i].1) && rows[i].1.pageNumber == p;
    GetEntry(rows, i);
  }

  class AuthorCrawl {
    /** The `author_crawl` table. */
    var rows: CrawlTable
    /** The next page a new batch starts at. */
    var startPage: nat
    /** The last page to crawl, inclusive. */
    const endPage: nat

    ghost predicate Valid()
      reads this
    {
      DistinctKeys(rows)
    }

    constructor (start: nat, end: nat)
      ensures Valid() && rows == [] && startPage == start && endPage == end
    {
      rows := [];
      startPage := start;
      endPage := end;
    }

    /**
     * `process_page`: upsert every author found on the page; true exactly when some
     * author was found.
     */
    method ProcessPage(page: nat, fetched: Option<seq<AuthorLink>>, now: string) returns (ok: bool)
      requires Valid()
      modifies this
      ensures Valid()
      ensures ok == (Found(fetched) != [])
      ensures rows == UpsertAll(old(rows), Found(fetched), page, now)
      ensures startPage == old(startPage)
    {
      if fetched.None? {
        return false;
      }
      var authors := ExtractAuthors(fetched.value);
      if authors == [] {
        return false;
      }
      var i := 0;
      while i < |authors|
        invariant 0 <= i <= |authors|
        invariant rows == UpsertAll(old(rows), authors[..i], page, now)
        invariant DistinctKeys(rows) && startPage == old(startPage)
      {
        UpsertAllSnoc(old(rows), authors, i, page, now);
        SetDistinct(rows, authors[i].author, FreshRow(authors[i], page, now));
        rows := Set(rows, authors[i].author, FreshRow(authors[i], page, now));
        i := i + 1;
      }
      assert authors[..|authors|] == authors;
      ok := true;
    }

    /**
     * One round of `crawler_loop`, with the worker threads run one page after the other:
     * stop when nothing is pending and the start page reached the end; otherwise enqueue
     * and process `NextBatch` and advance the start page past it.
     */
    method Round(fetch: string -> Option<seq<AuthorLink>>, now: string) returns (stop: bool, batch: seq<nat>)
      requires Valid()
      modifies this
      ensures Valid()
      ensures stop <==> PagesToProcess(old(rows)) == [] && old(startPage) >= endPage
      ensures batch == NextBatch(old(rows), old(startPage), endPage)
      ensures startPage == if batch == [] then old(startPage) else old(startPage) + BatchSize
      ensures rows == ProcessBatch(old(rows), batch, fetch, now)
    {
      var pending := PagesToProcess(rows);
      batch := [];
      stop := false;
      if pending == [] {
        if startPage >= endPage {
          stop := true;
          return;
        }
        batch := Range(startPage, Min(startPage + BatchSize, endPage + 1));
        startPage := startPage + BatchSize;
      }
      var i := 0;
      while i < |batch|
        invariant 0 <= i <= |batch|
        invariant Valid()
        invariant rows == ProcessBatch(old(rows), batch[..i], fetch, now)
        invariant startPage == if batch == [] then old(startPage) else old(startPage) + BatchSize
      {
        assert batch[..i + 1][..i] == batch[..i];
        var page := batch[i];
        var _ := ProcessPage(page, fetch(Indafoto.SearchUrl(page)), now);
        i := i + 1;
      }
      assert batch[..|batch|] == batch;
    }
  }

  /**
   * The crawl stalls: after a round whose batch found an author, the next round has
   * pending pages, so it enqueues nothing, leaves the table and the start page as they
   * are, and does not stop; every round after it does the same.
   */
  lemma RoundStalls(rows: CrawlTable, start: nat, end: nat, fetch: string -> Option<seq<AuthorLink>>, now: string, j: nat)
    requires DistinctKeys(rows)
    requires var batch := NextBatch(rows, start, end);
      j < |batch| && Found(fetch(Indafoto.SearchUrl(batch[j]))) != []
    ensures var after := ProcessBatch(rows, NextBatch(rows, start, end), fetch, now);
      && PagesToProcess(after) != []
      && NextBatch(after, start + BatchSize, end) == []
      && ProcessBatch(after, [], fetch, now) == after
  {
    ProductiveBatchLeavesWork(rows, NextBatch(rows, start, end), fetch, now, j);
  }

  /**
   * The spawning loop: threads start while fewer than `MaxWorkers` run and the queue is
   * not empty; `queueEmpty(k)` is what the check before the k-th new thread sees.
   */
  method SpawnWorkers(active: nat, queueEmpty: nat -> bool) returns (running: nat)
    ensures running == active || active < running <= MaxWorkers
    ensures forall k :: 0 <= k < running - active ==> !queueEmpty(k)
    ensures running < MaxWorkers ==> queueEmpty(running - active)
  {
    running := active;
    while running < MaxWorkers && !queueEmpty(running - active)
      invariant active <= running
      invariant running == active || running <= MaxWorkers
      invariant forall k :: 0 <= k < running - active ==> !queueEmpty(k)
    {
      running := running + 1;
    }
  }
}
