/**
 * The pre-crawler: it fetches search pages a little ahead of the main crawler so that
 * their responses are already in the HTTP cache, records every page it visits in the
 * `pre_crawled_pages` table, and later asks the cache to remove the pages that are no
 * longer needed.
 */
module CacheUtils {
  import opened Wrappers
  import opened Text
  import opened Tables
  import Indafoto

  /** Without a start page, pre-crawling starts this many pages after the last completed one. */
  const Lead: nat := 10
  /** `MAX_PAGES_AHEAD`: the pre-crawler never runs further ahead than this. */
  const MaxPagesAhead: nat := 20
  /** Pre-crawled pages more than this far behind the last completed page are cleaned up. */
  const StaleDistance: nat := 20

  /** The `status` column of `pre_crawled_pages`. */
  datatype PreStatus = Success | NoImages | Error

  /** A `pre_crawled_pages` row without its key, `page_number`. */
  datatype PreRow = PreRow(date: string, imageCount: nat, status: PreStatus)

  type PreTable = map<nat, PreRow>

  /** `completed_pages`: each completed page's `image_count`. */
  type CompletedTable = map<nat, int>

  /** A row of the `images` table, as far as the cleanup reads it. */
  datatype ImageRow = ImageRow(url: string, pageUrl: string)

  /** What one round of the continuous pre-crawler decides. */
  datatype Plan = Wait | Crawl(next: nat, count: nat)

  /** `get_last_successful_page`: the largest completed page with images, or 0. */
  function LastSuccessfulPage(completed: CompletedTable): (r: nat)
    ensures forall p :: p in completed && completed[p] > 0 ==> p <= r
    ensures (exists p :: p in completed && completed[p] > 0) ==> r in completed && completed[r] > 0
    ensures (forall p :: p in completed ==> completed[p] <= 0) ==> r == 0
  {
    var pages := set p | p in completed && completed[p] > 0;
    assert forall p :: p in completed && completed[p] > 0 ==> p in pages;
    MaxOrZero(pages)
  }

  /** `get_last_pre_crawled_page`: the largest page pre-crawled with status 'success', or 0. */
  function LastPreCrawledPage(pre: PreTable): (r: nat)
    ensures forall p :: p in pre && pre[p].status == Success ==> p <= r
    ensures (exists p :: p in pre && pre[p].status == Success) ==> r in pre && pre[r].status == Success
    ensures (forall p :: p in pre ==> pre[p].status != Success) ==> r == 0
  {
    var pages := set p | p in pre && pre[p].status == Success;
    assert forall p :: p in pre && pre[p].status == Success ==> p in pages;
    MaxOrZero(pages)
  }

  /** `is_page_pre_crawled`: the page has a row with status 'success'. */
  predicate IsPreCrawled(pre: PreTable, page: nat) {
    page in pre && pre[page].status == Success
  }

  /** The page is in `completed_pages` with a positive image count. */
  predicate CompletedWithImages(completed: CompletedTable, page: nat) {
    page in completed && completed[page] > 0
  }

  /** `pre_crawl_pages` leaves a page alone when either holds. */
  predicate Skipped(pre: PreTable, completed: CompletedTable, page: nat) {
    IsPreCrawled(pre, page) || CompletedWithImages(completed, page)
  }

  /** The row `mark_page_pre_crawled` writes for a page whose search listed `found` images. */
  function Mark(found: nat, date: string): PreRow {
    if found == 0 then PreRow(date, 0, NoImages) else PreRow(date, found, Success)
  }

  /** One page of `pre_crawl_pages`; `found` is how many image links its search page gave. */
  function Visit(pre: PreTable, completed: CompletedTable, page: nat, found: nat, date: string): PreTable {
    if Skipped(pre, completed, page) then pre else pre[page := Mark(found, date)]
  }

  /**
   * `pre_crawl_pages` over `start, ..., start + n - 1`. `links(p)` is the number of image
   * links fetched from page `p`'s search URL, `Indafoto.SearchUrl(p)` (0 when the fetch
   * fails), and `clock(p)` the time at which page `p` is marked.
   */
  function PreCrawlRange(pre: PreTable, completed: CompletedTable, start: nat, n: nat,
                         links: nat -> nat, clock: nat -> string): PreTable
    decreases n
  {
    if n == 0 then pre
    else
      var page := start + n - 1;
      Visit(PreCrawlRange(pre, completed, start, n - 1, links, clock), completed, page, links(page), clock(page))
  }

  /**
   * After pre-crawling a range, a page of the range that was neither pre-crawled nor
   * completed with images holds a fresh mark ('success' with the link count, or
   * 'no_images' with 0); every other page keeps its row, or stays without one.
   */
  lemma {:induction false} PreCrawlRangeGet(pre: PreTable, completed: CompletedTable, start: nat, n: nat,
                                            links: nat -> nat, clock: nat -> string, p: nat)
    ensures Lookup(PreCrawlRange(pre, completed, start, n, links, clock), p) ==
              if start <= p < start + n && !Skipped(pre, completed, p)
              then Some(Mark(links(p), clock(p)))
              else Lookup(pre, p)
    decreases n
  {
    if n > 0 {
      var page := start + n - 1;
      PreCrawlRangeGet(pre, completed, start, n - 1, links, clock, p);
      PreCrawlRangeGet(pre, completed, start, n - 1, links, clock, page);
    }
  }

  /** Python's `min`. */
  function Min(a: int, b: int): int {
    if a <= b then a else b
  }

  /**
   * One round of `continuous_pre_crawl`: wait when far enough ahead, otherwise crawl from
   * `Lead` pages ahead of the main crawler, or from just after the furthest pre-crawled page
   * when that is further, up to the window's end at `lastPage + MaxPagesAhead`.
   */
  function PlanRound(lastPage: nat, lastPreCrawled: nat, numPages: nat): (r: Plan)
    ensures r.Crawl? ==> lastPage + Lead <= r.next && r.next + r.count <= lastPage + MaxPagesAhead + 1
    ensures r.Crawl? ==> r.count <= numPages && (numPages > 0 ==> r.count > 0)
    ensures r.Crawl? ==> r.next == if lastPreCrawled > lastPage + Lead then lastPreCrawled + 1 else lastPage + Lead
    ensures lastPreCrawled != 0 && lastPreCrawled >= lastPage + MaxPagesAhead ==> r == Wait
  {
    var pagesAhead := if lastPreCrawled != 0 then lastPreCrawled - lastPage else 0;
    if pagesAhead >= MaxPagesAhead as int then Wait
    else
      var next := if lastPreCrawled > lastPage + Lead then lastPreCrawled + 1 else lastPage + Lead;
      var maxPage := lastPage + MaxPagesAhead;
      if next > maxPage then Wait
      else Crawl(next, Min(numPages, maxPage - next + 1))
  }

  /**
   * A round waits exactly when the furthest pre-crawled page is `MaxPagesAhead` or more
   * pages ahead: the second test, `next_page > max_page`, never decides anything. When it
   * crawls, it crawls `min(numPages, lastPage + MaxPagesAhead - next + 1)` pages.
   */
  lemma PlanWaitsIff(lastPage: nat, lastPreCrawled: nat, numPages: nat)
    ensures PlanRound(lastPage, lastPreCrawled, numPages).Wait? <==>
              lastPreCrawled != 0 && lastPreCrawled >= lastPage + MaxPagesAhead
    ensures PlanRound(lastPage, lastPreCrawled, numPages).Crawl? ==>
              var r := PlanRound(lastPage, lastPreCrawled, numPages);
              r.count == Min(numPages, lastPage + MaxPagesAhead - r.next + 1)
  {
  }

  /** `cleanup_pre_crawled_pages` selects a row when any of these holds. */
  predicate Stale(completed: CompletedTable, lastSuccessful: nat, page: nat, row: PreRow) {
    page in completed || page < lastSuccessful - StaleDistance
    || row.status == NoImages || row.status == Error
  }

  /** The pages `cleanup_pre_crawled_pages` selects. */
  function CleanupSelection(pre: PreTable, completed: CompletedTable): set<nat> {
    var last := LastSuccessfulPage(completed);
    set p | p in pre && Stale(completed, last, p, pre[p])
  }

  /** `page_url LIKE '%page=N%'` (LIKE ignores the case of ASCII letters). */
  predicate MentionsPage(page: nat, image: ImageRow) {
    Contains(Lower(image.pageUrl), "page=" + NatToString(page))
  }

  /** The URLs passed to `remove_from_cache` for a page: its search page, its images' pages and files. */
  function PageCacheUrls(images: seq<ImageRow>, page: nat): set<string> {
    {Indafoto.SearchUrl(page)}
    + (set image | image in images && MentionsPage(page, image) :: image.pageUrl)
    + (set image | image in images && MentionsPage(page, image) :: image.url)
  }

  /** The URLs passed to `remove_from_cache` for a set of pages. */
  function PagesCacheUrls(images: seq<ImageRow>, pages: set<nat>): set<string> {
    UnionOver(page => PageCacheUrls(images, page), pages)
  }

  /** The page and file of every image in the `images` table. */
  function DownloadedCacheUrls(images: seq<ImageRow>): set<string> {
    (set image | image in images :: image.pageUrl) + (set image | image in images :: image.url)
  }

  /** The completed pages whose URLs `cleanup_completed_pages` passes to `remove_from_cache`. */
  function CompletedPagesWithImages(completed: CompletedTable): set<nat> {
    set p | p in completed && completed[p] > 0
  }

  /**
   * The cleanup deletes exactly the rows of pages that are completed, that lie more than
   * `StaleDistance` pages behind the last completed page with images, or whose status is
   * 'no_images' or 'error'; every other row is kept as it was.
   */
  lemma CleanupSpec(pre: PreTable, completed: CompletedTable, p: nat)
    ensures Lookup(pre - CleanupSelection(pre, completed), p) ==
              if p in pre && Stale(completed, LastSuccessfulPage(completed), p, pre[p]) then None
              else Lookup(pre, p)
  {
  }

  /**
   * After the cleanup, every remaining row has status 'success', is not completed, and lies
   * at most `StaleDistance` pages behind the last completed page with images.
   */
  lemma CleanupLeavesPending(pre: PreTable, completed: CompletedTable, p: nat)
    requires p in pre - CleanupSelection(pre, completed)
    ensures pre[p].status == Success && p !in completed
    ensures p >= LastSuccessfulPage(completed) - StaleDistance
  {
  }

  /** Every page whose row the cleanup deletes has its search page passed to `remove_from_cache`. */
  lemma CleanupRemovesSearchPage(pre: PreTable, completed: CompletedTable, images: seq<ImageRow>, p: nat)
    requires p in pre && Stale(completed, LastSuccessfulPage(completed), p, pre[p])
    ensures Indafoto.SearchUrl(p) in PagesCacheUrls(images, CleanupSelection(pre, completed))
  {
    assert p in CleanupSelection(pre, completed);
    UnionOverMember(page => PageCacheUrls(images, page), CleanupSelection(pre, completed), p, Indafoto.SearchUrl(p));
  }

  /** One page of the cleanup loop: it leaves the table and its URLs join those passed to `remove_from_cache`. */
  lemma CleanupStep(images: seq<ImageRow>, initial: PreTable, selection: set<nat>, todo: set<nat>, page: nat)
    requires page in todo && todo <= selection
    ensures (initial - (selection - todo)) - {page} == initial - (selection - (todo - {page}))
    ensures PagesCacheUrls(images, selection - todo) + PageCacheUrls(images, page)
            == PagesCacheUrls(images, selection - (todo - {page}))
    ensures |todo - {page}| < |todo|
  {
    CleanupStepTable(initial, selection, todo, page);
    CleanupStepUrls(images, selection, todo, page);
  }

  lemma CleanupStepTable(initial: PreTable, selection: set<nat>, todo: set<nat>, page: nat)
    requires page in todo && todo <= selection
    ensures (initial - (selection - todo)) - {page} == initial - (selection - (todo - {page}))
  {
    var done := selection - todo;
    assert selection - (todo - {page}) == done + {page};
    assert initial - (done + {page}) == (initial - done) - {page};
  }

  lemma CleanupStepUrls(images: seq<ImageRow>, selection: set<nat>, todo: set<nat>, page: nat)
    requires page in todo && todo <= selection
    ensures PagesCacheUrls(images, selection - todo) + PageCacheUrls(images, page)
            == PagesCacheUrls(images, selection - (todo - {page}))
  {
    var done := selection - todo;
    assert selection - (todo - {page}) == done + {page};
    UnionOverAdd(p => PageCacheUrls(images, p), done, page);
  }

  /** The pre-crawler's view of `pre_crawled_pages`. */
  class PreCrawler {
    var preCrawled: PreTable

    /** `init_pre_crawled_table` keeps an existing table. */
    constructor (existing: PreTable)
      ensures preCrawled == existing
    {
      preCrawled := existing;
    }

    /**
     * `pre_crawl_pages`: without a start page, start `Lead` pages after the last completed
     * page, and visit `numPages` pages from there.
     */
    method PreCrawlPages(start: Option<nat>, numPages: nat, completed: CompletedTable,
                         links: nat -> nat, clock: nat -> string)
      modifies this
      ensures preCrawled == PreCrawlRange(old(preCrawled), completed,
                                          start.GetOr(LastSuccessfulPage(completed) + Lead),
                                          numPages, links, clock)
    {
      var first: nat;
      if start.None? {
        first := LastSuccessfulPage(completed);
        first := first + Lead;
      } else {
        first := start.value;
      }
      PreCrawlFrom(first, numPages, completed, links, clock);
    }

    /** The loop of `pre_crawl_pages`, from page `first` on. */
    method PreCrawlFrom(first: nat, numPages: nat, completed: CompletedTable,
                        links: nat -> nat, clock: nat -> string)
      modifies this
      ensures preCrawled == PreCrawlRange(old(preCrawled), completed, first, numPages, links, clock)
    {
      ghost var initial := preCrawled;
      for i := 0 to numPages
        invariant preCrawled == PreCrawlRange(initial, completed, first, i, links, clock)
      {
        var page := first + i;
        assert PreCrawlRange(initial, completed, first, i + 1, links, clock) ==
               Visit(preCrawled, completed, page, links(page), clock(page));
        if IsPreCrawled(preCrawled, page) {
          continue;
        }
        if CompletedWithImages(completed, page) {
          continue;
        }
        var found := links(page);
        if found == 0 {
          preCrawled := preCrawled[page := PreRow(clock(page), 0, NoImages)];
          continue;
        }
        preCrawled := preCrawled[page := PreRow(clock(page), found, Success)];
      }
    }

    /**
     * `cleanup_pre_crawled_pages`: select the stale rows, then for each pass its URLs to
     * `remove_from_cache` and delete it. The result is the set of URLs passed.
     */
    method CleanupPreCrawled(completed: CompletedTable, images: seq<ImageRow>) returns (removals: set<string>)
      modifies this
      ensures var selection := CleanupSelection(old(preCrawled), completed);
              preCrawled == old(preCrawled) - selection && removals == PagesCacheUrls(images, selection)
    {
      var selection := CleanupSelection(preCrawled, completed);
      ghost var initial := preCrawled;
      var todo := selection;
      removals := {};
      while todo != {}
        invariant todo <= selection
        invariant preCrawled == initial - (selection - todo)
        invariant removals == PagesCacheUrls(images, selection - todo)
        decreases |todo|
      {
        var page :| page in todo;
        CleanupStep(images, initial, selection, todo, page);
        removals := removals + PageCacheUrls(images, page);
        preCrawled := preCrawled - {page};
        todo := todo - {page};
      }
      assert selection - {} == selection;
    }

    /**
     * `cleanup_completed_pages`: pass to `remove_from_cache` the URLs of every completed page
     * with images, then the page and file of every image, then run `cleanup_pre_crawled_pages`.
     */
    method CleanupCompleted(completed: CompletedTable, images: seq<ImageRow>) returns (removals: set<string>)
      modifies this
      ensures var selection := CleanupSelection(old(preCrawled), completed);
              preCrawled == old(preCrawled) - selection
              && removals == PagesCacheUrls(images, CompletedPagesWithImages(completed))
                              + DownloadedCacheUrls(images) + PagesCacheUrls(images, selection)
    {
      removals := PagesCacheUrls(images, CompletedPagesWithImages(completed)) + DownloadedCacheUrls(images);
      var rest := CleanupPreCrawled(completed, images);
      removals := removals + rest;
    }

    /**
     * One round of `continuous_pre_crawl`: read both last pages, decide, and either wait or
     * pre-crawl the planned pages and clean up.
     */
    method Round(numPages: nat, completed: CompletedTable, images: seq<ImageRow>,
                 links: nat -> nat, clock: nat -> string) returns (plan: Plan)
      modifies this
      ensures plan == PlanRound(LastSuccessfulPage(completed), LastPreCrawledPage(old(preCrawled)), numPages)
      ensures plan.Wait? ==> preCrawled == old(preCrawled)
      ensures plan.Crawl? ==>
                var crawled := PreCrawlRange(old(preCrawled), completed, plan.next, plan.count, links, clock);
                preCrawled == crawled - CleanupSelection(crawled, completed)
    {
      var lastPage := LastSuccessfulPage(completed);
      var lastPreCrawled := LastPreCrawledPage(preCrawled);
      var pagesAhead := if lastPreCrawled != 0 then lastPreCrawled - lastPage else 0;
      if pagesAhead >= MaxPagesAhead as int {
        return Wait;
      }
      var next := lastPage + Lead;
      if lastPreCrawled > next {
        next := lastPreCrawled + 1;
      }
      var maxPage := lastPage + MaxPagesAhead;
      if next > maxPage {
        return Wait;
      }
      var count := Min(numPages, maxPage - next + 1);
      PreCrawlPages(Some(next), count, completed, links, clock);
      var removals := CleanupCompleted(completed, images);
      plan := Crawl(next, count);
    }
  }
}
