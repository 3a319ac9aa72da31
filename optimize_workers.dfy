/**
 * The worker-count optimiser (optimize_workers.py): the list of worker
 * counts to try, the choice of a test page with new images, the success rate
 * of a test, the stopping rule of the test loop and the choice of the best
 * count.
 *
 * What one test measures (the speed, and the counts that `process_image_list`
 * reports) is given: it depends on the network, the clock and the disk. The
 * search page of a page number is given as its image links, and the image id
 * of a URL as a function.
 */
module OptimizeWorkers {
  import opened Wrappers
  import opened Text

  const MinSuccessRate: real := 0.95

  // ---------------------------------------------------------------------------------------
  // The worker counts

  /** `range(lo, hi, 2)`. */
  function Steps(lo: int, hi: int): seq<int>
    decreases hi - lo
  {
    if lo >= hi then [] else [lo] + Steps(lo + 2, hi)
  }

  lemma {:induction false} StepsMembers(lo: int, hi: int, x: int)
    ensures x in Steps(lo, hi) <==> lo <= x < hi && (x - lo) % 2 == 0
    decreases hi - lo
  {
    if lo < hi {
      StepsMembers(lo + 2, hi, x);
    }
  }

  /** Every integer from `lo` to `hi`, in increasing order. */
  function Interval(lo: int, hi: int): (r: seq<int>)
    ensures |r| == (if lo <= hi then hi - lo + 1 else 0)
    ensures forall i :: 0 <= i < |r| ==> r[i] == lo + i
  {
    if lo > hi then [] else seq(hi - lo + 1, i => lo + i)
  }

  predicate Increasing(s: seq<int>) {
    forall i, j :: 0 <= i < j < |s| ==> s[i] < s[j]
  }

  /**
   * `sorted(set(range(lo, hi + 1, 2) + range(lo + 1, hi + 1, 2)))`: the two
   * ranges together hold exactly the integers from `lo` to `hi`, and the
   * interval lists them in increasing order.
   */
  lemma WorkerCountsCover(lo: int, hi: int)
    ensures forall x :: x in Steps(lo, hi + 1) + Steps(lo + 1, hi + 1) <==> x in Interval(lo, hi)
    ensures Increasing(Interval(lo, hi))
  {
    forall x ensures x in Steps(lo, hi + 1) + Steps(lo + 1, hi + 1) <==> x in Interval(lo, hi) {
      StepsMembers(lo, hi + 1, x);
      StepsMembers(lo + 1, hi + 1, x);
      if lo <= x <= hi {
        assert Interval(lo, hi)[x - lo] == x;
      }
    }
  }

  /** In two increasing lists with the same first element, a later element of one that the other holds is a later element of the other. */
  lemma TailMember(a: seq<int>, b: seq<int>, x: int)
    requires |a| > 0 && |b| > 0 && Increasing(a) && Increasing(b) && a[0] == b[0]
    requires x in a[1..] && x in b
    ensures x in b[1..]
  {
    var i' :| 0 <= i' < |a| - 1 && a[1..][i'] == x;
    assert a[0] < a[i' + 1] == x;
    var j :| 0 <= j < |b| && b[j] == x;
    assert j != 0;
    assert b[1..][j - 1] == x;
  }

  /** A sorted list of distinct numbers is fixed by its elements: `sorted(set(...))` has one answer. */
  lemma {:induction false} IncreasingUnique(a: seq<int>, b: seq<int>)
    requires Increasing(a) && Increasing(b)
    requires forall x :: x in a <==> x in b
    ensures a == b
  {
    if |a| > 0 {
      assert a[0] in a && a[0] in b;
    }
    if |b| > 0 {
      assert b[0] in b && b[0] in a;
    }
    if |a| > 0 {
      assert a[0] == b[0];
      forall x ensures x in a[1..] <==> x in b[1..] {
        if x in a[1..] {
          TailMember(a, b, x);
        }
        if x in b[1..] {
          TailMember(b, a, x);
        }
      }
      IncreasingUnique(a[1..], b[1..]);
      assert a == [a[0]] + a[1..] && b == [b[0]] + b[1..];
    }
  }

  // ---------------------------------------------------------------------------------------
  // The test page

  /** `get_next_test_page`: one past the highest completed page, or 0 when none is completed. */
  function NextTestPage(completed: seq<int>): (r: int)
    ensures |completed| == 0 ==> r == 0
    ensures |completed| > 0 ==> r - 1 in completed && forall p :: p in completed ==> p < r
  {
    if |completed| == 0 then 0
    else
      var rest := NextTestPage(completed[1..]);
      assert forall p :: p in completed ==> p == completed[0] || p in completed[1..];
      if |completed| > 1 && rest > completed[0] + 1 then rest else completed[0] + 1
  }

  /** One image of a search page; the URL is empty when the dictionary has none. */
  datatype ImageLink = ImageLink(imageUrl: string)

  /**
   * `url LIKE '%<id>%'`: the id occurs in the URL, ASCII letters compared
   * without regard to case.
   */
  predicate Like(url: string, id: string) {
    Contains(Lower(url), Lower(id))
  }

  /** An image counts as new when its URL has a non-empty image id that no stored URL contains. */
  predicate IsNew(link: ImageLink, imageId: string -> Option<string>, urls: seq<string>) {
    && link.imageUrl != ""
    && imageId(link.imageUrl).Some? && imageId(link.imageUrl).value != ""
    && forall u :: u in urls ==> !Like(u, imageId(link.imageUrl).value)
  }

  /** The number of new images on a page. */
  function NewCount(links: seq<ImageLink>, imageId: string -> Option<string>, urls: seq<string>): nat {
    if |links| == 0 then 0
    else NewCount(links[..|links| - 1], imageId, urls) + (if IsNew(links[|links| - 1], imageId, urls) then 1 else 0)
  }

  /** Every new image of a page adds one to its count; a page with none counts zero. */
  lemma {:induction false} NewCountZero(links: seq<ImageLink>, imageId: string -> Option<string>, urls: seq<string>)
    ensures NewCount(links, imageId, urls) == 0 <==> forall i :: 0 <= i < |links| ==> !IsNew(links[i], imageId, urls)
  {
    if |links| > 0 {
      NewCountZero(links[..|links| - 1], imageId, urls);
    }
  }

  // ---------------------------------------------------------------------------------------
  // One test

  /** What `process_image_list` reports. */
  datatype Stats = Stats(totalImages: nat, processed: nat, failed: nat, skipped: nat)

  /** `success_rate`: the processed share of the images that were actually downloaded, or 0 when there were none. */
  function SuccessRate(s: Stats): real {
    var downloads := s.totalImages as int - s.skipped as int;
    if downloads > 0 then s.processed as real / downloads as real else 0.0
  }

  /** A share of a positive whole is never negative. */
  lemma DivNonneg(p: real, d: real)
    requires p >= 0.0 && d > 0.0
    ensures p / d >= 0.0
  {
  }

  /** A share of a positive whole is at most one. */
  lemma DivAtMostOne(p: real, d: real)
    requires p <= d && d > 0.0
    ensures p / d <= 1.0
  {
  }

  /** A share of a positive whole is one exactly for the whole. */
  lemma DivOne(p: real, d: real)
    requires d > 0.0
    ensures p / d == 1.0 <==> p == d
  {
  }

  /** The rate lies between 0 and 1 when no more images were processed than downloaded, and is 1 exactly when all were. */
  lemma SuccessRateBounds(s: Stats)
    requires s.processed + s.skipped <= s.totalImages
    ensures 0.0 <= SuccessRate(s) <= 1.0
    ensures SuccessRate(s) == 1.0 <==> s.processed > 0 && s.processed + s.skipped == s.totalImages
  {
    var downloads := s.totalImages as int - s.skipped as int;
    if downloads > 0 {
      var p, d := s.processed as real, downloads as real;
      DivNonneg(p, d);
      DivAtMostOne(p, d);
      DivOne(p, d);
    }
  }

  /** The metrics of one test. */
  datatype Metrics = Metrics(workerCount: int, speed: real, successRate: real, processed: nat, failed: nat,
                             skipped: nat, totalImages: nat, totalDownloads: int, testPage: int)

  function MetricsOf(k: int, speed: real, s: Stats, page: int): (m: Metrics)
    ensures m.successRate == SuccessRate(s) && m.totalDownloads == s.totalImages - s.skipped
  {
    Metrics(k, speed, SuccessRate(s), s.processed, s.failed, s.skipped, s.totalImages, s.totalImages - s.skipped, page)
  }

  // ---------------------------------------------------------------------------------------
  // The test loop and the best count

  /** A test is significantly worse than the previous one: 20% slower or a 10% lower success rate. */
  predicate Degraded(prev: Metrics, cur: Metrics) {
    cur.speed < prev.speed * 0.8 || cur.successRate < prev.successRate * 0.9
  }

  /**
   * `optimization_data['worker_counts']`: the metrics stored under each count,
   * and the counts in the order the dictionary iterates them (insertion
   * order; storing a count again keeps its place).
   */
  datatype Counts = Counts(order: seq<int>, metrics: map<int, Metrics>)

  /** The order lists every stored count exactly once. */
  ghost predicate WellFormed(c: Counts) {
    && (forall i, j :: 0 <= i < j < |c.order| ==> c.order[i] != c.order[j])
    && (forall k :: k in c.order <==> k in c.metrics)
  }

  /** `worker_counts[str(k)] = m`. */
  function Put(c: Counts, k: int, m: Metrics): Counts {
    Counts(if k in c.metrics then c.order else c.order + [k], c.metrics[k := m])
  }

  /** Storing keeps the order well formed, keeps the place of every earlier count, and puts a new count last. */
  lemma PutKeepsOrder(c: Counts, k: int, m: Metrics)
    requires WellFormed(c)
    ensures var r := Put(c, k, m);
      && WellFormed(r) && r.order[..|c.order|] == c.order
      && (k in c.metrics <==> |r.order| == |c.order|)
      && (k !in c.metrics ==> r.order[|c.order|] == k)
  {
    var r := Put(c, k, m);
    if k !in c.metrics {
      assert r.order[..|c.order|] == c.order;
      forall x ensures x in r.order <==> x in r.metrics {
        assert x in r.order <==> x in c.order || x == k;
      }
    }
  }

  /**
   * The test loop over `ws`: each count's metrics are stored under it, and the
   * loop stops after a count that is degraded against the stored metrics of
   * the count below it.
   */
  function Run(d: Counts, ws: seq<int>, min: int, measure: int -> Metrics): Counts
    decreases |ws|
  {
    if |ws| == 0 then d
    else
      var k := ws[0];
      var d' := Put(d, k, measure(k));
      if DegradedIn(d', k, min, measure(k)) then d'
      else Run(d', ws[1..], min, measure)
  }

  /** The stored metrics of the count below `k` are worse than `m`. */
  predicate DegradedIn(d: Counts, k: int, min: int, m: Metrics) {
    k > min && k - 1 in d.metrics && Degraded(d.metrics[k - 1], m)
  }

  /** One turn of the test loop. */
  lemma RunStep(d: Counts, ws: seq<int>, min: int, measure: int -> Metrics)
    requires |ws| > 0
    ensures var d' := Put(d, ws[0], measure(ws[0]));
      Run(d, ws, min, measure) == if DegradedIn(d', ws[0], min, measure(ws[0])) then d' else Run(d', ws[1..], min, measure)
  {
  }

  /** The counts tried from `lo`: up to and including the first one worse than the count below it. */
  function Tested(lo: int, hi: int, min: int, measure: int -> Metrics): seq<int>
    decreases hi - lo
  {
    if lo > hi then []
    else if lo > min && Degraded(measure(lo - 1), measure(lo)) then [lo]
    else [lo] + Tested(lo + 1, hi, min, measure)
  }

  /** Storing the metrics of each count in turn. */
  function PutAll(d: Counts, ks: seq<int>, measure: int -> Metrics): Counts
    decreases |ks|
  {
    if |ks| == 0 then d else PutAll(Put(d, ks[0], measure(ks[0])), ks[1..], measure)
  }

  /** After storing `ks`, each of them holds its own metrics and every other count keeps what it had. */
  lemma {:induction false} PutAllStores(d: Counts, ks: seq<int>, measure: int -> Metrics, k: int)
    ensures var r := PutAll(d, ks, measure);
      && (k in r.metrics <==> k in d.metrics || k in ks)
      && (k in ks ==> r.metrics[k] == measure(k))
      && (k !in ks && k in d.metrics ==> r.metrics[k] == d.metrics[k])
    decreases |ks|
  {
    if |ks| > 0 {
      PutAllStores(Put(d, ks[0], measure(ks[0])), ks[1..], measure, k);
      assert k in ks <==> k == ks[0] || k in ks[1..];
    }
  }

  /** From any point of the interval, the loop stores exactly the counts `Tested` names. */
  lemma {:induction false} RunFrom(d: Counts, lo: int, hi: int, min: int, measure: int -> Metrics)
    requires min <= lo
    requires lo > min ==> lo - 1 in d.metrics && d.metrics[lo - 1] == measure(lo - 1)
    ensures Run(d, Interval(lo, hi), min, measure) == PutAll(d, Tested(lo, hi, min, measure), measure)
    decreases hi - lo
  {
    if lo <= hi {
      var d' := Put(d, lo, measure(lo));
      assert Interval(lo, hi)[0] == lo && Interval(lo, hi)[1..] == Interval(lo + 1, hi);
      if lo > min && Degraded(measure(lo - 1), measure(lo)) {
        assert Tested(lo, hi, min, measure) == [lo];
        assert PutAll(d, [lo], measure) == PutAll(d', [], measure);
      } else {
        RunFrom(d', lo + 1, hi, min, measure);
        assert Tested(lo, hi, min, measure) == [lo] + Tested(lo + 1, hi, min, measure);
      }
    } else {
      assert Interval(lo, hi) == [];
    }
  }

  /** A count is worse than the one below it, and not the lowest. */
  predicate WorseThanBelow(k: int, min: int, measure: int -> Metrics) {
    k > min && Degraded(measure(k - 1), measure(k))
  }

  /** The tests run from `lo` to `j`: none of them worse before `j`, and `j` is `hi` or worse itself. */
  predicate StopsAt(lo: int, hi: int, min: int, measure: int -> Metrics, j: int) {
    && lo <= j <= hi && Tested(lo, hi, min, measure) == Interval(lo, j)
    && (forall k :: lo <= k < j ==> !WorseThanBelow(k, min, measure))
    && (j < hi ==> WorseThanBelow(j, min, measure))
  }

  /**
   * The loop stops at the first count that is degraded against the one below
   * it: it tries every count from `lo` up to some `j`, none of them degraded
   * before `j`, and `j` is either `hi` or degraded itself.
   */
  lemma {:induction false} TestedStopsAtFirstDrop(lo: int, hi: int, min: int, measure: int -> Metrics)
    requires min <= lo <= hi
    ensures exists j :: StopsAt(lo, hi, min, measure, j)
    decreases hi - lo
  {
    if WorseThanBelow(lo, min, measure) {
      assert Tested(lo, hi, min, measure) == Interval(lo, lo);
      assert StopsAt(lo, hi, min, measure, lo);
    } else if lo == hi {
      assert Tested(lo + 1, hi, min, measure) == [];
      assert Tested(lo, hi, min, measure) == [lo] == Interval(lo, lo);
      assert StopsAt(lo, hi, min, measure, lo);
    } else {
      TestedStopsAtFirstDrop(lo + 1, hi, min, measure);
      var j :| StopsAt(lo + 1, hi, min, measure, j);
      assert [lo] + Interval(lo + 1, j) == Interval(lo, j);
      assert StopsAt(lo, hi, min, measure, j);
    }
  }

  /**
   * The whole test loop from the lowest count: it stores the metrics of every
   * count from `min` up to the first one worse than the count below it (or
   * `max`), and every other count keeps what the loaded data had.
   */
  lemma TestLoopStores(d: Counts, min: int, max: int, measure: int -> Metrics, k: int)
    requires min <= max
    ensures exists j :: (
      && StopsAt(min, max, min, measure, j)
      && var r := Run(d, Interval(min, max), min, measure);
         && (k in r.metrics <==> k in d.metrics || min <= k <= j)
         && (min <= k <= j ==> r.metrics[k] == measure(k))
         && (!(min <= k <= j) && k in d.metrics ==> r.metrics[k] == d.metrics[k]))
  {
    TestedStopsAtFirstDrop(min, max, min, measure);
    var j :| StopsAt(min, max, min, measure, j);
    RunFrom(d, min, max, min, measure);
    PutAllStores(d, Interval(min, j), measure, k);
    if min <= k <= j {
      assert Interval(min, j)[k - min] == k;
    }
  }

  /** The test loop keeps the order of the counts well formed. */
  lemma {:induction false} RunKeepsOrder(d: Counts, ws: seq<int>, min: int, measure: int -> Metrics)
    requires WellFormed(d)
    ensures WellFormed(Run(d, ws, min, measure))
    decreases |ws|
  {
    if |ws| > 0 {
      PutKeepsOrder(d, ws[0], measure(ws[0]));
      RunKeepsOrder(Put(d, ws[0], measure(ws[0])), ws[1..], min, measure);
    }
  }

  /** The count a test qualifies for: a success rate of at least 95%. */
  predicate Qualifies(m: Metrics) {
    m.successRate >= MinSuccessRate
  }

  /** The best count so far and its speed. */
  datatype Pick = Pick(count: Option<int>, speed: real)

  /** The count has stored metrics that qualify. */
  predicate QualifiedIn(metrics: map<int, Metrics>, k: int) {
    k in metrics && Qualifies(metrics[k])
  }

  /** The best-count loop over the stored metrics, in the dictionary's order. */
  function Best(order: seq<int>, metrics: map<int, Metrics>): Pick {
    if |order| == 0 then Pick(None, 0.0)
    else
      var p := Best(order[..|order| - 1], metrics);
      var k := order[|order| - 1];
      if QualifiedIn(metrics, k) && metrics[k].speed > p.speed then Pick(Some(k), metrics[k].speed) else p
  }

  /**
   * The best count is the first qualifying count of the greatest speed, which
   * must be above zero; there is none exactly when no qualifying test was faster than zero.
   */
  lemma {:induction false} BestIsFirstFastest(order: seq<int>, metrics: map<int, Metrics>)
    ensures var p := Best(order, metrics);
      && (p.count.None? <==> forall i :: 0 <= i < |order| ==> !(QualifiedIn(metrics, order[i]) && metrics[order[i]].speed > 0.0))
      && (p.count.None? ==> p.speed == 0.0)
      && (p.count.Some? ==> exists i :: (
            && 0 <= i < |order| && order[i] == p.count.value && QualifiedIn(metrics, order[i])
            && metrics[order[i]].speed == p.speed && p.speed > 0.0
            && (forall j :: 0 <= j < |order| && QualifiedIn(metrics, order[j]) ==> metrics[order[j]].speed <= p.speed)
            && (forall j :: 0 <= j < i && QualifiedIn(metrics, order[j]) ==> metrics[order[j]].speed < p.speed)))
  {
    if |order| > 0 {
      var init := order[..|order| - 1];
      BestIsFirstFastest(init, metrics);
      assert forall i :: 0 <= i < |init| ==> init[i] == order[i];
      var p := Best(init, metrics);
      var k := order[|order| - 1];
      if !(QualifiedIn(metrics, k) && metrics[k].speed > p.speed) && p.count.Some? {
        var i :| && 0 <= i < |init| && init[i] == p.count.value && QualifiedIn(metrics, init[i])
                 && metrics[init[i]].speed == p.speed && p.speed > 0.0
                 && (forall j :: 0 <= j < |init| && QualifiedIn(metrics, init[j]) ==> metrics[init[j]].speed <= p.speed)
                 && (forall j :: 0 <= j < i && QualifiedIn(metrics, init[j]) ==> metrics[init[j]].speed < p.speed);
        assert order[i] == init[i];
      }
    }
  }

  /** The optimisation data as written to the file. */
  datatype Saved = Saved(counts: Counts, best: Option<int>, lastOptimization: Option<string>)

  // ---------------------------------------------------------------------------------------
  // The optimiser

  /** `WorkerOptimizer`: its bounds, the optimisation data, the last file written, and what it reads of the database. */
  class WorkerOptimizer {
    var minWorkers: int
    var maxWorkers: int
    var initialWorkers: int
    var counts: Counts
    var best: Option<int>
    var lastOptimization: Option<string>
    var saved: Option<Saved>
    var completedPages: seq<int>
    var imageUrls: seq<string>

    constructor (min: int, max: int, initial: int, loaded: Saved, completed: seq<int>, urls: seq<string>)
      ensures minWorkers == min && maxWorkers == max && initialWorkers == initial
      ensures counts == loaded.counts && best == loaded.best && lastOptimization == loaded.lastOptimization
      ensures saved == None && completedPages == completed && imageUrls == urls
    {
      minWorkers, maxWorkers, initialWorkers := min, max, initial;
      counts, best, lastOptimization := loaded.counts, loaded.best, loaded.lastOptimization;
      saved := None;
      completedPages, imageUrls := completed, urls;
    }

    /** The bounds and what is read of the database stay as they were. */
    twostate predicate Unchanged()
      reads this
    {
      && minWorkers == old(minWorkers) && maxWorkers == old(maxWorkers) && initialWorkers == old(initialWorkers)
      && completedPages == old(completedPages) && imageUrls == old(imageUrls)
    }

    /** The inner loop of `test_worker_count`: the number of new images on a page. */
    method CountNew(links: seq<ImageLink>, imageId: string -> Option<string>) returns (n: nat)
      ensures n == NewCount(links, imageId, imageUrls)
    {
      n := 0;
      for i := 0 to |links|
        invariant n == NewCount(links[..i], imageId, imageUrls)
      {
        assert links[..i + 1][..i] == links[..i];
        var url := links[i].imageUrl;
        if url == "" {
          continue;
        }
        var id := imageId(url);
        if id.None? || id.value == "" {
          continue;
        }
        var known := exists u :: u in imageUrls && Like(u, id.value);
        if !known {
          n := n + 1;
        }
      }
      assert links[..|links|] == links;
    }

    /**
     * The page loop of `test_worker_count`: from the next test page on, the
     * first page with a new image. `target` is a page at or after the start
     * with a new image; without one the loop does not end.
     */
    method FindTestPage(pages: int -> seq<ImageLink>, imageId: string -> Option<string>, ghost target: int) returns (page: int)
      requires NextTestPage(completedPages) <= target && NewCount(pages(target), imageId, imageUrls) > 0
      ensures NextTestPage(completedPages) <= page && NewCount(pages(page), imageId, imageUrls) > 0
      ensures forall p :: NextTestPage(completedPages) <= p < page ==> NewCount(pages(p), imageId, imageUrls) == 0
    {
      page := NextTestPage(completedPages);
      while true
        invariant NextTestPage(completedPages) <= page <= target
        invariant forall p :: NextTestPage(completedPages) <= p < page ==> NewCount(pages(p), imageId, imageUrls) == 0
        decreases target - page
      {
        var links := pages(page);
        if |links| == 0 {
          page := page + 1;
          continue;
        }
        var n := CountNew(links, imageId);
        if n > 0 {
          return;
        }
        page := page + 1;
      }
    }

    /** `test_worker_count`: the metrics of a test on the first page with new images. */
    method TestWorkerCount(k: int, pages: int -> seq<ImageLink>, imageId: string -> Option<string>,
                           speed: real, process: seq<ImageLink> -> Stats, ghost target: int) returns (m: Metrics)
      requires NextTestPage(completedPages) <= target && NewCount(pages(target), imageId, imageUrls) > 0
      ensures m.workerCount == k && m.speed == speed && NextTestPage(completedPages) <= m.testPage
      ensures NewCount(pages(m.testPage), imageId, imageUrls) > 0
      ensures forall p :: NextTestPage(completedPages) <= p < m.testPage ==> NewCount(pages(p), imageId, imageUrls) == 0
      ensures m == MetricsOf(k, speed, process(pages(m.testPage)), m.testPage)
    {
      var page := FindTestPage(pages, imageId, target);
      var stats := process(pages(page));
      m := MetricsOf(k, speed, stats, page);
    }

    /** The test loop of `optimize_workers`, on a copy of the stored counts. */
    method RunTests(ws: seq<int>, measure: int -> Metrics) returns (d: Counts)
      ensures d == Run(counts, ws, minWorkers, measure)
    {
      d := counts;
      for i := 0 to |ws|
        invariant Run(d, ws[i..], minWorkers, measure) == Run(counts, ws, minWorkers, measure)
      {
        var k := ws[i];
        var metrics := measure(k);
        RunStep(d, ws[i..], minWorkers, measure);
        assert ws[i..][0] == k && ws[i..][1..] == ws[i + 1..];
        d := Put(d, k, metrics);
        if DegradedIn(d, k, minWorkers, metrics) {
          return;
        }
      }
      assert ws[|ws|..] == [];
    }

    /** The test loop of `optimize_workers`: it stores what it measures. */
    method TestCounts(ws: seq<int>, measure: int -> Metrics)
      modifies this
      ensures counts == Run(old(counts), ws, minWorkers, measure)
      ensures best == old(best) && lastOptimization == old(lastOptimization) && saved == old(saved)
      ensures Unchanged()
    {
      counts := RunTests(ws, measure);
    }

    /** The best-count loop of `optimize_workers`. */
    method BestWorkerCount() returns (p: Pick)
      ensures p == Best(counts.order, counts.metrics)
    {
      p := Pick(None, 0.0);
      for i := 0 to |counts.order|
        invariant p == Best(counts.order[..i], counts.metrics)
      {
        assert counts.order[..i + 1][..i] == counts.order[..i];
        var k := counts.order[i];
        if k in counts.metrics && Qualifies(counts.metrics[k]) && counts.metrics[k].speed > p.speed {
          p := Pick(Some(k), counts.metrics[k].speed);
        }
      }
      assert counts.order[..|counts.order|] == counts.order;
    }

    /**
     * `optimize_workers`: tests the interval of counts, then returns the best
     * count and saves the data when there is one (a best count of 0 is not
     * truthy and counts as none); otherwise returns the initial count and saves nothing.
     */
    method OptimizeWorkers(measure: int -> Metrics, now: string) returns (r: int)
      modifies this
      ensures counts == Run(old(counts), Interval(minWorkers, maxWorkers), minWorkers, measure)
      ensures Unchanged()
      ensures var b := Best(counts.order, counts.metrics).count;
        && (b.Some? && b.value != 0 ==>
              r == b.value && best == b && lastOptimization == Some(now) && saved == Some(Saved(counts, best, lastOptimization)))
        && (!(b.Some? && b.value != 0) ==>
              r == initialWorkers && best == old(best) && lastOptimization == old(lastOptimization) && saved == old(saved))
    {
      TestCounts(Interval(minWorkers, maxWorkers), measure);
      var p := BestWorkerCount();
      if p.count.Some? && p.count.value != 0 {
        best := p.count;
        lastOptimization := Some(now);
        saved := Some(Saved(counts, best, lastOptimization));
        return p.count.value;
      }
      return initialWorkers;
    }
  }
}
