/**
 * Metadata reprocessing: images that have no tag, album or collection links are fetched
 * again, and the collections, albums and tags of their fresh metadata are found or
 * created in the catalogue tables and linked to the image.
 */
module ReprocessMetadata {
  import opened Wrappers
  import opened Seqs

  /** The columns of a `collections` or `albums` row besides its key. */
  datatype Listing = Listing(title: string, url: string, isPublic: bool)

  /**
   * One element of a metadata list: an entry with its key (`id` of a collection or album,
   * `name` of a tag) and its other columns, or an entry that lacks a field the insert
   * reads, which raises before anything is written.
   */
  datatype Entry<R> = Entry(key: string, fields: R) | Malformed

  /** The parts of a page's metadata this tool stores; a missing list is empty. */
  datatype Metadata = Metadata(collections: seq<Entry<Listing>>, albums: seq<Entry<Listing>>,
                               tags: seq<Entry<int>>)

  /** A join table: (image id, catalogue key) pairs, each at most once. */
  type Links = set<(nat, string)>

  /** A row of `images`, as far as this tool reads and writes it. */
  datatype ImageRow = ImageRow(pageUrl: Option<string>, metadataUpdated: Option<string>)

  /**
   * The tables the tool touches. Catalogue rows are keyed by their natural key
   * (`collection_id`, `album_id`, tag `name`); join tables pair image ids with those keys.
   */
  datatype Catalog = Catalog(collections: map<string, Listing>, albums: map<string, Listing>,
                             tags: map<string, int>, imageCollections: Links,
                             imageAlbums: Links, imageTags: Links, images: map<nat, ImageRow>)

  /** One kind's catalogue table and join table after an insert loop, and the loop's counter. */
  datatype Added<R> = Added(table: map<string, R>, links: Links, count: nat)

  /** What `process_metadata_without_download` reports. */
  datatype Outcome = ExtractFailed | Processed(tags: nat, collections: nat, albums: nat)

  /** An entry with key `k`. */
  predicate Named<R>(e: Entry<R>, k: string) {
    e.Entry? && e.key == k
  }

  /** The keys of the well-formed entries. */
  function KeysOf<R>(entries: seq<Entry<R>>): (r: set<string>)
    ensures forall k :: k in r <==> exists i :: 0 <= i < |entries| && Named(entries[i], k)
  {
    if |entries| == 0 then {}
    else
      var init := entries[..|entries| - 1];
      var last := entries[|entries| - 1];
      assert forall i :: 0 <= i < |init| ==> init[i] == entries[i];
      KeysOf(init) + (if last.Entry? then {last.key} else {})
  }

  /** The links of `image` to each key. */
  function Pairs(image: nat, keys: set<string>): Links {
    set k | k in keys :: (image, k)
  }

  /**
   * One step of the insert loop: `INSERT OR IGNORE` the catalogue row, link it to the
   * image (`INSERT OR IGNORE` again) and count the entry; a malformed entry is skipped.
   */
  function AddEntry<R>(a: Added<R>, image: nat, e: Entry<R>): Added<R> {
    match e
    case Malformed => a
    case Entry(k, f) =>
      Added(if k in a.table then a.table else a.table[k := f], a.links + {(image, k)}, a.count + 1)
  }

  /** The insert loop over one metadata list, from the empty counter. */
  function AddEntries<R>(table: map<string, R>, links: Links, image: nat,
                         entries: seq<Entry<R>>): Added<R>
  {
    if |entries| == 0 then Added(table, links, 0)
    else AddEntry(AddEntries(table, links, image, entries[..|entries| - 1]), image, entries[|entries| - 1])
  }

  /** The insert loop keeps every existing row as it was: `INSERT OR IGNORE` never updates. */
  lemma {:induction false} AddEntriesKeeps<R>(table: map<string, R>, links: Links, image: nat,
                                             entries: seq<Entry<R>>, k: string)
    requires k in table
    ensures k in AddEntries(table, links, image, entries).table
    ensures AddEntries(table, links, image, entries).table[k] == table[k]
  {
    if |entries| > 0 {
      AddEntriesKeeps(table, links, image, entries[..|entries| - 1], k);
    }
  }

  /** After the loop the catalogue holds exactly the old keys and the keys of the entries. */
  lemma {:induction false} AddEntriesKeys<R>(table: map<string, R>, links: Links, image: nat,
                                            entries: seq<Entry<R>>)
    ensures AddEntries(table, links, image, entries).table.Keys == table.Keys + KeysOf(entries)
  {
    if |entries| > 0 {
      AddEntriesKeys(table, links, image, entries[..|entries| - 1]);
    }
  }

  /** A new key gets the columns of the first entry that names it. */
  lemma {:induction false} AddEntriesFirst<R>(table: map<string, R>, links: Links, image: nat,
                                             entries: seq<Entry<R>>, k: string)
    requires k !in table && k in KeysOf(entries)
    ensures var r := AddEntries(table, links, image, entries);
      k in r.table &&
      exists i :: 0 <= i < |entries| && entries[i] == Entry(k, r.table[k]) &&
        forall j :: 0 <= j < i ==> !Named(entries[j], k)
  {
    var init := entries[..|entries| - 1];
    var last := entries[|entries| - 1];
    var a := AddEntries(table, links, image, init);
    var r := AddEntries(table, links, image, entries);
    assert forall i :: 0 <= i < |init| ==> init[i] == entries[i];
    AddEntriesKeys(table, links, image, init);
    if k in KeysOf(init) {
      AddEntriesFirst(table, links, image, init, k);
      var i :| 0 <= i < |init| && init[i] == Entry(k, a.table[k]) &&
               forall j :: 0 <= j < i ==> !Named(init[j], k);
      assert entries[i] == Entry(k, r.table[k]);
    } else {
      assert last == Entry(k, r.table[k]);
      assert forall j :: 0 <= j < |init| ==> !Named(entries[j], k);
    }
  }

  /** The loop links the image to the key of every well-formed entry, existing links kept. */
  lemma {:induction false} AddEntriesLinks<R>(table: map<string, R>, links: Links, image: nat,
                                             entries: seq<Entry<R>>)
    ensures AddEntries(table, links, image, entries).links == links + Pairs(image, KeysOf(entries))
  {
    if |entries| > 0 {
      AddEntriesLinks(table, links, image, entries[..|entries| - 1]);
    }
  }

  /** The counter counts every well-formed entry, also those whose link already existed. */
  lemma {:induction false} AddEntriesCounts<R(!new)>(table: map<string, R>, links: Links, image: nat,
                                                    entries: seq<Entry<R>>)
    ensures AddEntries(table, links, image, entries).count == |Filter((e: Entry<R>) => e.Entry?, entries)|
  {
    if |entries| > 0 {
      AddEntriesCounts(table, links, image, entries[..|entries| - 1]);
    }
  }

  /** When every key is already catalogued and linked, the loop changes no table. */
  lemma {:induction false} AddEntriesUnchanged<R>(table: map<string, R>, links: Links, image: nat,
                                                  entries: seq<Entry<R>>)
    requires KeysOf(entries) <= table.Keys && Pairs(image, KeysOf(entries)) <= links
    ensures AddEntries(table, links, image, entries).table == table
    ensures AddEntries(table, links, image, entries).links == links
  {
    if |entries| > 0 {
      var init := entries[..|entries| - 1];
      var last := entries[|entries| - 1];
      assert KeysOf(entries) == KeysOf(init) + (if last.Entry? then {last.key} else {});
      AddEntriesUnchanged(table, links, image, init);
      if last.Entry? {
        assert (image, last.key) in Pairs(image, KeysOf(entries));
      }
    }
  }

  /** The counter depends on the entries alone. */
  lemma {:induction false} AddEntriesCount<R>(t1: map<string, R>, l1: Links, t2: map<string, R>,
                                             l2: Links, image: nat, entries: seq<Entry<R>>)
    ensures AddEntries(t1, l1, image, entries).count == AddEntries(t2, l2, image, entries).count
  {
    if |entries| > 0 {
      AddEntriesCount(t1, l1, t2, l2, image, entries[..|entries| - 1]);
    }
  }

  /** Running the insert loop a second time over the same entries changes nothing. */
  lemma AddEntriesIdempotent<R>(table: map<string, R>, links: Links, image: nat,
                                entries: seq<Entry<R>>)
    ensures var r := AddEntries(table, links, image, entries);
      AddEntries(r.table, r.links, image, entries) == r
  {
    var r := AddEntries(table, links, image, entries);
    AddEntriesKeys(table, links, image, entries);
    AddEntriesLinks(table, links, image, entries);
    AddEntriesUnchanged(r.table, r.links, image, entries);
    AddEntriesCount(table, links, r.table, r.links, image, entries);
  }

  /**
   * `process_metadata_without_download` once the metadata has been fetched: nothing is
   * written without metadata; otherwise collections, albums and tags are inserted in that
   * order and the image's `metadata_updated` is set to `stamp`.
   */
  function ProcessImage(c: Catalog, image: nat, metadata: Option<Metadata>, stamp: string): (r: (Catalog, Outcome))
  {
    match metadata
    case None => (c, ExtractFailed)
    case Some(m) =>
      var cs := AddEntries(c.collections, c.imageCollections, image, m.collections);
      var al := AddEntries(c.albums, c.imageAlbums, image, m.albums);
      var ts := AddEntries(c.tags, c.imageTags, image, m.tags);
      var images := if image in c.images then c.images[image := c.images[image].(metadataUpdated := Some(stamp))]
                    else c.images;
      (Catalog(cs.table, al.table, ts.table, cs.links, al.links, ts.links, images),
       Processed(ts.count, cs.count, al.count))
  }

  /**
   * Without metadata nothing is written; with it, the only `images` column that changes is
   * the processed image's `metadata_updated`, which becomes `stamp`.
   */
  lemma ProcessImageImages(c: Catalog, image: nat, metadata: Option<Metadata>, stamp: string)
    ensures var r := ProcessImage(c, image, metadata, stamp);
      && (metadata.None? <==> r.1 == ExtractFailed)
      && (metadata.None? ==> r.0 == c)
      && (r.0.images.Keys == c.images.Keys)
      && (forall id :: id in c.images && (metadata.None? || id != image) ==> r.0.images[id] == c.images[id])
      && (metadata.Some? && image in c.images ==> r.0.images[image] == ImageRow(c.images[image].pageUrl, Some(stamp)))
  {
  }

  /** Processing the same metadata for the same image again leaves every table as it was. */
  lemma ProcessImageIdempotent(c: Catalog, image: nat, metadata: Option<Metadata>, stamp: string)
    ensures var r := ProcessImage(c, image, metadata, stamp);
      ProcessImage(r.0, image, metadata, stamp) == r
  {
    if metadata.Some? {
      var m := metadata.value;
      AddEntriesIdempotent(c.collections, c.imageCollections, image, m.collections);
      AddEntriesIdempotent(c.albums, c.imageAlbums, image, m.albums);
      AddEntriesIdempotent(c.tags, c.imageTags, image, m.tags);
      var r := ProcessImage(c, image, metadata, stamp);
      if image in r.0.images {
        assert r.0.images[image := r.0.images[image].(metadataUpdated := Some(stamp))] == r.0.images;
      }
    }
  }

  /** Some link of the join table belongs to image `id`. */
  predicate Linked(links: Links, id: nat) {
    exists p :: p in links && p.0 == id
  }

  /** A selected image: its id and its `page_url`. */
  datatype Pick = Pick(id: nat, pageUrl: Option<string>)

  /**
   * The selection of `reprocess_missing_metadata`: the images, in the table's scan order
   * `scan`, that have no row in any of the three join tables.
   */
  function Selection(c: Catalog, scan: seq<nat>): (r: seq<Pick>)
    ensures forall p :: p in r <==>
      p.id in scan && p.id in c.images && p.pageUrl == c.images[p.id].pageUrl &&
      !Linked(c.imageTags, p.id) && !Linked(c.imageCollections, p.id) && !Linked(c.imageAlbums, p.id)
  {
    if |scan| == 0 then []
    else
      var init := Selection(c, scan[..|scan| - 1]);
      var id := scan[|scan| - 1];
      assert forall x :: x in scan <==> x in scan[..|scan| - 1] || x == id;
      if id in c.images && !Linked(c.imageTags, id) && !Linked(c.imageCollections, id) &&
         !Linked(c.imageAlbums, id)
      then init + [Pick(id, c.images[id].pageUrl)]
      else init
  }

  /**
   * An image whose metadata named at least one collection, album or tag is linked
   * afterwards, so a later run does not select it again.
   */
  lemma ProcessedNotReselected(c: Catalog, image: nat, m: Metadata, stamp: string, scan: seq<nat>)
    requires KeysOf(m.collections) + KeysOf(m.albums) + KeysOf(m.tags) != {}
    ensures forall p :: p in Selection(ProcessImage(c, image, Some(m), stamp).0, scan) ==> p.id != image
  {
    var r := ProcessImage(c, image, Some(m), stamp).0;
    AddEntriesLinks(c.collections, c.imageCollections, image, m.collections);
    AddEntriesLinks(c.albums, c.imageAlbums, image, m.albums);
    AddEntriesLinks(c.tags, c.imageTags, image, m.tags);
    var k :| k in KeysOf(m.collections) + KeysOf(m.albums) + KeysOf(m.tags);
    if k in KeysOf(m.collections) {
      assert (image, k) in r.imageCollections;
    } else if k in KeysOf(m.albums) {
      assert (image, k) in r.imageAlbums;
    } else {
      assert (image, k) in r.imageTags;
    }
  }

  /** A `page_url` that is neither NULL nor empty. */
  predicate HasUrl(p: Pick) {
    p.pageUrl.Some? && p.pageUrl.value != ""
  }

  /** The run's counters. */
  datatype Tally = Tally(success: nat, failed: nat, tags: nat, collections: nat, albums: nat)

  const NoTally := Tally(0, 0, 0, 0, 0)

  /**
   * One image of the run: without a page URL it counts as failed and nothing is fetched;
   * otherwise its metadata is fetched and processed, and the outcome is counted.
   */
  function Visit(c: Catalog, t: Tally, p: Pick, fetch: string -> Option<Metadata>,
                 clock: nat -> string): (Catalog, Tally)
  {
    if !HasUrl(p) then (c, t.(failed := t.failed + 1))
    else
      var r := ProcessImage(c, p.id, fetch(p.pageUrl.value), clock(p.id));
      match r.1
      case ExtractFailed => (r.0, t.(failed := t.failed + 1))
      case Processed(tg, co, al) =>
        (r.0, Tally(t.success + 1, t.failed, t.tags + tg, t.collections + co, t.albums + al))
  }

  /** The images visited in order. */
  function VisitAll(c: Catalog, t: Tally, picks: seq<Pick>, fetch: string -> Option<Metadata>,
                    clock: nat -> string): (Catalog, Tally)
  {
    if |picks| == 0 then (c, t)
    else
      var r := VisitAll(c, t, picks[..|picks| - 1], fetch, clock);
      Visit(r.0, r.1, picks[|picks| - 1], fetch, clock)
  }

  /** Visiting one more image continues from where the earlier images left the tables. */
  lemma VisitAllSnoc(c: Catalog, picks: seq<Pick>, p: Pick, fetch: string -> Option<Metadata>,
                     clock: nat -> string)
    ensures var r := VisitAll(c, NoTally, picks, fetch, clock);
      VisitAll(c, NoTally, picks + [p], fetch, clock) == Visit(r.0, r.1, p, fetch, clock)
  {
    assert (picks + [p])[..|picks|] == picks;
  }

  /**
   * Every visited image is counted once, as a success or a failure; an image without a
   * page URL is always a failure.
   */
  lemma {:induction false} VisitAllCounts(c: Catalog, t: Tally, picks: seq<Pick>,
                                          fetch: string -> Option<Metadata>, clock: nat -> string)
    ensures var r := VisitAll(c, t, picks, fetch, clock).1;
      && r.success + r.failed == t.success + t.failed + |picks|
      && r.failed >= t.failed + |Filter((p: Pick) => !HasUrl(p), picks)|
      && r.success <= t.success + |Filter(HasUrl, picks)|
  {
    if |picks| > 0 {
      VisitAllCounts(c, t, picks[..|picks| - 1], fetch, clock);
    }
  }

  /** The image ids the run writes `metadata_updated` for: those with a URL whose fetch succeeded. */
  lemma {:induction false} VisitAllStamps(c: Catalog, t: Tally, picks: seq<Pick>,
                                          fetch: string -> Option<Metadata>, clock: nat -> string, id: nat)
    requires id in c.images
    requires forall i :: 0 <= i < |picks| && picks[i].id == id ==> !HasUrl(picks[i]) || fetch(picks[i].pageUrl.value).None?
    ensures var r := VisitAll(c, t, picks, fetch, clock).0;
      id in r.images && r.images[id] == c.images[id]
  {
    if |picks| > 0 {
      var init := picks[..|picks| - 1];
      assert forall i :: 0 <= i < |init| ==> init[i] == picks[i];
      VisitAllStamps(c, t, init, fetch, clock, id);
      var r := VisitAll(c, t, init, fetch, clock);
      var p := picks[|picks| - 1];
      if HasUrl(p) {
        ProcessImageImages(r.0, p.id, fetch(p.pageUrl.value), clock(p.id));
      }
    }
  }

  /**
   * The pooled session each fetch uses: the image's position within its batch, that is its
   * position modulo the batch size, modulo the number of sessions; images without a URL
   * use none.
   */
  function Slots(picks: seq<Pick>, batchSize: nat, sessions: nat): seq<nat>
    requires batchSize > 0 && sessions > 0
  {
    if |picks| == 0 then []
    else
      Slots(picks[..|picks| - 1], batchSize, sessions)
      + (if HasUrl(picks[|picks| - 1]) then [((|picks| - 1) % batchSize) % sessions] else [])
  }

  /** One session per image with a URL, always one of the pool's. */
  lemma {:induction false} SlotsBound(picks: seq<Pick>, batchSize: nat, sessions: nat)
    requires batchSize > 0 && sessions > 0
    ensures |Slots(picks, batchSize, sessions)| == |Filter(HasUrl, picks)|
    ensures forall i :: 0 <= i < |Slots(picks, batchSize, sessions)| ==> Slots(picks, batchSize, sessions)[i] < sessions
  {
    if |picks| > 0 {
      SlotsBound(picks[..|picks| - 1], batchSize, sessions);
    }
  }

  /** Appending an image appends the session of its position, if it has a URL. */
  lemma SlotsSnoc(picks: seq<Pick>, p: Pick, batchSize: nat, sessions: nat)
    requires batchSize > 0 && sessions > 0
    ensures Slots(picks + [p], batchSize, sessions) ==
      Slots(picks, batchSize, sessions) + (if HasUrl(p) then [(|picks| % batchSize) % sessions] else [])
  {
    assert (picks + [p])[..|picks|] == picks;
  }

  /** The slot of the image at position `idx` of batch `b`. */
  lemma BatchSlotStep(picks: seq<Pick>, b: nat, batchSize: nat, sessions: nat, idx: nat)
    requires batchSize > 0 && sessions > 0 && idx < batchSize && b * batchSize + idx < |picks|
    ensures var k := b * batchSize + idx;
      Slots(picks[..k + 1], batchSize, sessions) ==
        Slots(picks[..k], batchSize, sessions) + (if HasUrl(picks[k]) then [idx % sessions] else [])
  {
    var k := b * batchSize + idx;
    assert picks[..k + 1] == picks[..k] + [picks[k]];
    BatchPosition(b, batchSize, idx);
    SlotsSnoc(picks[..k], picks[k], batchSize, sessions);
  }

  /** Visiting one more image of the selection. */
  lemma BatchVisitStep(c: Catalog, picks: seq<Pick>, k: nat, fetch: string -> Option<Metadata>, clock: nat -> string)
    requires k < |picks|
    ensures var r := VisitAll(c, NoTally, picks[..k], fetch, clock);
      VisitAll(c, NoTally, picks[..k + 1], fetch, clock) == Visit(r.0, r.1, picks[k], fetch, clock)
  {
    assert picks[..k + 1] == picks[..k] + [picks[k]];
    VisitAllSnoc(c, picks[..k], picks[k], fetch, clock);
  }

  /** A multiple of a positive number by at least one is at least that number. */
  lemma MulAtLeast(a: int, size: int)
    requires a >= 1 && size > 0
    ensures a * size >= size
  {
  }

  /** The batch after batch `b` starts `size` positions later. */
  lemma NextBatch(b: nat, size: nat)
    ensures (b + 1) * size == b * size + size
  {
  }

  /** Euclidean division leaves the remainder `r` of `q * size + r` when `0 <= r < size`. */
  lemma DivModUnique(q: int, size: int, r: int)
    requires size > 0 && 0 <= r < size
    ensures (q * size + r) / size == q && (q * size + r) % size == r
  {
    var x := q * size + r;
    var q', r' := x / size, x % size;
    assert (q' - q) * size == r - r';
    if q' > q {
      MulAtLeast(q' - q, size);
    } else if q' < q {
      MulAtLeast(q - q', size);
    }
  }

  /** Position `idx` of the batch that starts at `b * size` is position `idx` modulo the size. */
  lemma BatchPosition(b: nat, size: nat, idx: nat)
    requires idx < size
    ensures (b * size + idx) % size == idx
  {
    DivModUnique(b, size, idx);
  }

  /** The number of batches the run logs: `total` divided by `size`, rounded up. */
  function BatchesFor(total: nat, size: nat): nat
    requires size > 0
  {
    (total + size - 1) / size
  }

  /** `b` batches of `size` cover `total` and one fewer do not, so `b` is total / size rounded up. */
  lemma BatchCount(total: nat, size: nat, b: nat)
    requires size > 0
    requires total <= b * size
    requires b == 0 || (b - 1) * size < total
    ensures b == BatchesFor(total, size)
  {
    if b == 0 {
      DivModUnique(0, size, size - 1);
    } else {
      var r := total + size - 1 - b * size;
      assert (b - 1) * size == b * size - size;
      DivModUnique(b, size, r);
    }
  }

  /** No image of `picks` has a page URL. */
  predicate NoUrl(picks: seq<Pick>) {
    forall i :: 0 <= i < |picks| ==> !HasUrl(picks[i])
  }

  /**
   * The run raises: a non-empty selection with a batch size of 0, or with no sessions
   * and some image that has a page URL.
   */
  predicate RunRaises(picks: seq<Pick>, batchSize: nat, sessions: nat) {
    |picks| > 0 && (batchSize == 0 || (sessions == 0 && !NoUrl(picks)))
  }

  /** Images without a page URL only count failures; the tables stay as they were. */
  lemma {:induction false} NoUrlVisit(c: Catalog, picks: seq<Pick>, fetch: string -> Option<Metadata>,
                                      clock: nat -> string)
    requires NoUrl(picks)
    ensures VisitAll(c, NoTally, picks, fetch, clock).0 == c
  {
    if |picks| > 0 {
      var init := picks[..|picks| - 1];
      assert forall i :: 0 <= i < |init| ==> init[i] == picks[i];
      NoUrlVisit(c, init, fetch, clock);
    }
  }

  /** A prefix without page URLs, extended by one image without one. */
  lemma NoUrlSnoc(picks: seq<Pick>, k: nat)
    requires k < |picks|
    ensures NoUrl(picks[..k]) && !HasUrl(picks[k]) ==> NoUrl(picks[..k + 1])
  {
    assert forall i :: 0 <= i < k ==> picks[..k + 1][i] == picks[..k][i];
  }

  /** An image with a page URL at position `k` is in every longer prefix. */
  lemma NoUrlGrows(picks: seq<Pick>, k: nat, end: nat)
    requires k < end <= |picks| && HasUrl(picks[k])
    ensures !NoUrl(picks[..end])
  {
    assert picks[..end][k] == picks[k];
  }

  /** A prefix with an image that has a page URL puts that image in the whole selection. */
  lemma NoUrlBefore(picks: seq<Pick>, end: nat)
    requires !NoUrl(picks[..Min(end, |picks|)])
    ensures !NoUrl(picks)
  {
    var i :| 0 <= i < Min(end, |picks|) && HasUrl(picks[..Min(end, |picks|)][i]);
    assert picks[i] == picks[..Min(end, |picks|)][i];
  }

  /** The tables of the archive database that metadata reprocessing reads and writes. */
  class Database {
    var tables: Catalog

    constructor (existing: Catalog)
      ensures tables == existing
    {
      tables := existing;
    }

    /**
     * `process_metadata_without_download`, with the fetched metadata as a parameter; the
     * success flag is `outcome.Processed?`.
     */
    method ProcessMetadataWithoutDownload(image: nat, metadata: Option<Metadata>, stamp: string)
      returns (outcome: Outcome)
      modifies this
      ensures (tables, outcome) == ProcessImage(old(tables), image, metadata, stamp)
    {
      if metadata.None? {
        return ExtractFailed;
      }
      var m := metadata.value;
      var cs := InsertEach(tables.collections, tables.imageCollections, image, m.collections);
      tables := tables.(collections := cs.table, imageCollections := cs.links);
      var al := InsertEach(tables.albums, tables.imageAlbums, image, m.albums);
      tables := tables.(albums := al.table, imageAlbums := al.links);
      var ts := InsertEach(tables.tags, tables.imageTags, image, m.tags);
      tables := tables.(tags := ts.table, imageTags := ts.links);
      if image in tables.images {
        tables := tables.(images := tables.images[image := tables.images[image].(metadataUpdated := Some(stamp))]);
      }
      outcome := Processed(ts.count, cs.count, al.count);
    }

    /**
     * `reprocess_missing_metadata`: select the images without links, then visit them in
     * batches of `batchSize`, fetching through session `idx % sessions` where `idx` is the
     * position within the batch. Without selected images nothing happens. A batch size of
     * 0 makes `range` raise `ValueError` before the first batch; a pool of 0 sessions makes
     * `idx % 0` raise `ZeroDivisionError` at the first image with a page URL. Either way the
     * run ends with `raised`, having written nothing. Also returns the sessions used, one
     * per fetch, and the number of batches.
     */
    method ReprocessMissingMetadata(scan: seq<nat>, fetch: string -> Option<Metadata>,
                                    clock: nat -> string, batchSize: nat, sessions: nat)
      returns (summary: Option<Tally>, used: seq<nat>, batches: nat, raised: bool)
      modifies this
      ensures var picks := Selection(old(tables), scan);
        && (raised <==> RunRaises(picks, batchSize, sessions))
        && (raised || |picks| == 0 ==> summary.None? && tables == old(tables))
      ensures var picks := Selection(old(tables), scan);
        var r := VisitAll(old(tables), NoTally, picks, fetch, clock);
        !raised && |picks| > 0 ==>
          && summary == Some(r.1) && tables == r.0
          && (sessions > 0 ==> used == Slots(picks, batchSize, sessions))
          && batches == BatchesFor(|picks|, batchSize)
    {
      var picks := Selection(tables, scan);
      used, batches := [], 0;
      if |picks| == 0 {
        return None, used, batches, false;
      }
      if batchSize == 0 {
        return None, used, batches, true;
      }
      var tally;
      tally, used, batches, raised := RunBatches(picks, batchSize, sessions, fetch, clock);
      summary := if raised then None else Some(tally);
    }

    /** The `for i in range(0, total_images, batch_size)` loop over a non-empty selection. */
    method RunBatches(picks: seq<Pick>, batchSize: nat, sessions: nat,
                      fetch: string -> Option<Metadata>, clock: nat -> string)
      returns (tally: Tally, used: seq<nat>, batches: nat, raised: bool)
      requires batchSize > 0
      modifies this
      ensures raised <==> sessions == 0 && !NoUrl(picks)
      ensures raised ==> tables == old(tables)
      ensures !raised ==> (tables, tally) == VisitAll(old(tables), NoTally, picks, fetch, clock)
      ensures !raised && sessions > 0 ==> used == Slots(picks, batchSize, sessions)
      ensures !raised ==> batches == BatchesFor(|picks|, batchSize)
    {
      ghost var initial := tables;
      tally, used, batches, raised := NoTally, [], 0, false;
      var i := 0;
      while i < |picks|
        invariant i == batches * batchSize
        invariant batches == 0 || (batches - 1) * batchSize < |picks|
        invariant (tables, tally) == VisitAll(initial, NoTally, picks[..Min(i, |picks|)], fetch, clock)
        invariant sessions > 0 ==> used == Slots(picks[..Min(i, |picks|)], batchSize, sessions)
        invariant sessions == 0 ==> NoUrl(picks[..Min(i, |picks|)])
        decreases |picks| - i
      {
        var stop;
        tally, used, stop := ProcessBatch(picks, i, batches, batchSize, sessions, fetch, clock, initial, tally, used);
        if stop {
          NoUrlBefore(picks, i + batchSize);
          return tally, used, batches, true;
        }
        NextBatch(batches, batchSize);
        i := i + batchSize;
        batches := batches + 1;
      }
      assert picks[..|picks|] == picks;
      BatchCount(|picks|, batchSize, batches);
    }

    /**
     * Batch number `b`, which starts at position `start` of the selection. With no
     * sessions, the first image with a page URL raises where it picks its session, and
     * the tables are as the images before it left them, which is as they were.
     */
    method ProcessBatch(picks: seq<Pick>, start: nat, b: nat, batchSize: nat, sessions: nat,
                        fetch: string -> Option<Metadata>, clock: nat -> string,
                        ghost initial: Catalog, tally0: Tally, used0: seq<nat>)
      returns (tally: Tally, used: seq<nat>, raised: bool)
      requires batchSize > 0
      requires start == b * batchSize && start < |picks|
      requires (tables, tally0) == VisitAll(initial, NoTally, picks[..start], fetch, clock)
      requires sessions > 0 ==> used0 == Slots(picks[..start], batchSize, sessions)
      requires sessions == 0 ==> NoUrl(picks[..start])
      modifies this
      ensures var end := Min(start + batchSize, |picks|);
        raised <==> sessions == 0 && !NoUrl(picks[..end])
      ensures raised ==> tables == initial
      ensures var end := Min(start + batchSize, |picks|);
        !raised ==> (tables, tally) == VisitAll(initial, NoTally, picks[..end], fetch, clock)
      ensures var end := Min(start + batchSize, |picks|);
        !raised && sessions > 0 ==> used == Slots(picks[..end], batchSize, sessions)
    {
      tally, used, raised := tally0, used0, false;
      var end := Min(start + batchSize, |picks|);
      for k := start to end
        invariant (tables, tally) == VisitAll(initial, NoTally, picks[..k], fetch, clock)
        invariant sessions > 0 ==> used == Slots(picks[..k], batchSize, sessions)
        invariant sessions == 0 ==> NoUrl(picks[..k])
      {
        var stop;
        tally, used, stop := BatchStep(picks, b, k - start, batchSize, sessions, fetch, clock, initial, tally, used);
        if stop {
          NoUrlGrows(picks, k, end);
          return tally, used, true;
        }
      }
    }

    /**
     * The image at position `idx` of batch `b`: with no sessions, an image with a page
     * URL raises at `idx % 0`; otherwise it is visited through session `idx % sessions`.
     */
    method BatchStep(picks: seq<Pick>, b: nat, idx: nat, batchSize: nat, sessions: nat,
                     fetch: string -> Option<Metadata>, clock: nat -> string,
                     ghost initial: Catalog, tally0: Tally, used0: seq<nat>)
      returns (tally: Tally, used: seq<nat>, raised: bool)
      requires idx < batchSize && b * batchSize + idx < |picks|
      requires (tables, tally0) == VisitAll(initial, NoTally, picks[..b * batchSize + idx], fetch, clock)
      requires sessions > 0 ==> used0 == Slots(picks[..b * batchSize + idx], batchSize, sessions)
      requires sessions == 0 ==> NoUrl(picks[..b * batchSize + idx])
      modifies this
      ensures var k := b * batchSize + idx;
        && (raised <==> sessions == 0 && HasUrl(picks[k]))
        && (raised ==> tables == initial)
      ensures var k := b * batchSize + idx;
        !raised ==> (tables, tally) == VisitAll(initial, NoTally, picks[..k + 1], fetch, clock)
      ensures var k := b * batchSize + idx;
        !raised && sessions > 0 ==> used == Slots(picks[..k + 1], batchSize, sessions)
      ensures var k := b * batchSize + idx;
        !raised && sessions == 0 ==> NoUrl(picks[..k + 1])
    {
      var k := b * batchSize + idx;
      var p := picks[k];
      tally, used := tally0, used0;
      if sessions == 0 && HasUrl(p) {
        NoUrlVisit(initial, picks[..k], fetch, clock);
        return tally, used, true;
      }
      if sessions > 0 {
        BatchSlotStep(picks, b, batchSize, sessions, idx);
      }
      BatchVisitStep(initial, picks, k, fetch, clock);
      NoUrlSnoc(picks, k);
      tally := ProcessPick(p, tally, fetch, clock);
      if HasUrl(p) {
        used := used + [idx % sessions];
      }
      raised := false;
    }

    /** One image of a batch: counted as failed without a page URL, otherwise fetched and processed. */
    method ProcessPick(p: Pick, tally0: Tally, fetch: string -> Option<Metadata>, clock: nat -> string)
      returns (tally: Tally)
      modifies this
      ensures (tables, tally) == Visit(old(tables), tally0, p, fetch, clock)
    {
      tally := tally0;
      if !HasUrl(p) {
        tally := tally.(failed := tally.failed + 1);
        return;
      }
      var outcome := ProcessMetadataWithoutDownload(p.id, fetch(p.pageUrl.value), clock(p.id));
      if outcome.Processed? {
        tally := Tally(tally.success + 1, tally.failed, tally.tags + outcome.tags,
                       tally.collections + outcome.collections, tally.albums + outcome.albums);
      } else {
        tally := tally.(failed := tally.failed + 1);
      }
    }

    /** The insert loop of one metadata list, on that kind's catalogue and join tables. */
    static method InsertEach<R>(table: map<string, R>, links: Links, image: nat, entries: seq<Entry<R>>)
      returns (r: Added<R>)
      ensures r == AddEntries(table, links, image, entries)
    {
      r := Added(table, links, 0);
      for i := 0 to |entries|
        invariant r == AddEntries(table, links, image, entries[..i])
      {
        assert entries[..i + 1][..i] == entries[..i];
        match entries[i]
        case Malformed =>
        case Entry(k, f) =>
          if k !in r.table {
            r := r.(table := r.table[k := f]);
          }
          r := Added(r.table, r.links + {(image, k)}, r.count + 1);
      }
      assert entries[..|entries|] == entries;
    }
  }

  function Min(a: int, b: int): int {
    if a <= b then a else b
  }
}
