/**
 * The ingest of the Syncthing-based sync service (sync/src/sync_manager.py).
 * A file that arrives from a remote source is identified by its SHA-256
 * digest: a known image only gains a `'success'` sync record; a new one is
 * moved into a numbered shard of its author's directory under the image root
 * and stored with its tags, albums and collections, each found by its unique
 * key or created. `get_sync_progress` counts the records of one source.
 *
 * The SQLAlchemy session is the class field `db`: `commit` keeps it and
 * `rollback` returns to the state of the last commit, which is the state the
 * call started from. The filesystem is the set of directories and files
 * below the image root plus the set of synced files still at their remote
 * paths. Digests are given: the one of the synced file and the one of the
 * file after the move.
 */
module SyncIngest {
  import opened Wrappers
  import opened Text
  import opened Seqs
  import SyncManager

  /** A path below the image root as its list of components. */
  type Path = seq<string>

  const FilesPerShard: nat := 1000

  const HashMismatchMessage := "Hash verification failed after move"
  /** The first line of the text of the `IntegrityError` a second image with the same URL raises. */
  const UrlClashMessage := "(sqlite3.IntegrityError) UNIQUE constraint failed: images.url"
  /** `str(KeyError('album_id'))` and `str(KeyError('collection_id'))`. */
  const NoAlbumIdMessage := "'album_id'"
  const NoCollectionIdMessage := "'collection_id'"

  // ---------------------------------------------------------------------------------------
  // The data

  /** The metadata columns of an image, as the incoming dictionary gives them. */
  datatype ImageMeta = ImageMeta(
    url: string, title: string, author: Option<string>, authorUrl: string, license: string,
    cameraMake: string, cameraModel: string, focalLength: string, aperture: string,
    shutterSpeed: string, takenDate: string, pageUrl: string, uploadDate: string,
    description: string, metadataUpdated: string)

  /** An album or collection dictionary: its unique key (absent when the dictionary lacks it) and columns. */
  datatype Group = Group(key: Option<string>, title: string, url: string, isPublic: bool)

  /**
   * The `metadata` argument: `fields` is None when one of the fifteen keys read
   * by the `Image(...)` call is missing; the three lists default to empty.
   */
  datatype Metadata = Metadata(fields: Option<ImageMeta>, tags: seq<string>, albums: seq<Group>, collections: seq<Group>)

  /** A row of `images`; its id is its position plus one. */
  datatype ImageRow = ImageRow(meta: ImageMeta, sha256: string, localPath: string)

  /** A row of a table with a unique key: its id and its columns. */
  datatype Row<V> = Row(id: nat, data: V)

  /** A row of one of the association tables `image_tags`, `image_albums`, `image_collections`. */
  datatype Link = Link(imageId: nat, otherId: nat)

  datatype SyncRecord = SyncRecord(imageId: Option<nat>, remoteSource: string, remotePath: string,
                                   status: string, errorMessage: Option<string>)

  /**
   * The database: images in id order, tags by name, albums by `album_id`,
   * collections by `collection_id`, the association rows, the sync records in
   * insertion order, and the next id for tags, albums and collections.
   */
  datatype Store = Store(images: seq<ImageRow>, tags: map<string, Row<string>>,
                         albums: map<string, Row<Group>>, collections: map<string, Row<Group>>,
                         imageTags: seq<Link>, imageAlbums: seq<Link>, imageCollections: seq<Link>,
                         records: seq<SyncRecord>, nextId: nat)

  /** Directories and files below the image root, and the synced files at their remote paths. */
  datatype Disk = Disk(dirs: set<Path>, files: set<Path>, synced: set<string>)

  /** The state after a call and its result. */
  datatype Outcome = Outcome(db: Store, disk: Disk, ok: bool)

  // ---------------------------------------------------------------------------------------
  // Shards

  /** The first file number of the shard that the `n`-th file goes to: `n // 1000 * 1000`. */
  function ShardStart(n: nat): (r: nat)
    ensures r % FilesPerShard == 0 && r <= n < r + FilesPerShard
  {
    n / FilesPerShard * FilesPerShard
  }

  /** Everything `glob('*')` lists in the author's directory: its direct entries, directories and files. */
  function Entries(disk: Disk, author: string): set<Path> {
    set p | p in disk.dirs + disk.files && |p| == 2 && p[0] == author
  }

  /** The shard name as written: the count is of the author directory's own entries. */
  function ShardAsWritten(disk: Disk, author: string): string {
    NatToString(ShardStart(|Entries(disk, author)|))
  }

  /** The files anywhere below the author's directory. */
  function TreeFiles(files: set<Path>, author: string): set<Path> {
    set p | p in files && |p| > 1 && p[0] == author
  }

  /** The files in the author's shard that starts at file number `k * 1000`. */
  function ShardFiles(files: set<Path>, author: string, k: nat): set<Path> {
    set p | p in files && |p| == 3 && p[0] == author && p[1] == NatToString(k * FilesPerShard)
  }

  /** The intended shard name: the count is of all the author's files. */
  function Shard(files: set<Path>, author: string): string {
    NatToString(ShardStart(|TreeFiles(files, author)|))
  }

  /** Where a new image goes: its shard, and the digest with `.jpg` as its name. */
  function FinalPath(files: set<Path>, author: string, hash: string): (p: Path)
    ensures |p| == 3 && p[0] == author && p[2] == hash + ".jpg"
  {
    [author, Shard(files, author), hash + ".jpg"]
  }

  /** The moves of one new image: the two `mkdir`s and the `shutil.move`. */
  function Moved(disk: Disk, author: string, remotePath: string, hash: string): Disk {
    var p := FinalPath(disk.files, author, hash);
    Disk(disk.dirs + {[author], p[..2]}, disk.files + {p}, disk.synced - {remotePath})
  }

  /** `str(path.relative_to(image_root))`: the components joined with `/`. */
  function Join(p: Path): string {
    if |p| == 0 then "" else if |p| == 1 then p[0] else p[0] + "/" + Join(p[1..])
  }

  // ---------------------------------------------------------------------------------------
  // Find or create

  /** The table after a run of find-or-create, its next id, and the id found or made for each item. */
  datatype Linked<V> = Linked(table: map<string, Row<V>>, next: nat, ids: seq<nat>)

  /**
   * The tag, album or collection loop: each item is looked up by its key and
   * created with the next id when absent; an item without a key raises.
   */
  function FindOrCreate<V>(t: map<string, Row<V>>, next: nat, items: seq<V>, key: V -> Option<string>): Option<Linked<V>> {
    if |items| == 0 then Some(Linked(t, next, []))
    else
      var init := FindOrCreate(t, next, items[..|items| - 1], key);
      var k := key(items[|items| - 1]);
      if init.None? || k.None? then None
      else
        var l := init.value;
        if k.value in l.table then Some(Linked(l.table, l.next, l.ids + [l.table[k.value].id]))
        else Some(Linked(l.table[k.value := Row(l.next, items[|items| - 1])], l.next + 1, l.ids + [l.next]))
  }

  /** Every row is filed under its own key: the key column is unique. */
  predicate KeyedBy<V>(t: map<string, Row<V>>, key: V -> Option<string>) {
    forall k :: k in t ==> key(t[k].data) == Some(k)
  }

  /** Distinct rows have distinct ids, all below `next`. */
  predicate IdsFresh<V>(t: map<string, Row<V>>, next: nat) {
    && (forall k :: k in t ==> t[k].id < next)
    && (forall a, b :: a in t && b in t && a != b ==> t[a].id != t[b].id)
  }

  /** The loop raises exactly when some item has no key. */
  lemma {:induction false} FindOrCreateFails<V>(t: map<string, Row<V>>, next: nat, items: seq<V>, key: V -> Option<string>)
    ensures FindOrCreate(t, next, items, key).None? <==> exists i :: 0 <= i < |items| && key(items[i]).None?
  {
    if |items| > 0 {
      var init := items[..|items| - 1];
      FindOrCreateFails(t, next, init, key);
      assert forall i :: 0 <= i < |init| ==> init[i] == items[i];
    }
  }

  /**
   * Find-or-create keeps every existing row and adds a row only for a key of
   * one of the items that it did not have, with a fresh id.
   */
  lemma {:induction false} FindOrCreateRows<V>(t: map<string, Row<V>>, next: nat, items: seq<V>, key: V -> Option<string>)
    requires FindOrCreate(t, next, items, key).Some?
    ensures var l := FindOrCreate(t, next, items, key).value;
      && next <= l.next
      && (forall k :: k in t ==> k in l.table && l.table[k] == t[k])
      && (forall k :: k in l.table && k !in t ==> next <= l.table[k].id < l.next && key(l.table[k].data) == Some(k))
      && (forall k :: k in l.table ==> k in t || exists i :: 0 <= i < |items| && key(items[i]) == Some(k))
  {
    if |items| > 0 {
      var init := items[..|items| - 1];
      FindOrCreateRows(t, next, init, key);
      assert forall i :: 0 <= i < |init| ==> init[i] == items[i];
    }
  }

  /** Find-or-create answers each item with the id of the row filed under its key. */
  lemma {:induction false} FindOrCreateIds<V>(t: map<string, Row<V>>, next: nat, items: seq<V>, key: V -> Option<string>)
    requires FindOrCreate(t, next, items, key).Some?
    ensures var l := FindOrCreate(t, next, items, key).value;
      && |l.ids| == |items|
      && (forall i :: 0 <= i < |items| ==>
            key(items[i]).Some? && key(items[i]).value in l.table && l.ids[i] == l.table[key(items[i]).value].id)
  {
    if |items| > 0 {
      var init := items[..|items| - 1];
      FindOrCreateIds(t, next, init, key);
      assert forall i :: 0 <= i < |init| ==> init[i] == items[i];
    }
  }

  /** Find-or-create keeps the key column unique and the ids distinct and fresh. */
  lemma {:induction false} FindOrCreateKeepsKeys<V>(t: map<string, Row<V>>, next: nat, items: seq<V>, key: V -> Option<string>)
    requires KeyedBy(t, key) && IdsFresh(t, next)
    requires FindOrCreate(t, next, items, key).Some?
    ensures var l := FindOrCreate(t, next, items, key).value; KeyedBy(l.table, key) && IdsFresh(l.table, l.next) && next <= l.next
  {
    if |items| > 0 {
      FindOrCreateKeepsKeys(t, next, items[..|items| - 1], key);
    }
  }

  /** The `for` loop over the items, with the query and the `add`/`flush` of a new row. */
  method LinkAll<V>(t: map<string, Row<V>>, next: nat, items: seq<V>, key: V -> Option<string>)
    returns (r: Option<Linked<V>>)
    ensures r == FindOrCreate(t, next, items, key)
  {
    var table, n, ids := t, next, [];
    for i := 0 to |items|
      invariant FindOrCreate(t, next, items[..i], key) == Some(Linked(table, n, ids))
    {
      assert items[..i + 1][..i] == items[..i];
      var k := key(items[i]);
      if k.None? {
        FindOrCreateFails(t, next, items, key);
        return None;
      }
      if k.value in table {
        ids := ids + [table[k.value].id];
      } else {
        table := table[k.value := Row(n, items[i])];
        ids := ids + [n];
        n := n + 1;
      }
    }
    assert items[..|items|] == items;
    return Some(Linked(table, n, ids));
  }

  /**
   * The association rows of one image with the given ids: one per distinct
   * id, in the order of first appearance. The session writes an object
   * appended twice to a collection once, and the composite primary key of
   * each association table admits a pair only once.
   */
  function Links(imageId: nat, ids: seq<nat>): (r: seq<Link>)
    ensures forall x :: x in r <==> x.imageId == imageId && x.otherId in ids
    ensures Distinct(r) && |r| <= |ids|
  {
    var all := seq(|ids|, j requires 0 <= j < |ids| => Link(imageId, ids[j]));
    assert forall x :: x in all <==> x.imageId == imageId && x.otherId in ids by {
      forall x: Link | x.imageId == imageId && x.otherId in ids ensures x in all {
        var j :| 0 <= j < |ids| && ids[j] == x.otherId;
        assert all[j] == x;
      }
    }
    Dedup(all)
  }

  // ---------------------------------------------------------------------------------------
  // process_synced_image

  /** The position of the first image with the digest: what the query's `.first()` returns. */
  function ByHash(images: seq<ImageRow>, hash: string): Option<nat> {
    FirstWhere((im: ImageRow) => im.sha256 == hash, images)
  }

  predicate UrlTaken(images: seq<ImageRow>, url: string) {
    exists i :: 0 <= i < |images| && images[i].meta.url == url
  }

  function Record(id: Option<nat>, source: string, path: string, status: string, message: Option<string>): SyncRecord {
    SyncRecord(id, source, path, status, message)
  }

  /** The rollback to `db` and the commit of one `'failed'` record with the exception's text. */
  function Failed(db: Store, id: Option<nat>, source: string, path: string, message: string): Store {
    db.(records := db.records + [Record(id, source, path, "failed", Some(message))])
  }

  /** The key of a tag row is its name; the key of an album or collection row is its own id column. */
  function TagKey(name: string): Option<string> {
    Some(name)
  }

  function GroupKey(g: Group): Option<string> {
    g.key
  }

  /** The tag loop: every name is a key, so it never raises. */
  function TagsOf(t: map<string, Row<string>>, next: nat, names: seq<string>): (r: Option<Linked<string>>)
    ensures r.Some?
  {
    FindOrCreateFails(t, next, names, TagKey);
    FindOrCreate(t, next, names, TagKey)
  }

  /** The end of the `try` block: the new store, or the id the image had and the text of what it raised. */
  datatype Stored = Stored(db: Store) | Raised(imageId: Option<nat>, message: string)

  /**
   * `process_synced_image` for a new image whose metadata and author are
   * present, from the point where the file has been moved to `localPath`.
   */
  function StoreNew(db: Store, m: Metadata, f: ImageMeta, hash: string, moved: string, localPath: string,
                    source: string, path: string): Stored
  {
    var id := |db.images| + 1;
    if moved != hash then Raised(None, HashMismatchMessage)
    else if UrlTaken(db.images, f.url) then Raised(None, UrlClashMessage)
    else
      var tags := TagsOf(db.tags, db.nextId, m.tags).value;
      var albums := FindOrCreate(db.albums, tags.next, m.albums, GroupKey);
      if albums.None? then Raised(Some(id), NoAlbumIdMessage)
      else
        var colls := FindOrCreate(db.collections, albums.value.next, m.collections, GroupKey);
        if colls.None? then Raised(Some(id), NoCollectionIdMessage)
        else
          Stored(Store(db.images + [ImageRow(f, hash, localPath)], tags.table, albums.value.table, colls.value.table,
                       db.imageTags + Links(id, tags.ids), db.imageAlbums + Links(id, albums.value.ids),
                       db.imageCollections + Links(id, colls.value.ids),
                       db.records + [Record(Some(id), source, path, "success", None)], colls.value.next))
  }

  /**
   * `process_synced_image`: the state after the call and its result, given the
   * digest of the synced file and the digest of the file after the move.
   */
  function Process(db: Store, disk: Disk, path: string, source: string, m: Metadata, hash: string, moved: string): Outcome {
    if path !in disk.synced then Outcome(db, disk, false)
    else match ByHash(db.images, hash)
      case Some(i) => Outcome(db.(records := db.records + [Record(Some(i + 1), source, path, "success", None)]), disk, true)
      case None =>
        if m.fields.None? then Outcome(db, disk, false)
        else
          var f := m.fields.value;
          if f.author.None? then Outcome(Failed(db, None, source, path, SyncManager.NoneAuthorError), disk, false)
          else
            var a := f.author.value;
            var moved' := Moved(disk, a, path, hash);
            match StoreNew(db, m, f, hash, moved, Join(FinalPath(disk.files, a, hash)), source, path)
            case Stored(db') => Outcome(db', moved', true)
            case Raised(id, message) => Outcome(Failed(db, id, source, path, message), moved', false)
  }

  /** A new image with an author: the file is moved, and the store decides the rest. */
  lemma ProcessMoved(db: Store, disk: Disk, path: string, source: string, m: Metadata, hash: string, moved: string)
    requires path in disk.synced && ByHash(db.images, hash).None?
    requires m.fields.Some? && m.fields.value.author.Some?
    ensures var f := m.fields.value;
      var a := f.author.value;
      var d := Moved(disk, a, path, hash);
      Process(db, disk, path, source, m, hash, moved) ==
        match StoreNew(db, m, f, hash, moved, Join(FinalPath(disk.files, a, hash)), source, path)
        case Stored(db') => Outcome(db', d, true)
        case Raised(id, message) => Outcome(Failed(db, id, source, path, message), d, false)
  {
  }

  // ---------------------------------------------------------------------------------------
  // What a call does

  /** A known digest adds exactly one `'success'` record, for the first image with that digest, and nothing else. */
  lemma KnownHashRecordsOnce(db: Store, disk: Disk, path: string, source: string, m: Metadata, hash: string, moved: string)
    requires path in disk.synced && ByHash(db.images, hash).Some?
    ensures var r := Process(db, disk, path, source, m, hash, moved);
      && r.ok && r.disk == disk && r.db.images == db.images
      && exists id :: (
           && 1 <= id <= |db.images| && db.images[id - 1].sha256 == hash
           && (forall j :: 0 <= j < id - 1 ==> db.images[j].sha256 != hash)
           && r.db == db.(records := db.records + [Record(Some(id), source, path, "success", None)]))
  {
    var i := ByHash(db.images, hash).value;
    assert 1 <= i + 1 <= |db.images| && db.images[i].sha256 == hash;
  }

  /** What a stored image brings: its row and its one `'success'` record. */
  lemma StoredNew(db: Store, m: Metadata, f: ImageMeta, hash: string, moved: string, localPath: string, source: string, path: string)
    requires StoreNew(db, m, f, hash, moved, localPath, source, path).Stored?
    ensures var s := StoreNew(db, m, f, hash, moved, localPath, source, path).db;
      && moved == hash && !UrlTaken(db.images, f.url)
      && s.images == db.images + [ImageRow(f, hash, localPath)]
      && s.records == db.records + [Record(Some(|db.images| + 1), source, path, "success", None)]
  {
  }

  /**
   * The association rows a sequence of ids adds after an existing table: no
   * row twice, one to the row of each item's key, and no other.
   */
  lemma LinksAppended<V>(links: seq<Link>, id: nat, l: Linked<V>, items: seq<V>, key: V -> Option<string>)
    requires |l.ids| == |items|
    requires forall i :: 0 <= i < |items| ==>
      key(items[i]).Some? && key(items[i]).value in l.table && l.ids[i] == l.table[key(items[i]).value].id
    ensures var s := links + Links(id, l.ids);
      var added := s[|links|..];
      && s[..|links|] == links && |added| <= |items| && Distinct(added)
      && (forall j :: 0 <= j < |items| ==> Link(id, l.table[key(items[j]).value].id) in added)
      && (forall x :: x in added ==> exists j :: 0 <= j < |items| && x == Link(id, l.table[key(items[j]).value].id))
  {
    var s := links + Links(id, l.ids);
    assert s[|links|..] == Links(id, l.ids);
    forall x | x in s[|links|..] ensures exists j :: 0 <= j < |items| && x == Link(id, l.table[key(items[j]).value].id) {
      var j :| 0 <= j < |l.ids| && l.ids[j] == x.otherId;
      assert x == Link(id, l.table[key(items[j]).value].id);
    }
    forall j | 0 <= j < |items| ensures Link(id, l.table[key(items[j]).value].id) in s[|links|..] {
      assert l.ids[j] in l.ids;
    }
  }

  /**
   * Find-or-create followed by the image's association rows: no row twice,
   * one to the row of each item's key and no other; old rows are kept.
   */
  lemma FindOrCreateLinks<V>(t: map<string, Row<V>>, next: nat, items: seq<V>, key: V -> Option<string>, links: seq<Link>, id: nat)
    requires FindOrCreate(t, next, items, key).Some?
    ensures var l := FindOrCreate(t, next, items, key).value;
      var s := links + Links(id, l.ids);
      var added := s[|links|..];
      && s[..|links|] == links && |added| <= |items| && Distinct(added)
      && (forall j :: 0 <= j < |items| ==> key(items[j]).Some? && key(items[j]).value in l.table)
      && (forall j :: 0 <= j < |items| ==> Link(id, l.table[key(items[j]).value].id) in added)
      && (forall x :: x in added ==> exists j :: 0 <= j < |items| && x == Link(id, l.table[key(items[j]).value].id))
      && (forall k :: k in t ==> k in l.table && l.table[k] == t[k])
  {
    var l := FindOrCreate(t, next, items, key).value;
    FindOrCreateRows(t, next, items, key);
    FindOrCreateIds(t, next, items, key);
    LinksAppended(links, id, l, items, key);
  }

  /**
   * A stored image is linked once to the tag row filed under each of its
   * names and to no other, a name given twice included; the tags already
   * there stay as they were.
   */
  lemma StoredNewTags(db: Store, m: Metadata, f: ImageMeta, hash: string, moved: string, localPath: string, source: string, path: string)
    requires StoreNew(db, m, f, hash, moved, localPath, source, path).Stored?
    ensures var s, id := StoreNew(db, m, f, hash, moved, localPath, source, path).db, |db.images| + 1;
      var added := s.imageTags[|db.imageTags|..];
      && |db.imageTags| <= |s.imageTags| <= |db.imageTags| + |m.tags| && s.imageTags[..|db.imageTags|] == db.imageTags
      && Distinct(added)
      && (forall j :: 0 <= j < |m.tags| ==> m.tags[j] in s.tags && Link(id, s.tags[m.tags[j]].id) in added)
      && (forall x :: x in added ==> exists j :: 0 <= j < |m.tags| && m.tags[j] in s.tags && x == Link(id, s.tags[m.tags[j]].id))
      && (forall k :: k in db.tags ==> k in s.tags && s.tags[k] == db.tags[k])
  {
    var tags := TagsOf(db.tags, db.nextId, m.tags).value;
    var s := StoreNew(db, m, f, hash, moved, localPath, source, path).db;
    assert s.tags == tags.table && s.imageTags == db.imageTags + Links(|db.images| + 1, tags.ids);
    FindOrCreateLinks(db.tags, db.nextId, m.tags, TagKey, db.imageTags, |db.images| + 1);
  }

  /** A tag named twice gives the image one row in `image_tags`, not two. */
  lemma RepeatedTagLinkedOnce(db: Store, m: Metadata, f: ImageMeta, hash: string, moved: string, localPath: string, source: string, path: string, name: string)
    requires StoreNew(db, m, f, hash, moved, localPath, source, path).Stored?
    requires m.tags == [name, name]
    ensures |StoreNew(db, m, f, hash, moved, localPath, source, path).db.imageTags| == |db.imageTags| + 1
  {
    var s := StoreNew(db, m, f, hash, moved, localPath, source, path).db;
    StoredNewTags(db, m, f, hash, moved, localPath, source, path);
    var added := s.imageTags[|db.imageTags|..];
    var link := Link(|db.images| + 1, s.tags[name].id);
    assert m.tags[0] == name;
    assert link in added;
    assert forall x :: x in added ==> x == link;
    AllSameCount(added, link);
    DistinctMultiset(added, link);
  }

  /**
   * A stored image is linked once to the album row filed under each album's
   * `album_id` and to no other; the albums already there stay as they were.
   */
  lemma StoredNewAlbums(db: Store, m: Metadata, f: ImageMeta, hash: string, moved: string, localPath: string, source: string, path: string)
    requires StoreNew(db, m, f, hash, moved, localPath, source, path).Stored?
    ensures var s, id := StoreNew(db, m, f, hash, moved, localPath, source, path).db, |db.images| + 1;
      var added := s.imageAlbums[|db.imageAlbums|..];
      && |db.imageAlbums| <= |s.imageAlbums| <= |db.imageAlbums| + |m.albums| && s.imageAlbums[..|db.imageAlbums|] == db.imageAlbums
      && Distinct(added)
      && (forall j :: 0 <= j < |m.albums| ==> m.albums[j].key.Some? && m.albums[j].key.value in s.albums)
      && (forall j :: 0 <= j < |m.albums| ==> Link(id, s.albums[m.albums[j].key.value].id) in added)
      && (forall x :: x in added ==> exists j :: 0 <= j < |m.albums| && x == Link(id, s.albums[m.albums[j].key.value].id))
      && (forall k :: k in db.albums ==> k in s.albums && s.albums[k] == db.albums[k])
  {
    var tags := TagsOf(db.tags, db.nextId, m.tags).value;
    var albums := FindOrCreate(db.albums, tags.next, m.albums, GroupKey).value;
    var s := StoreNew(db, m, f, hash, moved, localPath, source, path).db;
    assert s.albums == albums.table && s.imageAlbums == db.imageAlbums + Links(|db.images| + 1, albums.ids);
    FindOrCreateLinks(db.albums, tags.next, m.albums, GroupKey, db.imageAlbums, |db.images| + 1);
  }

  /**
   * A new digest leads to a stored image exactly when the metadata and the
   * author are present, the digest survives the move and the URL is new; the
   * row points at the moved file.
   */
  lemma NewImageStored(db: Store, disk: Disk, path: string, source: string, m: Metadata, hash: string, moved: string)
    requires path in disk.synced && ByHash(db.images, hash).None?
    requires Process(db, disk, path, source, m, hash, moved).ok
    ensures var r := Process(db, disk, path, source, m, hash, moved);
      && m.fields.Some? && m.fields.value.author.Some? && moved == hash
      && !UrlTaken(db.images, m.fields.value.url)
      && var p := FinalPath(disk.files, m.fields.value.author.value, hash);
      && r.db == StoreNew(db, m, m.fields.value, hash, moved, Join(p), source, path).db
      && r.db.images == db.images + [ImageRow(m.fields.value, hash, Join(p))]
      && r.db.records == db.records + [Record(Some(|db.images| + 1), source, path, "success", None)]
      && p in r.disk.files && path !in r.disk.synced
  {
    var f := m.fields.value;
    var p := FinalPath(disk.files, f.author.value, hash);
    StoredNew(db, m, f, hash, moved, Join(p), source, path);
  }

  /** A shard name is a multiple of a thousand not above the author's file count. */
  lemma ShardIsBlockStart(files: set<Path>, author: string)
    ensures exists s: nat :: (
      && Shard(files, author) == NatToString(s)
      && s % FilesPerShard == 0 && s <= |TreeFiles(files, author)| < s + FilesPerShard)
  {
    var s := ShardStart(|TreeFiles(files, author)|);
    assert Shard(files, author) == NatToString(s);
  }

  /** The stored path names the moved file: splitting it at `/` gives its components back. */
  lemma {:induction false} JoinSplits(p: Path)
    requires |p| > 0 && forall i :: 0 <= i < |p| ==> '/' !in p[i]
    ensures Split(Join(p), '/') == p
  {
    if |p| > 1 {
      JoinSplits(p[1..]);
      SplitCons(p[0], '/', Join(p[1..]));
      assert p[0] + "/" + Join(p[1..]) == p[0] + ['/'] + Join(p[1..]);
      assert p == [p[0]] + p[1..];
    } else {
      assert '/' !in p[0];
    }
  }

  /** A new image's `local_path` is `<author>/<shard>/<digest>.jpg`. */
  lemma LocalPathOfNew(files: set<Path>, author: string, hash: string)
    requires '/' !in author && '/' !in hash
    ensures Split(Join(FinalPath(files, author, hash)), '/') == [author, Shard(files, author), hash + ".jpg"]
  {
    var p := FinalPath(files, author, hash);
    var shard, name := Shard(files, author), hash + ".jpg";
    assert forall i :: 0 <= i < |shard| ==> IsDigit(shard[i]);
    assert forall i :: 0 <= i < |name| ==> name[i] == (if i < |hash| then hash[i] else ".jpg"[i - |hash|]);
    JoinSplits(p);
  }

  /**
   * A digest that changes in the move rolls everything back and commits one
   * `'failed'` record without an image id; the moved file stays where it went.
   */
  lemma HashMismatchRollsBack(db: Store, disk: Disk, path: string, source: string, m: Metadata, hash: string, moved: string)
    requires path in disk.synced && ByHash(db.images, hash).None?
    requires m.fields.Some? && m.fields.value.author.Some? && moved != hash
    ensures var r := Process(db, disk, path, source, m, hash, moved);
      && !r.ok && r.db == Failed(db, None, source, path, HashMismatchMessage)
      && FinalPath(disk.files, m.fields.value.author.value, hash) in r.disk.files && path !in r.disk.synced
  {
  }

  /**
   * A failed call leaves every table but the sync records as the last commit
   * had it, and adds one `'failed'` record exactly when the `Image` object had
   * been built: the synced file exists, its digest is new and the metadata is complete.
   */
  lemma FailureRecordedIffImageBuilt(db: Store, disk: Disk, path: string, source: string, m: Metadata, hash: string, moved: string)
    requires !Process(db, disk, path, source, m, hash, moved).ok
    ensures var r := Process(db, disk, path, source, m, hash, moved);
      && r.db.(records := db.records) == db
      && var built := path in disk.synced && ByHash(db.images, hash).None? && m.fields.Some?;
      && (built ==> exists id, message :: r.db.records == db.records + [Record(id, source, path, "failed", Some(message))])
      && (!built ==> r.db == db && r.disk == disk)
  {
  }

  /**
   * A failed record that carries an image id names the row that was flushed
   * and then rolled back: no image has that id, and it is the id the next
   * stored image gets.
   */
  lemma FailedIdIsReused(db: Store, disk: Disk, path: string, source: string, m: Metadata, hash: string, moved: string,
                         id: nat, message: string)
    requires Process(db, disk, path, source, m, hash, moved).db.records == db.records + [Record(Some(id), source, path, "failed", Some(message))]
    ensures var r := Process(db, disk, path, source, m, hash, moved);
      !r.ok && r.db.images == db.images && id == |db.images| + 1
  {
    var r := Process(db, disk, path, source, m, hash, moved);
    assert r.db.records[|db.records|].status == "failed";
  }

  // ---------------------------------------------------------------------------------------
  // Invariants of the store and of the shards

  /**
   * The unique columns stay unique: at most one image per URL and per digest,
   * tag, album and collection rows filed under their own keys, with distinct ids.
   */
  ghost predicate Valid(db: Store) {
    && (forall i, j :: 0 <= i < j < |db.images| ==> db.images[i].meta.url != db.images[j].meta.url)
    && (forall i, j :: 0 <= i < j < |db.images| ==> db.images[i].sha256 != db.images[j].sha256)
    && KeyedBy(db.tags, TagKey) && IdsFresh(db.tags, db.nextId)
    && KeyedBy(db.albums, GroupKey) && IdsFresh(db.albums, db.nextId)
    && KeyedBy(db.collections, GroupKey) && IdsFresh(db.collections, db.nextId)
  }

  /** Ids below `next` stay fresh below a larger bound. */
  lemma IdsFreshUp<V>(t: map<string, Row<V>>, next: nat, next': nat)
    requires IdsFresh(t, next) && next <= next'
    ensures IdsFresh(t, next')
  {
  }

  /** Storing a new image keeps the unique columns unique. */
  lemma StoreNewKeepsValid(db: Store, m: Metadata, f: ImageMeta, hash: string, moved: string, localPath: string, source: string, path: string)
    requires Valid(db) && ByHash(db.images, hash).None?
    requires StoreNew(db, m, f, hash, moved, localPath, source, path).Stored?
    ensures Valid(StoreNew(db, m, f, hash, moved, localPath, source, path).db)
  {
    var s := StoreNew(db, m, f, hash, moved, localPath, source, path).db;
    var tags := TagsOf(db.tags, db.nextId, m.tags).value;
    var albums := FindOrCreate(db.albums, tags.next, m.albums, GroupKey).value;
    var colls := FindOrCreate(db.collections, albums.next, m.collections, GroupKey).value;
    FindOrCreateKeepsKeys(db.tags, db.nextId, m.tags, TagKey);
    IdsFreshUp(db.albums, db.nextId, tags.next);
    FindOrCreateKeepsKeys(db.albums, tags.next, m.albums, GroupKey);
    IdsFreshUp(db.collections, db.nextId, albums.next);
    FindOrCreateKeepsKeys(db.collections, albums.next, m.collections, GroupKey);
    IdsFreshUp(tags.table, tags.next, colls.next);
    IdsFreshUp(albums.table, albums.next, colls.next);
    ImagesStayUnique(db.images, ImageRow(f, hash, localPath));
  }

  /** A row whose URL and digest are new keeps both columns unique. */
  lemma ImagesStayUnique(images: seq<ImageRow>, row: ImageRow)
    requires forall i, j :: 0 <= i < j < |images| ==> images[i].meta.url != images[j].meta.url
    requires forall i, j :: 0 <= i < j < |images| ==> images[i].sha256 != images[j].sha256
    requires !UrlTaken(images, row.meta.url) && ByHash(images, row.sha256).None?
    ensures var s := images + [row];
      && (forall i, j :: 0 <= i < j < |s| ==> s[i].meta.url != s[j].meta.url)
      && (forall i, j :: 0 <= i < j < |s| ==> s[i].sha256 != s[j].sha256)
  {
  }

  /** Every call keeps the unique columns unique. */
  lemma {:induction false} ProcessKeepsValid(db: Store, disk: Disk, path: string, source: string, m: Metadata, hash: string, moved: string)
    requires Valid(db)
    ensures Valid(Process(db, disk, path, source, m, hash, moved).db)
  {
    if path in disk.synced && ByHash(db.images, hash).None? && m.fields.Some? && m.fields.value.author.Some? {
      var f := m.fields.value;
      var localPath := Join(FinalPath(disk.files, f.author.value, hash));
      if StoreNew(db, m, f, hash, moved, localPath, source, path).Stored? {
        StoreNewKeepsValid(db, m, f, hash, moved, localPath, source, path);
      }
    }
  }

  /**
   * Shard `k` holds at most a thousand files, and no more than the author's
   * count beyond its first file number accounts for.
   */
  ghost predicate ShardBound(files: set<Path>, author: string, k: nat) {
    && |ShardFiles(files, author, k)| <= FilesPerShard
    && FilesPerShard * k + |ShardFiles(files, author, k)| <= if |TreeFiles(files, author)| < FilesPerShard * k then FilesPerShard * k else |TreeFiles(files, author)|
  }

  ghost predicate Balanced(files: set<Path>, author: string) {
    forall k: nat :: ShardBound(files, author, k)
  }

  /** How the author's counts change when one new file goes into the shard starting at `m * 1000`. */
  lemma AddToShard(files: set<Path>, author: string, p: Path, m: nat, k: nat)
    requires p !in files && |p| == 3 && p[0] == author && p[1] == NatToString(m * FilesPerShard)
    ensures |TreeFiles(files + {p}, author)| == |TreeFiles(files, author)| + 1
    ensures |ShardFiles(files + {p}, author, k)| == |ShardFiles(files, author, k)| + (if k == m then 1 else 0)
  {
    TreeFilesAdd(files, author, p);
    if k == m {
      ShardFilesAddOwn(files, author, p, m);
    } else {
      ShardFilesAddOther(files, author, p, m, k);
    }
  }

  lemma TreeFilesAdd(files: set<Path>, author: string, p: Path)
    requires p !in files && |p| == 3 && p[0] == author
    ensures |TreeFiles(files + {p}, author)| == |TreeFiles(files, author)| + 1
  {
    assert TreeFiles(files + {p}, author) == TreeFiles(files, author) + {p};
  }

  lemma ShardFilesAddOwn(files: set<Path>, author: string, p: Path, m: nat)
    requires p !in files && |p| == 3 && p[0] == author && p[1] == NatToString(m * FilesPerShard)
    ensures |ShardFiles(files + {p}, author, m)| == |ShardFiles(files, author, m)| + 1
  {
    assert ShardFiles(files + {p}, author, m) == ShardFiles(files, author, m) + {p};
  }

  lemma ShardFilesAddOther(files: set<Path>, author: string, p: Path, m: nat, k: nat)
    requires |p| == 3 && p[1] == NatToString(m * FilesPerShard) && k != m
    ensures ShardFiles(files + {p}, author, k) == ShardFiles(files, author, k)
  {
    if NatToString(k * FilesPerShard) == NatToString(m * FilesPerShard) {
      NatToStringInjective(k * FilesPerShard, m * FilesPerShard);
    }
  }

  /** With the intended count, the moved file keeps every shard of its author within a thousand files. */
  lemma {:induction false} MoveKeepsShardsBounded(files: set<Path>, author: string, hash: string)
    requires Balanced(files, author)
    ensures Balanced(files + {FinalPath(files, author, hash)}, author)
  {
    var p := FinalPath(files, author, hash);
    if p !in files {
      var n := |TreeFiles(files, author)|;
      var m := n / FilesPerShard;
      assert ShardStart(n) == m * FilesPerShard;
      assert FilesPerShard * m <= n < FilesPerShard * m + FilesPerShard;
      forall k: nat ensures ShardBound(files + {p}, author, k) {
        assert ShardBound(files, author, k);
        AddToShard(files, author, p, m, k);
      }
    } else {
      assert files + {p} == files;
    }
  }

  /** A file of another author leaves this author's shards alone. */
  lemma {:induction false} OtherMoveKeepsShards(files: set<Path>, author: string, p: Path)
    requires Balanced(files, author) && (|p| <= 1 || p[0] != author)
    ensures Balanced(files + {p}, author)
  {
    assert TreeFiles(files + {p}, author) == TreeFiles(files, author);
    forall k: nat ensures ShardBound(files + {p}, author, k) {
      assert ShardBound(files, author, k);
      assert ShardFiles(files + {p}, author, k) == ShardFiles(files, author, k);
    }
  }

  /** Every call keeps every author's shards within a thousand files. */
  lemma {:induction false} ProcessKeepsShards(db: Store, disk: Disk, path: string, source: string, m: Metadata, hash: string, moved: string, other: string)
    requires Balanced(disk.files, other)
    ensures Balanced(Process(db, disk, path, source, m, hash, moved).disk.files, other)
  {
    var r := Process(db, disk, path, source, m, hash, moved);
    if r.disk != disk {
      var a := m.fields.value.author.value;
      assert r.disk == Moved(disk, a, path, hash);
      if a == other {
        MoveKeepsShardsBounded(disk.files, a, hash);
      } else {
        OtherMoveKeepsShards(disk.files, other, FinalPath(disk.files, a, hash));
      }
    }
  }

  /**
   * As written the count is of the author directory's entries, which are the
   * shard directories themselves: an author whose directory holds only shard
   * `0` keeps getting shard `0`, however many files it has, and still holds
   * only shard `0` afterwards.
   */
  lemma {:induction false} AsWrittenShardStaysZero(disk: Disk, author: string, hash: string)
    requires Entries(disk, author) <= {[author, "0"]}
    requires [author, "0", hash + ".jpg"] !in disk.files
    ensures ShardAsWritten(disk.(dirs := disk.dirs + {[author]}), author) == "0"
    ensures var p := [author, "0", hash + ".jpg"];
      var after := disk.(dirs := disk.dirs + {[author], [author, "0"]}, files := disk.files + {p});
      && Entries(after, author) == {[author, "0"]}
      && |ShardFiles(after.files, author, 0)| == |ShardFiles(disk.files, author, 0)| + 1
  {
    ShardNameStaysZero(disk, author);
    EntriesStayZero(disk, author, hash);
    ShardZeroGrows(disk, author, hash);
  }

  lemma ShardNameStaysZero(disk: Disk, author: string)
    requires Entries(disk, author) <= {[author, "0"]}
    ensures ShardAsWritten(disk.(dirs := disk.dirs + {[author]}), author) == "0"
  {
    var d1 := disk.(dirs := disk.dirs + {[author]});
    assert Entries(d1, author) == Entries(disk, author);
    assert Entries(disk, author) == {} || Entries(disk, author) == {[author, "0"]};
  }

  lemma EntriesStayZero(disk: Disk, author: string, hash: string)
    requires Entries(disk, author) <= {[author, "0"]}
    ensures var p := [author, "0", hash + ".jpg"];
      var after := disk.(dirs := disk.dirs + {[author], [author, "0"]}, files := disk.files + {p});
      Entries(after, author) == {[author, "0"]}
  {
    var p := [author, "0", hash + ".jpg"];
    var after := disk.(dirs := disk.dirs + {[author], [author, "0"]}, files := disk.files + {p});
    assert Entries(after, author) == Entries(disk, author) + {[author, "0"]};
  }

  lemma ShardZeroGrows(disk: Disk, author: string, hash: string)
    requires [author, "0", hash + ".jpg"] !in disk.files
    ensures var p := [author, "0", hash + ".jpg"];
      |ShardFiles(disk.files + {p}, author, 0)| == |ShardFiles(disk.files, author, 0)| + 1
  {
    var p := [author, "0", hash + ".jpg"];
    assert p[1] == NatToString(0 * FilesPerShard);
    assert ShardFiles(disk.files + {p}, author, 0) == ShardFiles(disk.files, author, 0) + {p};
  }

  // ---------------------------------------------------------------------------------------
  // get_sync_progress

  datatype Progress = Progress(total: nat, completed: nat, failed: nat, pending: int)

  /** The number of records that satisfy `p`. */
  function CountIf(p: SyncRecord -> bool, rs: seq<SyncRecord>): nat {
    if |rs| == 0 then 0 else CountIf(p, rs[..|rs| - 1]) + (if p(rs[|rs| - 1]) then 1 else 0)
  }

  /** `get_sync_progress`: the three counts of the source and the remainder. */
  function SyncProgress(rs: seq<SyncRecord>, source: string): Progress {
    var total := CountIf((r: SyncRecord) => r.remoteSource == source, rs);
    var completed := CountIf((r: SyncRecord) => r.remoteSource == source && r.status == "success", rs);
    var failed := CountIf((r: SyncRecord) => r.remoteSource == source && r.status == "failed", rs);
    Progress(total, completed, failed, total - completed - failed)
  }

  /** The pending count is the number of the source's records whose status is neither `'success'` nor `'failed'`. */
  lemma {:induction false} PendingCountsOthers(rs: seq<SyncRecord>, source: string)
    ensures SyncProgress(rs, source).pending ==
      CountIf((r: SyncRecord) => r.remoteSource == source && r.status != "success" && r.status != "failed", rs)
    ensures SyncProgress(rs, source).pending >= 0
  {
    if |rs| > 0 {
      PendingCountsOthers(rs[..|rs| - 1], source);
    }
  }

  /**
   * A call adds one completed record when it succeeds and at most one failed
   * record when it fails, both for its own source; the pending count does not move.
   */
  lemma ProcessProgress(db: Store, disk: Disk, path: string, source: string, m: Metadata, hash: string, moved: string)
    ensures var r := Process(db, disk, path, source, m, hash, moved);
      var before, after := SyncProgress(db.records, source), SyncProgress(r.db.records, source);
      && after.pending == before.pending
      && (r.ok ==> after == before.(total := before.total + 1, completed := before.completed + 1))
      && (!r.ok ==> (after.completed == before.completed && after.total == before.total + (after.failed - before.failed) &&
                     before.failed <= after.failed <= before.failed + 1))
  {
    if Process(db, disk, path, source, m, hash, moved).ok {
      ProcessProgressOk(db, disk, path, source, m, hash, moved);
    } else {
      ProcessProgressFailed(db, disk, path, source, m, hash, moved);
    }
  }

  lemma ProcessProgressOk(db: Store, disk: Disk, path: string, source: string, m: Metadata, hash: string, moved: string)
    requires Process(db, disk, path, source, m, hash, moved).ok
    ensures var r := Process(db, disk, path, source, m, hash, moved);
      var before, after := SyncProgress(db.records, source), SyncProgress(r.db.records, source);
      after == before.(total := before.total + 1, completed := before.completed + 1, pending := before.pending)
  {
    var r := Process(db, disk, path, source, m, hash, moved);
    var id: Option<nat>;
    if ByHash(db.images, hash).Some? {
      id := Some(ByHash(db.images, hash).value + 1);
    } else {
      NewImageStored(db, disk, path, source, m, hash, moved);
      id := Some(|db.images| + 1);
    }
    assert r.db.records == db.records + [Record(id, source, path, "success", None)];
    ProgressAppend(db.records, source, Record(id, source, path, "success", None));
  }

  lemma ProcessProgressFailed(db: Store, disk: Disk, path: string, source: string, m: Metadata, hash: string, moved: string)
    requires !Process(db, disk, path, source, m, hash, moved).ok
    ensures var r := Process(db, disk, path, source, m, hash, moved);
      var before, after := SyncProgress(db.records, source), SyncProgress(r.db.records, source);
      && after.pending == before.pending && after.completed == before.completed
      && after.total == before.total + (after.failed - before.failed)
      && before.failed <= after.failed <= before.failed + 1
  {
    var r := Process(db, disk, path, source, m, hash, moved);
    FailureRecordedIffImageBuilt(db, disk, path, source, m, hash, moved);
    if r.db.records != db.records {
      var id, message :| r.db.records == db.records + [Record(id, source, path, "failed", Some(message))];
      ProgressAppend(db.records, source, Record(id, source, path, "failed", Some(message)));
    }
  }

  /** One more record of the source, completed or failed, moves its own count and the total. */
  lemma ProgressAppend(rs: seq<SyncRecord>, source: string, x: SyncRecord)
    requires x.remoteSource == source && (x.status == "success" || x.status == "failed")
    ensures var before, after := SyncProgress(rs, source), SyncProgress(rs + [x], source);
      && after.total == before.total + 1
      && after.completed == before.completed + (if x.status == "success" then 1 else 0)
      && after.failed == before.failed + (if x.status == "failed" then 1 else 0)
  {
    assert (rs + [x])[..|rs|] == rs;
  }

  // ---------------------------------------------------------------------------------------
  // The manager

  /** `SyncManager`: the session and the image root. */
  class Manager {
    var db: Store
    var disk: Disk

    constructor (db0: Store, disk0: Disk)
      ensures db == db0 && disk == disk0
    {
      db := db0;
      disk := disk0;
    }

    /** `process_synced_image`, given the file's digest before and after the move. */
    method ProcessSyncedImage(path: string, source: string, m: Metadata, hash: string, moved: string) returns (ok: bool)
      modifies this
      ensures Outcome(db, disk, ok) == Process(old(db), old(disk), path, source, m, hash, moved)
    {
      var committed := db;
      if path !in disk.synced {
        return false;
      }
      var existing := ByHash(db.images, hash);
      if existing.Some? {
        db := db.(records := db.records + [Record(Some(existing.value + 1), source, path, "success", None)]);
        return true;
      }
      if m.fields.None? {
        return false;
      }
      var image := m.fields.value;
      if image.author.None? {
        db := Failed(committed, None, source, path, SyncManager.NoneAuthorError);
        return false;
      }
      var author := image.author.value;
      var disk0 := disk;
      var shard := Shard(disk.files, author);
      disk := disk.(dirs := disk.dirs + {[author], [author, shard]});
      var finalPath := [author, shard, hash + ".jpg"];
      disk := disk.(files := disk.files + {finalPath}, synced := disk.synced - {path});
      assert finalPath == FinalPath(disk0.files, author, hash) && finalPath[..2] == [author, shard];
      assert disk == Moved(disk0, author, path, hash);
      ProcessMoved(committed, disk0, path, source, m, hash, moved);
      ghost var localPath := Join(finalPath);
      if moved != hash {
        assert StoreNew(committed, m, image, hash, moved, localPath, source, path) == Raised(None, HashMismatchMessage);
        db := Failed(committed, None, source, path, HashMismatchMessage);
        return false;
      }
      if UrlTaken(db.images, image.url) {
        assert StoreNew(committed, m, image, hash, moved, localPath, source, path) == Raised(None, UrlClashMessage);
        db := Failed(committed, None, source, path, UrlClashMessage);
        return false;
      }
      var id := |db.images| + 1;
      db := db.(images := db.images + [ImageRow(image, hash, Join(finalPath))]);
      var tags := LinkAll(db.tags, db.nextId, m.tags, TagKey);
      FindOrCreateFails(committed.tags, committed.nextId, m.tags, TagKey);
      db := db.(tags := tags.value.table, imageTags := db.imageTags + Links(id, tags.value.ids));
      var albums := LinkAll(db.albums, tags.value.next, m.albums, GroupKey);
      if albums.None? {
        db := Failed(committed, Some(id), source, path, NoAlbumIdMessage);
        return false;
      }
      db := db.(albums := albums.value.table, imageAlbums := db.imageAlbums + Links(id, albums.value.ids));
      var colls := LinkAll(db.collections, albums.value.next, m.collections, GroupKey);
      if colls.None? {
        db := Failed(committed, Some(id), source, path, NoCollectionIdMessage);
        return false;
      }
      db := db.(collections := colls.value.table, imageCollections := db.imageCollections + Links(id, colls.value.ids),
                nextId := colls.value.next);
      db := db.(records := db.records + [Record(Some(id), source, path, "success", None)]);
      return true;
    }
  }
}
