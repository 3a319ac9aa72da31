/**
 * Verification of downloaded images: every image file is checked to be a readable JPEG;
 * a corrupted one is deleted, together with the image's database rows, when the user
 * confirms it (or has confirmed all files of that author).
 */
module VerifyDownloads {
  import opened Wrappers
  import opened Text
  import opened Seqs

  /** A row of `images`, as far as verification reads it. */
  datatype ImageRow = ImageRow(localPath: Option<string>, author: Option<string>)

  /**
   * The rows of a table that refers to images by `image_id`: the image id and the rest of
   * the row.
   */
  type Rows = set<(nat, string)>

  /** The tables `delete_image_data` deletes from. */
  datatype Db = Db(images: map<nat, ImageRow>, imageCollections: Rows, imageAlbums: Rows,
                   imageTags: Rows, markedImages: Rows, imageNotes: Rows)

  /** The rows of `rows` that do not belong to image `id`. */
  function Without(rows: Rows, id: nat): Rows {
    set p | p in rows && p.0 != id
  }

  /**
   * `delete_image_data`: deletes the image's rows from the five dependent tables and from
   * `images`, all in one transaction; `ok` is false when the database raises, and then
   * the rollback leaves every table as it was.
   */
  function DeleteImageData(db: Db, id: nat, ok: bool): (Db, bool) {
    if !ok then (db, false)
    else
      (Db(db.images - {id}, Without(db.imageCollections, id), Without(db.imageAlbums, id),
          Without(db.imageTags, id), Without(db.markedImages, id), Without(db.imageNotes, id)), true)
  }

  /** The image has no rows left after a deletion that succeeds, and nothing else is removed. */
  lemma DeleteImageDataSpec(db: Db, id: nat, ok: bool, q: (nat, string), other: nat)
    ensures var r := DeleteImageData(db, id, ok);
      && r.1 == ok
      && (!ok ==> r.0 == db)
      && (ok ==> id !in r.0.images && (other != id ==> (other in r.0.images <==> other in db.images)))
      && (ok && other != id && other in db.images ==> r.0.images[other] == db.images[other])
      && (ok ==> (q in r.0.imageTags <==> q in db.imageTags && q.0 != id))
      && (ok ==> (q in r.0.imageCollections <==> q in db.imageCollections && q.0 != id))
      && (ok ==> (q in r.0.imageAlbums <==> q in db.imageAlbums && q.0 != id))
      && (ok ==> (q in r.0.markedImages <==> q in db.markedImages && q.0 != id))
      && (ok ==> (q in r.0.imageNotes <==> q in db.imageNotes && q.0 != id))
  {
  }

  /** The answers the prompt understands. */
  datatype Answer = Yes | No | All | Quit

  /** A typed line, lower-cased: `y`, `n`, `a` and `q` are answers; anything else is not. */
  function Reply(line: string): (r: Option<Answer>)
    ensures r == Some(Yes) <==> Lower(line) == "y"
    ensures r == Some(No) <==> Lower(line) == "n"
    ensures r == Some(All) <==> Lower(line) == "a"
    ensures r == Some(Quit) <==> Lower(line) == "q"
  {
    var l := Lower(line);
    if l == "y" then Some(Yes)
    else if l == "n" then Some(No)
    else if l == "a" then Some(All)
    else if l == "q" then Some(Quit)
    else None
  }

  /** What the prompt ends with: an answer and the input after it, or the end of the input. */
  datatype Prompted = Answered(answer: Answer, rest: seq<string>) | EndOfInput

  /** The prompt loop reads lines until one is an answer; at the end of input `input()` raises. */
  function Prompt(input: seq<string>): Prompted
    decreases |input|
  {
    if |input| == 0 then EndOfInput
    else match Reply(input[0])
      case Some(a) => Answered(a, input[1..])
      case None => Prompt(input[1..])
  }

  /** The user's answer is the first line that is an answer; the lines before it are re-prompted. */
  lemma {:induction false} PromptFirstAnswer(input: seq<string>, k: nat)
    requires k < |input| && Reply(input[k]).Some?
    requires forall j :: 0 <= j < k ==> Reply(input[j]).None?
    ensures Prompt(input) == Answered(Reply(input[k]).value, input[k + 1..])
    decreases k
  {
    if k > 0 {
      assert forall j :: 0 <= j < k - 1 ==> input[1..][j] == input[j + 1];
      PromptFirstAnswer(input[1..], k - 1);
      assert input[1..][k - 1 + 1..] == input[k + 1..];
    }
  }

  /** Without any answer in the input the prompt runs out of input. */
  lemma {:induction false} PromptNoAnswer(input: seq<string>)
    requires forall j :: 0 <= j < |input| ==> Reply(input[j]).None?
    ensures Prompt(input) == EndOfInput
    decreases |input|
  {
    if |input| > 0 {
      assert forall j :: 0 <= j < |input| - 1 ==> input[1..][j] == input[j + 1];
      PromptNoAnswer(input[1..]);
    }
  }

  /** What `process_corrupted_file` decides. */
  datatype Decision = Delete | Skip | DeleteAll | Interrupt | NoInput

  /** The decision for an answer. */
  function Decide(a: Answer): Decision {
    match a
    case Yes => Delete
    case No => Skip
    case All => DeleteAll
    case Quit => Interrupt
  }

  /**
   * `process_corrupted_file`: an author's automatic setting decides without asking;
   * otherwise the user is asked. Returns the decision and the input left.
   */
  function ProcessCorrupted(auto: Option<bool>, input: seq<string>): (r: (Decision, seq<string>))
    ensures auto == Some(true) ==> r == (Delete, input)
    ensures auto == Some(false) ==> r == (Skip, input)
    ensures exists k :: 0 <= k <= |input| && r.1 == input[k..]
  {
    assert input[0..] == input && input[|input|..] == [];
    if auto == Some(true) then (Delete, input)
    else if auto == Some(false) then (Skip, input)
    else
      match Prompt(input)
      case Answered(a, rest) => PromptRest(input); (Decide(a), rest)
      case EndOfInput => (NoInput, [])
  }

  /** The input left after an answer is a suffix of the input. */
  lemma {:induction false} PromptRest(input: seq<string>)
    ensures Prompt(input).Answered? ==> exists k :: 0 <= k <= |input| && Prompt(input).rest == input[k..]
    decreases |input|
  {
    if |input| > 0 && Reply(input[0]).None? {
      PromptRest(input[1..]);
      if Prompt(input).Answered? {
        var k :| 0 <= k <= |input[1..]| && Prompt(input[1..]).rest == input[1..][k..];
        assert input[1..][k..] == input[k + 1..];
      }
    } else if |input| > 0 {
      assert Prompt(input).rest == input[1..];
    }
  }

  /** An image as the query returns it, ordered by author and id. */
  datatype Listed = Listed(id: nat, localPath: Option<string>, author: Option<string>)

  /** `ORDER BY author, id`: NULL authors first, then by author text, then by id. */
  predicate ListedLe(a: Listed, b: Listed) {
    match (a.author, b.author)
    case (None, None) => a.id <= b.id
    case (None, Some(_)) => true
    case (Some(_), None) => false
    case (Some(x), Some(y)) => (StrLe(x, y) && !StrLe(y, x)) || (StrLe(x, y) && StrLe(y, x) && a.id <= b.id)
  }

  function ByAuthorId(): (Listed, Listed) -> bool {
    (a: Listed, b: Listed) => ListedLe(a, b)
  }

  lemma ByAuthorIdIsPreorder()
    ensures TotalPreorder(ByAuthorId())
  {
    forall a: Listed, b: Listed ensures ListedLe(a, b) || ListedLe(b, a) {
      if a.author.Some? && b.author.Some? {
        StrLeTotal(a.author.value, b.author.value);
      }
    }
    forall a: Listed, b: Listed, c: Listed | ListedLe(a, b) && ListedLe(b, c) ensures ListedLe(a, c) {
      if a.author.Some? && b.author.Some? && c.author.Some? {
        var x, y, z := a.author.value, b.author.value, c.author.value;
        StrLeTrans(x, y, z);
        if StrLe(z, x) {
          StrLeTrans(z, x, y);
          StrLeTrans(y, z, x);
        }
      }
    }
  }

  /** The rows of `images` in the table's scan order `scan`. */
  function Scanned(db: Db, scan: seq<nat>): (r: seq<Listed>)
    ensures forall x :: x in r <==> (x.id in scan && x.id in db.images &&
      x.localPath == db.images[x.id].localPath && x.author == db.images[x.id].author)
  {
    if |scan| == 0 then []
    else
      var init := Scanned(db, scan[..|scan| - 1]);
      var id := scan[|scan| - 1];
      assert forall x :: x in scan <==> x in scan[..|scan| - 1] || x == id;
      if id in db.images then init + [Listed(id, db.images[id].localPath, db.images[id].author)]
      else init
  }

  /** The query of `verify_downloads`: every image, ordered by author and id. */
  function Query(db: Db, scan: seq<nat>): seq<Listed> {
    SortBy(ByAuthorId(), Scanned(db, scan))
  }

  /** The query lists exactly the images of the table, in author-then-id order. */
  lemma QueryListsImages(db: Db, scan: seq<nat>, x: Listed)
    ensures x in Query(db, scan) <==> x.id in scan && x.id in db.images && x == Listed(x.id, db.images[x.id].localPath, db.images[x.id].author)
    ensures SortedBy(ByAuthorId(), Query(db, scan))
  {
    var s := Scanned(db, scan);
    assert x in Query(db, scan) <==> x in s by {
      assert x in Query(db, scan) <==> x in multiset(Query(db, scan));
    }
    ByAuthorIdIsPreorder();
    SortBySorted(ByAuthorId(), s);
  }

  /** A scan order of `images` in which SQLite visits each row exactly once. */
  ghost predicate IsScanOf(db: Db, scan: seq<nat>) {
    multiset(scan) == multiset(db.images.Keys)
  }

  /** A scan over ids that are all in the table keeps one row per id. */
  lemma {:induction false} ScannedLength(db: Db, scan: seq<nat>)
    requires forall i :: 0 <= i < |scan| ==> scan[i] in db.images
    ensures |Scanned(db, scan)| == |scan|
  {
    if |scan| > 0 {
      ScannedLength(db, scan[..|scan| - 1]);
    }
  }

  /** Over a real scan order, the query lists every image of the table exactly once. */
  lemma QueryIsTable(db: Db, scan: seq<nat>)
    requires IsScanOf(db, scan)
    ensures |Query(db, scan)| == |db.images|
    ensures forall x :: x in Query(db, scan) <==>
              x.id in db.images && x == Listed(x.id, db.images[x.id].localPath, db.images[x.id].author)
  {
    forall id ensures id in scan <==> id in db.images {
      assert id in scan <==> id in multiset(scan);
      assert id in db.images.Keys <==> id in multiset(db.images.Keys);
    }
    assert forall i :: 0 <= i < |scan| ==> scan[i] in scan;
    ScannedLength(db, scan);
    assert |scan| == |multiset(scan)|;
    forall x ensures x in Query(db, scan) <==>
                       x.id in db.images && x == Listed(x.id, db.images[x.id].localPath, db.images[x.id].author) {
      QueryListsImages(db, scan, x);
    }
  }

  /** Why the run ended, when it did. */
  datatype Stop = Running | Interrupted | InputEnded

  /**
   * The run's state: the tables, the files on disk, the input still to be typed, each
   * author's automatic setting (`defaultdict(lambda: None)`: an author without an entry has
   * none), the counters, and whether the run stopped.
   */
  datatype State = State(db: Db, files: set<string>, input: seq<string>,
                         auto: map<Option<string>, bool>, corrupted: nat, deleted: nat, stop: Stop)

  /**
   * The environment: whether a file is a readable JPEG, whether removing it succeeds, and
   * whether deleting an image's rows succeeds.
   */
  datatype Env = Env(isJpeg: string -> bool, removes: string -> bool, dbOk: nat -> bool)

  /** A `local_path` that is neither NULL nor empty and exists on disk. */
  predicate Present(s: State, x: Listed) {
    x.localPath.Some? && x.localPath.value != "" && x.localPath.value in s.files
  }

  /**
   * One image of the loop. A missing file is skipped; a readable JPEG is left alone; a
   * corrupted file is counted and decided on, and on deletion the file is removed first:
   * if that fails, the rows stay; otherwise the rows are deleted and, when that succeeds,
   * counted.
   */
  function Step(s: State, x: Listed, env: Env): State
    requires s.stop == Running
  {
    if !Present(s, x) then s
    else
      var path := x.localPath.value;
      if env.isJpeg(path) then s
      else
        var s1 := s.(corrupted := s.corrupted + 1);
        var d := ProcessCorrupted(if x.author in s.auto then Some(s.auto[x.author]) else None, s.input);
        var s2 := s1.(input := d.1);
        match d.0
        case Interrupt => s2.(stop := Interrupted)
        case NoInput => s2.(stop := InputEnded)
        case Skip => s2
        case _ =>
          var s3 := if d.0 == DeleteAll then s2.(auto := s2.auto[x.author := true]) else s2;
          if !env.removes(path) then s3
          else
            var r := DeleteImageData(s3.db, x.id, env.dbOk(x.id));
            s3.(files := s3.files - {path}, db := r.0, deleted := if r.1 then s3.deleted + 1 else s3.deleted)
  }

  /** The loop over the listed images, until the end or a stop. */
  function Run(s: State, xs: seq<Listed>, env: Env): State
    decreases |xs|
  {
    if |xs| == 0 || s.stop != Running then s
    else Run(Step(s, xs[0], env), xs[1..], env)
  }

  /**
   * The settings only ever become true, so the automatic skip branch never runs, and
   * deletions never outnumber corrupted files.
   */
  predicate Sound(s: State) {
    && (forall a :: a in s.auto ==> s.auto[a])
    && s.deleted <= s.corrupted
  }

  lemma StepSound(s: State, x: Listed, env: Env)
    requires s.stop == Running && Sound(s)
    ensures Sound(Step(s, x, env))
    ensures Step(s, x, env).corrupted <= s.corrupted + 1
    ensures Step(s, x, env).deleted <= s.deleted + Step(s, x, env).corrupted - s.corrupted
  {
  }

  lemma {:induction false} RunSound(s: State, xs: seq<Listed>, env: Env)
    requires Sound(s)
    ensures Sound(Run(s, xs, env))
    ensures Run(s, xs, env).deleted - s.deleted <= Run(s, xs, env).corrupted - s.corrupted
    decreases |xs|
  {
    if |xs| > 0 && s.stop == Running {
      StepSound(s, xs[0], env);
      RunSound(Step(s, xs[0], env), xs[1..], env);
    }
  }

  /**
   * A corrupted file of an author whose setting is on is deleted without reading any
   * input; so after an `a` answer the rest of that author's corrupted files are deleted
   * without prompting.
   */
  lemma AutoDeletes(s: State, x: Listed, env: Env)
    requires s.stop == Running && Present(s, x) && !env.isJpeg(x.localPath.value)
    requires x.author in s.auto && s.auto[x.author]
    ensures var r := Step(s, x, env);
      && r.input == s.input && r.stop == Running && r.corrupted == s.corrupted + 1
      && (env.removes(x.localPath.value) ==>
            x.localPath.value !in r.files && r.db == DeleteImageData(s.db, x.id, env.dbOk(x.id)).0)
  {
  }

  /** An `a` answer turns the author's setting on. */
  lemma AllSetsAuto(s: State, x: Listed, env: Env)
    requires s.stop == Running && Present(s, x) && !env.isJpeg(x.localPath.value)
    requires x.author !in s.auto && Prompt(s.input).Answered? && Prompt(s.input).answer == All
    ensures var r := Step(s, x, env); x.author in r.auto && r.auto[x.author] && r.stop == Running
  {
  }

  /**
   * A file that cannot be removed keeps its rows; without a file nothing happens at all;
   * a valid file is left as it is.
   */
  lemma StepKeepsRows(s: State, x: Listed, env: Env)
    requires s.stop == Running
    ensures !Present(s, x) ==> Step(s, x, env) == s
    ensures Present(s, x) && env.isJpeg(x.localPath.value) ==> Step(s, x, env) == s
    ensures Present(s, x) && !env.removes(x.localPath.value) ==>
      Step(s, x, env).db == s.db && Step(s, x, env).files == s.files && Step(s, x, env).deleted == s.deleted
  {
  }

  /** Nothing in `r` that was not already in `s`: no image, row or file appears. */
  predicate OnlyRemoved(r: State, s: State) {
    && r.db.images.Keys <= s.db.images.Keys && r.files <= s.files
    && r.db.imageTags <= s.db.imageTags && r.db.imageCollections <= s.db.imageCollections
    && r.db.imageAlbums <= s.db.imageAlbums && r.db.markedImages <= s.db.markedImages
    && r.db.imageNotes <= s.db.imageNotes
  }

  /** A deletion only removes rows. */
  lemma DeleteOnlyRemoves(s: State, id: nat, ok: bool, path: string)
    ensures var r := DeleteImageData(s.db, id, ok).0; OnlyRemoved(s.(files := s.files - {path}, db := r), s)
  {
  }

  /** One file only removes. */
  lemma StepOnlyRemoves(s: State, x: Listed, env: Env)
    requires s.stop == Running
    ensures OnlyRemoved(Step(s, x, env), s)
  {
    if Present(s, x) && !env.isJpeg(x.localPath.value) {
      var path := x.localPath.value;
      var d := ProcessCorrupted(if x.author in s.auto then Some(s.auto[x.author]) else None, s.input);
      var s2 := s.(corrupted := s.corrupted + 1, input := d.1);
      if d.0 == Delete || d.0 == DeleteAll {
        var s3 := if d.0 == DeleteAll then s2.(auto := s2.auto[x.author := true]) else s2;
        if env.removes(path) {
          DeleteOnlyRemoves(s3, x.id, env.dbOk(x.id), path);
        }
      }
    }
  }

  /** The run only removes: no image, row or file appears. */
  lemma {:induction false} RunOnlyRemoves(s: State, xs: seq<Listed>, env: Env)
    ensures OnlyRemoved(Run(s, xs, env), s)
    decreases |xs|
  {
    if |xs| > 0 && s.stop == Running {
      var next := Step(s, xs[0], env);
      StepOnlyRemoves(s, xs[0], env);
      RunOnlyRemoves(next, xs[1..], env);
      assert Run(s, xs, env) == Run(next, xs[1..], env);
    }
  }

  /** The database, the files on disk, and the keyboard. */
  class Verifier {
    var db: Db
    var files: set<string>
    var input: seq<string>

    constructor (db0: Db, files0: set<string>, input0: seq<string>)
      ensures db == db0 && files == files0 && input == input0
    {
      db, files, input := db0, files0, input0;
    }

    /**
     * `process_corrupted_file`: the automatic setting decides, or the user is asked until
     * a line is an answer.
     */
    method ProcessCorruptedFile(auto: Option<bool>) returns (d: Decision)
      modifies this
      ensures (d, input) == ProcessCorrupted(auto, old(input))
      ensures db == old(db) && files == old(files)
    {
      if auto == Some(true) {
        return Delete;
      } else if auto == Some(false) {
        return Skip;
      }
      while true
        invariant Prompt(input) == Prompt(old(input))
        invariant db == old(db) && files == old(files)
        decreases |input|
      {
        if |input| == 0 {
          input := [];
          return NoInput;
        }
        var line := input[0];
        input := input[1..];
        var a := Reply(line);
        if a.Some? {
          return Decide(a.value);
        }
      }
    }

    /** `delete_image_data`, with `ok` saying whether the database raises. */
    method DeleteImage(id: nat, ok: bool) returns (deleted: bool)
      modifies this
      ensures (db, deleted) == DeleteImageData(old(db), id, ok)
      ensures files == old(files) && input == old(input)
    {
      if !ok {
        return false;
      }
      db := Db(db.images - {id}, Without(db.imageCollections, id), Without(db.imageAlbums, id),
               Without(db.imageTags, id), Without(db.markedImages, id), Without(db.imageNotes, id));
      return true;
    }

    /**
     * `verify_downloads`: checks every listed image in order and returns the counters and
     * why the loop ended.
     */
    method VerifyDownloads(scan: seq<nat>, env: Env) returns (corrupted: nat, deleted: nat, stop: Stop)
      requires IsScanOf(db, scan)
      modifies this
      ensures var r := Run(State(old(db), old(files), old(input), map[], 0, 0, Running),
                           Query(old(db), scan), env);
        State(db, files, input, r.auto, corrupted, deleted, stop) == r
    {
      var xs := Query(db, scan);
      ghost var whole := Run(State(db, files, input, map[], 0, 0, Running), xs, env);
      var auto: map<Option<string>, bool> := map[];
      corrupted, deleted, stop := 0, 0, Running;
      var i := 0;
      while i < |xs| && stop == Running
        invariant i <= |xs|
        invariant Run(State(db, files, input, auto, corrupted, deleted, stop), xs[i..], env) == whole
        decreases |xs| - i
      {
        auto, corrupted, deleted, stop := VerifyOne(xs[i], env, auto, corrupted, deleted);
        assert xs[i..][1..] == xs[i + 1..];
        i := i + 1;
      }
      assert Run(State(db, files, input, auto, corrupted, deleted, stop), xs[i..], env)
          == State(db, files, input, auto, corrupted, deleted, stop);
    }

    /** One image of the loop. */
    method VerifyOne(x: Listed, env: Env, auto0: map<Option<string>, bool>, corrupted0: nat, deleted0: nat)
      returns (auto: map<Option<string>, bool>, corrupted: nat, deleted: nat, stop: Stop)
      modifies this
      ensures State(db, files, input, auto, corrupted, deleted, stop)
        == Step(State(old(db), old(files), old(input), auto0, corrupted0, deleted0, Running), x, env)
    {
      auto, corrupted, deleted, stop := auto0, corrupted0, deleted0, Running;
      if x.localPath.None? || x.localPath.value == "" || x.localPath.value !in files {
        return;
      }
      var path := x.localPath.value;
      if env.isJpeg(path) {
        return;
      }
      corrupted := corrupted + 1;
      var setting := if x.author in auto then Some(auto[x.author]) else None;
      var d := ProcessCorruptedFile(setting);
      if d == Interrupt {
        stop := Interrupted;
        return;
      } else if d == NoInput {
        stop := InputEnded;
        return;
      } else if d == Skip {
        return;
      }
      if d == DeleteAll {
        auto := auto[x.author := true];
      }
      if !env.removes(path) {
        return;
      }
      files := files - {path};
      var ok := DeleteImage(x.id, env.dbOk(x.id));
      if ok {
        deleted := deleted + 1;
      }
    }
  }
}
