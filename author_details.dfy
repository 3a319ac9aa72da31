/**
 * The author details scraper: it reads an author's details page (biography,
 * website, registration date, image and album counts, tag cloud), records the
 * outcome per author in the `author_details` table, and picks the next batch of
 * authors to visit.
 */
module AuthorDetails {
  import opened Wrappers
  import opened Text
  import opened Seqs

  /** Failed authors are meant to be retried fewer than this many times. */
  const MaxRetries: nat := 3
  /** At most this many authors are picked per round. */
  const BatchLimit: nat := 100
  /** The error stored when a details page yields nothing. */
  const FailureMessage: string := "Failed to extract details"

  // ---------------------------------------------------------------------------
  // Registration dates: "YYYY.MM.DD." to "YYYY-MM-DD"

  /** One or two digits with a value from 1 to `hi`. */
  predicate SmallNumber(s: string, hi: nat) {
    |s| <= 2 && IsDigits(s) && 1 <= DigitsValue(s) <= hi
  }

  /** The checks a year, month and day must pass. */
  predicate ValidDate(year: string, month: string, day: string) {
    |year| == 4 && IsDigits(year) && SmallNumber(month, 12) && SmallNumber(day, 31)
  }

  /** The shape of every date the parser returns. */
  predicate IsIsoDate(r: string) {
    && |r| == 10 && r[4] == '-' && r[7] == '-'
    && IsDigits(r[..4]) && IsDigits(r[5..7]) && IsDigits(r[8..])
    && 1 <= DigitsValue(r[5..7]) <= 12 && 1 <= DigitsValue(r[8..]) <= 31
  }

  function IsoDate(year: string, month: string, day: string): string {
    year + "-" + ZFill(month, 2) + "-" + ZFill(day, 2)
  }

  /** Padding one or two digits to two keeps their value. */
  lemma PaddedValue(s: string)
    requires |s| <= 2 && IsDigits(s)
    ensures |ZFill(s, 2)| == 2 && IsDigits(ZFill(s, 2))
    ensures DigitsValue(ZFill(s, 2)) == DigitsValue(s)
  {
    if |s| < 2 {
      DigitsValueZeros(2 - |s|, s);
    }
  }

  /** A valid year, month and day format as an ISO date with the same year, month and day. */
  lemma IsoDateShape(year: string, month: string, day: string)
    requires ValidDate(year, month, day)
    ensures IsIsoDate(IsoDate(year, month, day))
    ensures IsoDate(year, month, day)[..4] == year
    ensures IsoDate(year, month, day)[5..7] == ZFill(month, 2)
    ensures IsoDate(year, month, day)[8..] == ZFill(day, 2)
  {
    PaddedValue(month);
    PaddedValue(day);
    var r := IsoDate(year, month, day);
    assert r[..4] == year;
    assert r[5..7] == ZFill(month, 2);
    assert r[8..] == ZFill(day, 2);
  }

  /** The dot-separated fields of a date after stripping whitespace and trailing dots. */
  function DateFields(date: string): seq<string> {
    Split(RStrip(StripWs(date), {'.'}), '.')
  }

  /** `parse_hungarian_date`: the first three fields as year, month and day, or nothing. */
  function ParseHungarianDate(date: Option<string>): (r: Option<string>)
    ensures date.None? || date == Some("") ==> r.None?
    ensures r.Some? ==> IsIsoDate(r.value)
  {
    if date.None? || date.value == "" then None
    else
      var fields := DateFields(date.value);
      if |fields| < 3 then None
      else
        var year, month, day := StripWs(fields[0]), StripWs(fields[1]), StripWs(fields[2]);
        if ValidDate(year, month, day) then
          IsoDateShape(year, month, day);
          Some(IsoDate(year, month, day))
        else None
  }

  /** `"." + e` for each further field `e`, such as the time after a date. */
  function DottedTail(extra: seq<string>): string {
    if |extra| == 0 then "" else "." + extra[0] + DottedTail(extra[1..])
  }

  lemma {:induction false} SplitDottedTail(head: string, extra: seq<string>)
    requires '.' !in head
    requires forall i :: 0 <= i < |extra| ==> '.' !in extra[i]
    ensures Split(head + DottedTail(extra), '.') == [head] + extra
    decreases |extra|
  {
    if |extra| == 0 {
      assert head + DottedTail(extra) == head;
    } else {
      var rest := extra[0] + DottedTail(extra[1..]);
      assert head + DottedTail(extra) == head + ['.'] + rest;
      SplitCons(head, '.', rest);
      SplitDottedTail(extra[0], extra[1..]);
      assert [extra[0]] + extra[1..] == extra;
    }
  }

  lemma {:induction false} DottedTailEnd(head: string, extra: seq<string>)
    requires IsDigits(head)
    requires forall i :: 0 <= i < |extra| ==> IsDigits(extra[i])
    ensures var s := head + DottedTail(extra); |s| > 0 && IsDigit(s[|s| - 1])
    decreases |extra|
  {
    if |extra| > 0 {
      DottedTailEnd(extra[0], extra[1..]);
      var rest := extra[0] + DottedTail(extra[1..]);
      assert head + DottedTail(extra) == head + ['.'] + rest;
    }
  }

  /** A date without its trailing dots: year, month, day and further fields. */
  function DateCore(year: string, month: string, day: string, extra: seq<string>): string {
    year + "." + month + "." + day + DottedTail(extra)
  }

  /** The text of a date written year, month, day, further fields and trailing dots. */
  function HungarianDate(year: string, month: string, day: string, extra: seq<string>, dots: nat): string {
    DateCore(year, month, day, extra) + Repeat('.', dots)
  }

  lemma SplitTwo(a: string, b: string, tail: string)
    requires '.' !in a && '.' !in b
    ensures Split(a + ['.'] + (b + ['.'] + tail), '.') == [a, b] + Split(tail, '.')
  {
    SplitCons(a, '.', b + ['.'] + tail);
    SplitCons(b, '.', tail);
  }

  lemma CoreFields(year: string, month: string, day: string, extra: seq<string>)
    requires IsDigits(year) && IsDigits(month) && IsDigits(day)
    requires forall i :: 0 <= i < |extra| ==> IsDigits(extra[i])
    ensures Split(DateCore(year, month, day, extra), '.') == [year, month, day] + extra
  {
    DigitsLack(year, '.');
    DigitsLack(month, '.');
    DigitsLack(day, '.');
    forall i | 0 <= i < |extra| ensures '.' !in extra[i] {
      DigitsLack(extra[i], '.');
    }
    var tail := day + DottedTail(extra);
    assert DateCore(year, month, day, extra) == year + ['.'] + (month + ['.'] + tail);
    SplitTwo(year, month, tail);
    SplitDottedTail(day, extra);
  }

  lemma CoreEnds(year: string, month: string, day: string, extra: seq<string>)
    requires IsDigits(year) && IsDigits(day)
    requires forall i :: 0 <= i < |extra| ==> IsDigits(extra[i])
    ensures var core := DateCore(year, month, day, extra);
      |core| > 0 && IsDigit(core[0]) && IsDigit(core[|core| - 1])
  {
    var tail := day + DottedTail(extra);
    var core := DateCore(year, month, day, extra);
    DottedTailEnd(day, extra);
    assert core == (year + "." + month + ".") + tail;
    assert core[|core| - 1] == tail[|tail| - 1];
    assert core[0] == year[0];
  }

  lemma TrimDate(core: string, dots: nat)
    requires |core| > 0 && IsDigit(core[0]) && IsDigit(core[|core| - 1])
    ensures RStrip(StripWs(core + Repeat('.', dots)), {'.'}) == core
  {
    var s := core + Repeat('.', dots);
    DigitIsNoSpace(core[0]);
    DigitIsNoSpace(core[|core| - 1]);
    assert s[0] == core[0];
    StripWsNoop(s);
    RStripRepeat(core, '.', dots);
  }

  lemma DateFieldsOf(year: string, month: string, day: string, extra: seq<string>, dots: nat)
    requires IsDigits(year) && IsDigits(month) && IsDigits(day)
    requires forall i :: 0 <= i < |extra| ==> IsDigits(extra[i])
    ensures DateFields(HungarianDate(year, month, day, extra, dots)) == [year, month, day] + extra
  {
    CoreEnds(year, month, day, extra);
    TrimDate(DateCore(year, month, day, extra), dots);
    CoreFields(year, month, day, extra);
  }

  lemma DigitsStripped(s: string)
    requires IsDigits(s)
    ensures StripWs(s) == s
  {
    DigitIsNoSpace(s[0]);
    DigitIsNoSpace(s[|s| - 1]);
    StripWsNoop(s);
  }

  /** What the parser makes of a text whose first three fields are already stripped. */
  lemma ParseStrippedFields(date: string, fields: seq<string>)
    requires date != "" && DateFields(date) == fields && |fields| >= 3
    requires StripWs(fields[0]) == fields[0] && StripWs(fields[1]) == fields[1]
    requires StripWs(fields[2]) == fields[2]
    ensures ParseHungarianDate(Some(date)) ==
      if ValidDate(fields[0], fields[1], fields[2]) then Some(IsoDate(fields[0], fields[1], fields[2])) else None
  {
  }

  /** What the parser makes of a text whose first three fields are plain digits. */
  lemma ParseDigitFields(date: string, fields: seq<string>)
    requires date != "" && DateFields(date) == fields && |fields| >= 3
    requires IsDigits(fields[0]) && IsDigits(fields[1]) && IsDigits(fields[2])
    ensures ParseHungarianDate(Some(date)) ==
      if ValidDate(fields[0], fields[1], fields[2]) then Some(IsoDate(fields[0], fields[1], fields[2])) else None
  {
    DigitsStripped(fields[0]);
    DigitsStripped(fields[1]);
    DigitsStripped(fields[2]);
    ParseStrippedFields(date, fields);
  }

  /** The same, with the three fields named. */
  lemma ParseNamedFields(date: string, fields: seq<string>, year: string, month: string, day: string)
    requires date != "" && DateFields(date) == fields && |fields| >= 3
    requires fields[0] == year && fields[1] == month && fields[2] == day
    requires IsDigits(year) && IsDigits(month) && IsDigits(day)
    ensures ParseHungarianDate(Some(date)) ==
      if ValidDate(year, month, day) then Some(IsoDate(year, month, day)) else None
  {
    ParseDigitFields(date, fields);
  }

  /** A text written from digit fields is parsed by the range checks on its first three fields alone. */
  lemma DigitDate(year: string, month: string, day: string, extra: seq<string>, dots: nat)
    requires IsDigits(year) && IsDigits(month) && IsDigits(day)
    requires forall i :: 0 <= i < |extra| ==> IsDigits(extra[i])
    ensures ParseHungarianDate(Some(HungarianDate(year, month, day, extra, dots))) ==
      if ValidDate(year, month, day) then Some(IsoDate(year, month, day)) else None
  {
    var date := HungarianDate(year, month, day, extra, dots);
    var fields := [year, month, day] + extra;
    DateFieldsOf(year, month, day, extra, dots);
    assert fields[0] == year && fields[1] == month && fields[2] == day;
    CoreEnds(year, month, day, extra);
    ParseNamedFields(date, fields, year, month, day);
  }

  /**
   * Every valid year, month and day is accepted, whatever digit fields follow them and
   * however many dots end the text, and comes back as the ISO date with the month and
   * day padded to two digits.
   */
  lemma DateComplete(year: string, month: string, day: string, extra: seq<string>, dots: nat)
    requires ValidDate(year, month, day)
    requires forall i :: 0 <= i < |extra| ==> IsDigits(extra[i])
    ensures ParseHungarianDate(Some(HungarianDate(year, month, day, extra, dots))) == Some(IsoDate(year, month, day))
  {
    DigitDate(year, month, day, extra, dots);
  }

  /** Digit fields that fail the checks (a month outside 1..12, a three-digit day, ...) are rejected. */
  lemma DateRejects(year: string, month: string, day: string, extra: seq<string>, dots: nat)
    requires IsDigits(year) && IsDigits(month) && IsDigits(day)
    requires !ValidDate(year, month, day)
    requires forall i :: 0 <= i < |extra| ==> IsDigits(extra[i])
    ensures ParseHungarianDate(Some(HungarianDate(year, month, day, extra, dots))) == None
  {
    DigitDate(year, month, day, extra, dots);
  }

  /** Writing a parsed date back with dots parses to the same date. */
  lemma DateRoundTrip(date: Option<string>)
    requires ParseHungarianDate(date).Some?
    ensures var r := ParseHungarianDate(date).value;
      ParseHungarianDate(Some(HungarianDate(r[..4], r[5..7], r[8..], [], 0))) == Some(r)
  {
    var r := ParseHungarianDate(date).value;
    var fields := DateFields(date.value);
    var year, month, day := StripWs(fields[0]), StripWs(fields[1]), StripWs(fields[2]);
    IsoDateShape(year, month, day);
    PaddedValue(month);
    PaddedValue(day);
    DateComplete(r[..4], r[5..7], r[8..], [], 0);
    assert IsoDate(r[..4], r[5..7], r[8..]) == r;
  }

  // ---------------------------------------------------------------------------
  // Counts such as "85976 db"

  /** `int(text.replace('db', '').strip())`, or nothing where `int` raises. */
  function ParseCount(text: string): Option<int> {
    PyInt(ReplaceAll(text, "db", ""))
  }

  lemma {:induction false} DropDbUnit(n: string)
    requires forall i :: 0 <= i < |n| ==> IsDigit(n[i])
    ensures ReplaceAll(n + " db", "db", "") == n + " "
    decreases |n|
  {
    var s := n + " db";
    if |n| == 0 {
      assert s == " db";
      assert s[..2] != "db";
      assert s[1..] == "db";
      assert ReplaceAll("db", "db", "") == "";
    } else {
      assert s[..2] != "db" by { assert s[0] == n[0]; }
      assert s[1..] == n[1..] + " db";
      DropDbUnit(n[1..]);
      assert n == [n[0]] + n[1..];
    }
  }

  /** A number followed by the unit " db" is read as that number. */
  lemma CountOfDigits(n: string)
    requires IsDigits(n)
    ensures ParseCount(n + " db") == Some(DigitsValue(n))
  {
    DropDbUnit(n);
    var t := n + " ";
    assert RStrip(t, Whitespace) == RStrip(n, Whitespace);
    DigitIsNoSpace(n[0]);
    DigitIsNoSpace(n[|n| - 1]);
    assert StripWs(t) == n;
    PyIntOfDigits(t);
  }

  /** Text without a digit is not a count. */
  lemma CountWithoutDigits(text: string)
    requires forall i :: 0 <= i < |text| ==> !IsDigit(text[i])
    ensures ParseCount(text) == None
  {
    var t := ReplaceAll(text, "db", "");
    ReplaceAllChars(text, "db");
    StripWsChars(t);
    var v := StripWs(t);
    assert forall i :: 0 <= i < |v| ==> !IsDigit(v[i]) by {
      forall i | 0 <= i < |v| ensures !IsDigit(v[i]) {
        assert v[i] in v;
      }
    }
  }

  // ---------------------------------------------------------------------------
  // The tag cloud

  /** An `<a>` element of the tag box: its stripped text, its `href` and its classes. */
  datatype TagLink = TagLink(text: string, href: Option<string>, classes: seq<string>)

  /** One entry of the stored tag cloud. */
  datatype CloudTag = CloudTag(name: string, url: string, weight: Option<int>)

  predicate IsTagClass(c: string) {
    "tag-" <= c
  }

  /** `int(c.replace('tag-', ''))`, or nothing where `int` raises. */
  function ClassWeight(c: string): Option<int> {
    PyInt(ReplaceAll(c, "tag-", ""))
  }

  predicate Weighs(c: string) {
    IsTagClass(c) && ClassWeight(c).Some?
  }

  /** The weight of a tag: the number of its first `tag-` class that has one. */
  function TagWeight(classes: seq<string>): Option<int> {
    var i := FirstWhere(Weighs, classes);
    if i.Some? then ClassWeight(classes[i.value]) else None
  }

  /** A class without a weight extends the run of classes without one. */
  lemma NoWeightStep(classes: seq<string>, k: nat)
    requires k < |classes| && forall j :: 0 <= j < k ==> !Weighs(classes[j])
    requires !IsTagClass(classes[k]) || ClassWeight(classes[k]).None?
    ensures forall j :: 0 <= j < k + 1 ==> !Weighs(classes[j])
  {
  }

  /** The inner loop over a tag's classes, which stops at the first weight it can read. */
  method ReadTagWeight(classes: seq<string>) returns (weight: Option<int>)
    ensures weight == TagWeight(classes)
  {
    weight := None;
    var k := 0;
    while k < |classes|
      invariant 0 <= k <= |classes|
      invariant weight.None?
      invariant forall j :: 0 <= j < k ==> !Weighs(classes[j])
    {
      if IsTagClass(classes[k]) {
        var w := ClassWeight(classes[k]);
        if w.Some? {
          weight := w;
          FirstWhereAt(Weighs, classes, k);
          return;
        }
      }
      NoWeightStep(classes, k);
      k := k + 1;
    }
    assert FirstWhere(Weighs, classes) == None;
  }

  /** The links the page selects: those with a `tag-` class. */
  predicate HasTagClass(classes: seq<string>) {
    exists i :: 0 <= i < |classes| && IsTagClass(classes[i])
  }

  /** What one link adds to the tag cloud: nothing when it is not a tag or its text is empty. */
  function CloudEntry(link: TagLink): seq<CloudTag> {
    if HasTagClass(link.classes) && link.text != "" then
      [CloudTag(link.text, link.href.GetOr(""), TagWeight(link.classes))]
    else []
  }

  function TagCloud(links: seq<TagLink>): seq<CloudTag> {
    FlatMap(CloudEntry, links)
  }

  method ExtractTagCloud(links: seq<TagLink>) returns (cloud: seq<CloudTag>)
    ensures cloud == TagCloud(links)
  {
    cloud := [];
    var i := 0;
    while i < |links|
      invariant 0 <= i <= |links|
      invariant cloud == FlatMap(CloudEntry, links[..i])
    {
      FlatMapSnoc(CloudEntry, links, i);
      var link := links[i];
      if HasTagClass(link.classes) && link.text != "" {
        var weight := ReadTagWeight(link.classes);
        cloud := cloud + [CloudTag(link.text, link.href.GetOr(""), weight)];
      }
      i := i + 1;
    }
    assert links[..|links|] == links;
  }

  /**
   * The tag cloud has at most one entry per link; each entry has a name and comes from
   * a tag link with that text and address; and every tag link with text yields one.
   */
  lemma TagCloudSpec(links: seq<TagLink>, t: CloudTag)
    ensures |TagCloud(links)| <= |links|
    ensures t in TagCloud(links) <==>
      exists i :: 0 <= i < |links| && HasTagClass(links[i].classes) && links[i].text != ""
        && t == CloudTag(links[i].text, links[i].href.GetOr(""), TagWeight(links[i].classes))
    ensures t in TagCloud(links) ==> t.name != ""
  {
    FlatMapLength(CloudEntry, links);
    FlatMapMember(CloudEntry, links, t);
  }

  // ---------------------------------------------------------------------------
  // The details page

  /** A link in a table cell: its `href` and its stripped text. */
  datatype Link = Link(href: Option<string>, text: string)

  /** A table cell: its stripped text and its first link. */
  datatype Cell = Cell(text: string, link: Option<Link>)

  /** A row of the user-properties table: the text of its `th` and its first `td`. */
  datatype PropRow = PropRow(header: Option<string>, cell: Option<Cell>)

  /**
   * A fetched details page: the request failed (or returned an error status), or the
   * page with its user-properties table (if any) and the links of its tag box (if the
   * tag row, the tags box and its content are all there).
   */
  datatype AuthorPage =
    | FetchFailed
    | Fetched(properties: Option<seq<PropRow>>, tagLinks: Option<seq<TagLink>>)

  datatype Details = Details(
    slug: string, bio: Option<string>, website: Option<string>,
    registrationDate: Option<string>, imageCount: Option<int>, albumCount: Option<int>,
    tagCloud: seq<CloudTag>)

  /** `th and th.text and header_text in th.text`: the row's header is non-empty and contains the text. */
  predicate HeaderHas(row: PropRow, header: string) {
    row.header.Some? && row.header.value != "" && Contains(row.header.value, header)
  }

  /** The first row whose non-empty header contains `header`. */
  function FindRow(rows: seq<PropRow>, header: string): (r: Option<PropRow>)
    ensures r.Some? ==>
      exists i :: (0 <= i < |rows| && rows[i] == r.value && HeaderHas(rows[i], header) &&
                   forall j :: 0 <= j < i ==> !HeaderHas(rows[j], header))
    ensures r.None? ==> forall i :: 0 <= i < |rows| ==> !HeaderHas(rows[i], header)
  {
    if |rows| == 0 then None
    else if HeaderHas(rows[0], header) then
      Some(rows[0])
    else
      var r := FindRow(rows[1..], header);
      assert forall i :: 1 <= i < |rows| ==> rows[i] == rows[1..][i - 1];
      r
  }

  function RowCell(rows: seq<PropRow>, header: string): Option<Cell> {
    var row := FindRow(rows, header);
    if row.Some? then row.value.cell else None
  }

  function RowLink(rows: seq<PropRow>, header: string): Option<Link> {
    var cell := RowCell(rows, header);
    if cell.Some? then cell.value.link else None
  }

  function RowCount(rows: seq<PropRow>, header: string): Option<int> {
    var link := RowLink(rows, header);
    if link.Some? then ParseCount(link.value.text) else None
  }

  function RowDate(rows: seq<PropRow>): Option<string> {
    var cell := RowCell(rows, "Regisztrált");
    if cell.Some? then ParseHungarianDate(Some(cell.value.text)) else None
  }

  function RowWebsite(rows: seq<PropRow>): Option<string> {
    var link := RowLink(rows, "Weboldal");
    if link.Some? then Some(link.value.href.GetOr("")) else None
  }

  function RowBio(rows: seq<PropRow>): Option<string> {
    var cell := RowCell(rows, "Bemutatkozás");
    if cell.Some? then Some(cell.value.text) else None
  }

  /** The author's slug: the second-to-last path segment of the url without trailing slashes. */
  function SlugOf(url: string): Option<string> {
    SecondLastSegment(RStrip(url, {'/'}), '/')
  }

  /** `extract_author_details`: nothing when the fetch, the slug or the table is missing. */
  function ExtractAuthorDetails(url: string, page: AuthorPage): (r: Option<Details>)
    ensures r.Some? <==> page.Fetched? && page.properties.Some? && SlugOf(url).Some?
    ensures r.Some? ==> r.value.slug == SlugOf(url).value
    ensures r.Some? && r.value.registrationDate.Some? ==> IsIsoDate(r.value.registrationDate.value)
  {
    if page.FetchFailed? || SlugOf(url).None? || page.properties.None? then None
    else
      var rows := page.properties.value;
      Some(Details(
        SlugOf(url).value, RowBio(rows), RowWebsite(rows), RowDate(rows),
        RowCount(rows, "Képei"), RowCount(rows, "Albumai"),
        TagCloud(page.tagLinks.GetOr([]))))
  }

  // ---------------------------------------------------------------------------
  // The author_details table

  datatype DetailsRow = DetailsRow(
    slug: Option<string>, bio: Option<string>, website: Option<string>,
    registrationDate: Option<string>, imageCount: Option<int>, albumCount: Option<int>,
    tagCloud: Option<seq<CloudTag>>, lastUpdated: string, detailsUrl: string,
    error: Option<string>, retryCount: nat)

  /** The table, keyed by its unique `author` column. */
  type DetailsTable = map<string, DetailsRow>

  /** The details page of an author: the author url without trailing slashes, then `/details`. */
  function DetailsUrl(authorUrl: string): string {
    RStrip(authorUrl, {'/'}) + "/details"
  }

  /** The slug read from the details address is the last segment of the author's address. */
  lemma DetailsUrlSlug(authorUrl: string)
    ensures SlugOf(DetailsUrl(authorUrl)) == Some(LastSegment(RStrip(authorUrl, {'/'}), '/'))
  {
    var base := RStrip(authorUrl, {'/'});
    var u := DetailsUrl(authorUrl);
    assert u[|u| - 1] == 's';
    assert RStrip(u, {'/'}) == u;
    assert u == base + ['/'] + "details";
    LastSegmentAfter(base, '/', "details");
    assert u[..|u| - 8] == base;
  }

  /** The row the successful upsert leaves: every field replaced, no error, no retries. */
  function SucceededRow(d: Details, now: string, url: string): DetailsRow {
    DetailsRow(Some(d.slug), d.bio, d.website, d.registrationDate, d.imageCount, d.albumCount,
               Some(d.tagCloud), now, url, None, 0)
  }

  /**
   * The row a failed upsert leaves: a new row with the error and one retry, or the old
   * row with the new slug, time and error and one more retry.
   */
  function FailedRow(table: DetailsTable, author: string, slug: Option<string>, now: string,
                     url: string, error: string): (r: DetailsRow)
    ensures r.error == Some(error) && r.lastUpdated == now && r.slug == slug
    ensures r.retryCount == if author in table then table[author].retryCount + 1 else 1
  {
    if author in table then
      table[author].(slug := slug, lastUpdated := now, error := Some(error),
                     retryCount := table[author].retryCount + 1)
    else DetailsRow(slug, None, None, None, None, None, None, now, url, Some(error), 1)
  }

  /** The table after processing one author, and whether the author was processed. */
  datatype Outcome = Outcome(table: DetailsTable, processed: bool)

  /**
   * `process_author`. `page` is what fetching the details page returns; `now` the clock;
   * `writeError` the message of the exception the first upsert raises, if it does (the
   * upsert in the exception handler is taken to succeed).
   */
  function ProcessAuthor(table: DetailsTable, author: string, authorUrl: Option<string>,
                         page: AuthorPage, now: string, writeError: Option<string>): Outcome
  {
    if authorUrl.None? || authorUrl.value == "" then Outcome(table, false)
    else
      var url := DetailsUrl(authorUrl.value);
      var details := ExtractAuthorDetails(url, page);
      if writeError.Some? then
        var slug := if details.Some? then Some(details.value.slug) else None;
        Outcome(table[author := FailedRow(table, author, slug, now, url, writeError.value)], false)
      else if details.Some? then
        Outcome(table[author := SucceededRow(details.value, now, url)], true)
      else
        Outcome(table[author := FailedRow(table, author, None, now, url, FailureMessage)], false)
  }

  /** Without a url nothing is written; otherwise only the author's row changes and it exists. */
  lemma ProcessAuthorFrame(table: DetailsTable, author: string, authorUrl: Option<string>,
                           page: AuthorPage, now: string, writeError: Option<string>)
    ensures var r := ProcessAuthor(table, author, authorUrl, page, now, writeError);
      && (authorUrl.None? || authorUrl == Some("") ==> r == Outcome(table, false))
      && (authorUrl.Some? && authorUrl.value != "" ==> r.table.Keys == table.Keys + {author})
      && forall a :: a in table && a != author ==> a in r.table && r.table[a] == table[a]
  {
  }

  /**
   * An author is processed exactly when it has a url, its page was fetched with a
   * properties table, and the upsert succeeded; the row then holds no error, no retries,
   * the details address, and the slug of the author's address.
   */
  lemma ProcessAuthorSuccess(table: DetailsTable, author: string, authorUrl: Option<string>,
                             page: AuthorPage, now: string, writeError: Option<string>)
    ensures var r := ProcessAuthor(table, author, authorUrl, page, now, writeError);
      r.processed <==>
        authorUrl.Some? && authorUrl.value != "" && page.Fetched? && page.properties.Some? && writeError.None?
    ensures var r := ProcessAuthor(table, author, authorUrl, page, now, writeError);
      r.processed ==>
        && author in r.table && r.table[author].error.None? && r.table[author].retryCount == 0
        && r.table[author].detailsUrl == DetailsUrl(authorUrl.value)
        && r.table[author].slug == Some(LastSegment(RStrip(authorUrl.value, {'/'}), '/'))
        && r.table[author].lastUpdated == now
  {
    var r := ProcessAuthor(table, author, authorUrl, page, now, writeError);
    if authorUrl.Some? && authorUrl.value != "" {
      var url := DetailsUrl(authorUrl.value);
      DetailsUrlSlug(authorUrl.value);
      var details := ExtractAuthorDetails(url, page);
      if writeError.None? && details.Some? {
        assert r == Outcome(table[author := SucceededRow(details.value, now, url)], true);
      } else {
        assert !r.processed;
      }
    }
  }

  /** An author with a url that was not processed has an error and one more retry than before. */
  lemma ProcessAuthorFailure(table: DetailsTable, author: string, authorUrl: Option<string>,
                             page: AuthorPage, now: string, writeError: Option<string>)
    requires authorUrl.Some? && authorUrl.value != ""
    ensures var r := ProcessAuthor(table, author, authorUrl, page, now, writeError);
      !r.processed ==>
        && author in r.table
        && r.table[author].error == Some(writeError.GetOr(FailureMessage))
        && r.table[author].retryCount == (if author in table then table[author].retryCount + 1 else 1)
        && r.table[author].lastUpdated == now
  {
    var url := DetailsUrl(authorUrl.value);
    var details := ExtractAuthorDetails(url, page);
    var r := ProcessAuthor(table, author, authorUrl, page, now, writeError);
    if writeError.Some? {
      var slug := if details.Some? then Some(details.value.slug) else None;
      assert r.table == table[author := FailedRow(table, author, slug, now, url, writeError.value)];
    } else if details.None? {
      assert r.table == table[author := FailedRow(table, author, None, now, url, FailureMessage)];
    }
  }

  // ---------------------------------------------------------------------------
  // Picking the next batch

  /** A row of `images` or `author_crawl`: an author and its url, which may be missing. */
  datatype AuthorSource = AuthorSource(author: string, authorUrl: Option<string>)

  /** A picked `(author, author_url)` pair. */
  type Pick = (string, string)

  /** The pair a source row offers: only rows with a url have one. */
  function Offered(s: AuthorSource): seq<Pick> {
    if s.authorUrl.Some? then [(s.author, s.authorUrl.value)] else []
  }

  /** The `WHERE` clause as written: its last alternative makes the retry bound irrelevant. */
  predicate SelectableAsWritten(table: DetailsTable, author: string) {
    || author !in table
    || (table[author].error.Some? && table[author].retryCount < MaxRetries)
    || table[author].error.Some?
  }

  /** The evidently intended clause: never processed, or failed fewer than `MaxRetries` times. */
  predicate Selectable(table: DetailsTable, author: string) {
    author !in table || (table[author].error.Some? && table[author].retryCount < MaxRetries)
  }

  /** As written, an author that failed `MaxRetries` times or more is still picked. */
  lemma AsWrittenIgnoresRetryLimit(table: DetailsTable, author: string)
    requires author in table && table[author].error.Some? && table[author].retryCount >= MaxRetries
    ensures SelectableAsWritten(table, author)
    ensures !Selectable(table, author)
  {
  }

  /** The sort key: retries (0 when never processed), then the time of the last update. */
  function Rank(table: DetailsTable, author: string): (nat, string) {
    if author in table then (table[author].retryCount, table[author].lastUpdated) else (0, "1970-01-01")
  }

  predicate RankLe(a: (nat, string), b: (nat, string)) {
    a.0 < b.0 || (a.0 == b.0 && StrLe(a.1, b.1))
  }

  /** The order of `ORDER BY COALESCE(retry_count, 0), COALESCE(last_updated, '1970-01-01')`. */
  function ByRank(table: DetailsTable): (Pick, Pick) -> bool {
    (p: Pick, q: Pick) => RankLe(Rank(table, p.0), Rank(table, q.0))
  }

  lemma RankLeTotal(a: (nat, string), b: (nat, string))
    ensures RankLe(a, b) || RankLe(b, a)
  {
    StrLeTotal(a.1, b.1);
  }

  lemma RankLeTrans(a: (nat, string), b: (nat, string), c: (nat, string))
    requires RankLe(a, b) && RankLe(b, c)
    ensures RankLe(a, c)
  {
    if a.0 == b.0 == c.0 {
      StrLeTrans(a.1, b.1, c.1);
    }
  }

  lemma ByRankIsPreorder(table: DetailsTable)
    ensures TotalPreorder(ByRank(table))
  {
    var le := ByRank(table);
    forall p, q ensures le(p, q) || le(q, p) {
      RankLeTotal(Rank(table, p.0), Rank(table, q.0));
    }
    forall p, q, o | le(p, q) && le(q, o) ensures le(p, o) {
      RankLeTrans(Rank(table, p.0), Rank(table, q.0), Rank(table, o.0));
    }
  }

  /** The clause applied to a pair's author. */
  function ClauseOf(table: DetailsTable, asWritten: bool): Pick -> bool {
    (p: Pick) => if asWritten then SelectableAsWritten(table, p.0) else Selectable(table, p.0)
  }

  /** The distinct pairs the two tables offer, images first. */
  function Candidates(images: seq<AuthorSource>, crawl: seq<AuthorSource>): seq<Pick> {
    Dedup(FlatMap(Offered, images + crawl))
  }

  /** The distinct selected pairs, sorted by rank. */
  function Ranked(table: DetailsTable, images: seq<AuthorSource>, crawl: seq<AuthorSource>,
                  asWritten: bool): seq<Pick> {
    SortBy(ByRank(table), Filter(ClauseOf(table, asWritten), Candidates(images, crawl)))
  }

  /** `get_authors_to_process`: the first `BatchLimit` of the ranked pairs. */
  function AuthorsToProcess(table: DetailsTable, images: seq<AuthorSource>, crawl: seq<AuthorSource>,
                            asWritten: bool): seq<Pick> {
    Take(Ranked(table, images, crawl, asWritten), BatchLimit)
  }

  /** A pair that some source row offers, for an author the clause selects. */
  predicate Wanted(table: DetailsTable, images: seq<AuthorSource>, crawl: seq<AuthorSource>,
                   asWritten: bool, p: Pick) {
    && (exists i :: 0 <= i < |images + crawl| && (images + crawl)[i] == AuthorSource(p.0, Some(p.1)))
    && (if asWritten then SelectableAsWritten(table, p.0) else Selectable(table, p.0))
  }

  lemma RankedMembers(table: DetailsTable, images: seq<AuthorSource>, crawl: seq<AuthorSource>,
                      asWritten: bool, p: Pick)
    ensures p in Ranked(table, images, crawl, asWritten) <==> Wanted(table, images, crawl, asWritten, p)
    ensures Distinct(Ranked(table, images, crawl, asWritten))
    ensures SortedBy(ByRank(table), Ranked(table, images, crawl, asWritten))
  {
    RankedHas(table, images, crawl, asWritten, p);
    RankedOrder(table, images, crawl, asWritten);
  }

  lemma RankedHas(table: DetailsTable, images: seq<AuthorSource>, crawl: seq<AuthorSource>,
                  asWritten: bool, p: Pick)
    ensures p in Ranked(table, images, crawl, asWritten) <==> Wanted(table, images, crawl, asWritten, p)
  {
    var kept := Filter(ClauseOf(table, asWritten), Candidates(images, crawl));
    var ranked := SortBy(ByRank(table), kept);
    assert p in ranked <==> p in kept by {
      assert p in ranked <==> p in multiset(ranked);
    }
    OfferedByRow(images + crawl, p);
  }

  /** A pair is offered exactly when some row has that author and url. */
  lemma OfferedByRow(rows: seq<AuthorSource>, p: Pick)
    ensures p in FlatMap(Offered, rows) <==>
      exists i :: 0 <= i < |rows| && rows[i] == AuthorSource(p.0, Some(p.1))
  {
    FlatMapMember(Offered, rows, p);
    forall i | 0 <= i < |rows|
      ensures p in Offered(rows[i]) <==> rows[i] == AuthorSource(p.0, Some(p.1))
    {
    }
  }

  lemma RankedOrder(table: DetailsTable, images: seq<AuthorSource>, crawl: seq<AuthorSource>, asWritten: bool)
    ensures Distinct(Ranked(table, images, crawl, asWritten))
    ensures SortedBy(ByRank(table), Ranked(table, images, crawl, asWritten))
  {
    var kept := Filter(ClauseOf(table, asWritten), Candidates(images, crawl));
    ByRankIsPreorder(table);
    SortBySorted(ByRank(table), kept);
    SortByDistinct(ByRank(table), kept);
  }

  /**
   * The batch has at most `BatchLimit` pairs, none twice, in ascending rank; every pair
   * in it is wanted (offered by a row with that url, and selected by the clause); and a
   * wanted pair left out means the batch is full of pairs ranked no higher than it.
   */
  lemma AuthorsToProcessSpec(table: DetailsTable, images: seq<AuthorSource>, crawl: seq<AuthorSource>,
                             asWritten: bool, p: Pick)
    ensures var r := AuthorsToProcess(table, images, crawl, asWritten);
      && |r| <= BatchLimit
      && Distinct(r)
      && SortedBy(ByRank(table), r)
      && (p in r ==> Wanted(table, images, crawl, asWritten, p))
      && (Wanted(table, images, crawl, asWritten, p) && p !in r ==>
            |r| == BatchLimit && forall q :: q in r ==> ByRank(table)(q, p))
  {
    RankedMembers(table, images, crawl, asWritten, p);
    TakeSorted(ByRank(table), Ranked(table, images, crawl, asWritten), BatchLimit, p);
  }

  /**
   * As written, an exhausted author with a url is picked as long as fewer than
   * `BatchLimit` pairs are wanted; with the intended clause it is never picked.
   */
  lemma ExhaustedAuthorPicked(table: DetailsTable, images: seq<AuthorSource>, crawl: seq<AuthorSource>,
                              i: nat, url: string)
    requires i < |images| && images[i].authorUrl == Some(url)
    requires images[i].author in table
    requires table[images[i].author].error.Some? && table[images[i].author].retryCount >= MaxRetries
    requires |Ranked(table, images, crawl, true)| < BatchLimit
    ensures (images[i].author, url) in AuthorsToProcess(table, images, crawl, true)
    ensures (images[i].author, url) !in AuthorsToProcess(table, images, crawl, false)
  {
    var p := (images[i].author, url);
    assert (images + crawl)[i] == AuthorSource(p.0, Some(p.1));
    AuthorsToProcessSpec(table, images, crawl, true, p);
    AuthorsToProcessSpec(table, images, crawl, false, p);
  }
}
