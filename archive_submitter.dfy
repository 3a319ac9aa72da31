/**
 * The archive submitter: it asks archive.org and archive.ph whether a page already has a
 * recent snapshot, submits the page to each service that lacks one, and keeps the
 * `archive_submissions` table (one row per URL) with its pending, success and failed states
 * and its retry counter.
 */
module ArchiveSubmitter {
  import opened Wrappers
  import opened Text
  import opened Seqs

  // ------------------------------------------------------------------ dates

  /** A `datetime` value, field by field. */
  datatype DateTime = DateTime(year: nat, month: nat, day: nat, hour: nat, minute: nat, second: nat)

  predicate IsLeap(year: nat) {
    year % 4 == 0 && (year % 100 != 0 || year % 400 == 0)
  }

  function DaysInMonth(year: nat, month: nat): nat
    requires 1 <= month <= 12
  {
    if month == 2 then (if IsLeap(year) then 29 else 28)
    else if month == 4 || month == 6 || month == 9 || month == 11 then 30
    else 31
  }

  /** What the `datetime` constructor accepts (no leap seconds). */
  predicate ValidDateTime(d: DateTime) {
    && 1 <= d.year <= 9999 && 1 <= d.month <= 12 && 1 <= d.day <= DaysInMonth(d.year, d.month)
    && d.hour < 24 && d.minute < 60 && d.second < 60
  }

  /** `a < b` on datetimes: the most significant differing field decides. */
  predicate Before(a: DateTime, b: DateTime) {
    if a.year != b.year then a.year < b.year
    else if a.month != b.month then a.month < b.month
    else if a.day != b.day then a.day < b.day
    else if a.hour != b.hour then a.hour < b.hour
    else if a.minute != b.minute then a.minute < b.minute
    else a.second < b.second
  }

  /** `datetime(2024, 7, 1)`: snapshots taken before it do not count as archived. */
  const Cutoff := DateTime(2024, 7, 1, 0, 0, 0)

  function Checked(d: DateTime): Option<DateTime> {
    if ValidDateTime(d) then Some(d) else None
  }

  /** `datetime.strptime(ts, '%Y%m%d%H%M%S')` on a CDX timestamp; `None` where it raises. */
  function ParseTimestamp(ts: string): Option<DateTime> {
    if |ts| == 14 && IsDigits(ts) then
      Checked(DateTime(DigitsValue(ts[..4]), DigitsValue(ts[4..6]), DigitsValue(ts[6..8]),
                       DigitsValue(ts[8..10]), DigitsValue(ts[10..12]), DigitsValue(ts[12..])))
    else None
  }

  /** The fourteen-digit CDX rendering of a datetime. */
  function FormatTimestamp(d: DateTime): string {
    Pad(d.year, 4) + Pad(d.month, 2) + Pad(d.day, 2) + Pad(d.hour, 2) + Pad(d.minute, 2) + Pad(d.second, 2)
  }

  /** Every valid datetime survives formatting and parsing. */
  lemma TimestampRoundTrip(d: DateTime)
    requires ValidDateTime(d)
    ensures ParseTimestamp(FormatTimestamp(d)) == Some(d)
  {
    var s := FormatTimestamp(d);
    FormatPieces(d);
    FieldsFit(d);
    PadValue(d.year, 4);
    PadValue(d.month, 2);
    PadValue(d.day, 2);
    PadValue(d.hour, 2);
    PadValue(d.minute, 2);
    PadValue(d.second, 2);
    assert DateTime(DigitsValue(s[..4]), DigitsValue(s[4..6]), DigitsValue(s[6..8]),
                    DigitsValue(s[8..10]), DigitsValue(s[10..12]), DigitsValue(s[12..])) == d;
  }

  /** The rendering is fourteen digits, one fixed-width field after another. */
  lemma FormatPieces(d: DateTime)
    ensures var s := FormatTimestamp(d);
      && |s| == 14 && IsDigits(s)
      && s[..4] == Pad(d.year, 4) && s[4..6] == Pad(d.month, 2) && s[6..8] == Pad(d.day, 2)
      && s[8..10] == Pad(d.hour, 2) && s[10..12] == Pad(d.minute, 2) && s[12..] == Pad(d.second, 2)
  {
    var s := FormatTimestamp(d);
    assert s[..4] == Pad(d.year, 4) && s[4..6] == Pad(d.month, 2) && s[6..8] == Pad(d.day, 2);
    assert s[8..10] == Pad(d.hour, 2) && s[10..12] == Pad(d.minute, 2) && s[12..] == Pad(d.second, 2);
  }

  /** The fields of a valid datetime fit their widths. */
  lemma FieldsFit(d: DateTime)
    requires ValidDateTime(d)
    ensures d.year < Pow10(4) && d.month < Pow10(2) && d.day < Pow10(2)
    ensures d.hour < Pow10(2) && d.minute < Pow10(2) && d.second < Pow10(2)
  {
    assert Pow10(2) == 100 && Pow10(4) == 10000;
  }

  /** Conversely, the only timestamps that parse are the renderings of valid datetimes. */
  lemma TimestampUnique(ts: string, d: DateTime)
    requires ParseTimestamp(ts) == Some(d)
    ensures ValidDateTime(d) && ts == FormatTimestamp(d)
  {
    DigitsPad(ts[..4]);
    DigitsPad(ts[4..6]);
    DigitsPad(ts[6..8]);
    DigitsPad(ts[8..10]);
    DigitsPad(ts[10..12]);
    DigitsPad(ts[12..]);
    assert ts == ts[..4] + ts[4..6] + ts[6..8] + ts[8..10] + ts[10..12] + ts[12..];
  }

  const Weekdays: seq<string> := ["Mon", "Tue", "Wed", "Thu", "Fri", "Sat", "Sun"]
  const Months: seq<string> := ["Jan", "Feb", "Mar", "Apr", "May", "Jun", "Jul", "Aug", "Sep", "Oct", "Nov", "Dec"]

  /** The number of an English weekday abbreviation, as `%a` reads it (Monday is 0). */
  function WeekdayNumber(name: string): (r: Option<nat>)
    ensures r.Some? <==> name in Weekdays
    ensures r.Some? ==> r.value < 7 && Weekdays[r.value] == name
  {
    if |name| != 3 then None
    else if name == "Mon" then Some(0) else if name == "Tue" then Some(1) else if name == "Wed" then Some(2)
    else if name == "Thu" then Some(3) else if name == "Fri" then Some(4) else if name == "Sat" then Some(5)
    else if name == "Sun" then Some(6)
    else None
  }

  /** The number of an English month abbreviation, as `%b` reads it. */
  function MonthNumber(name: string): (r: Option<nat>)
    ensures r.Some? <==> name in Months
    ensures r.Some? ==> 1 <= r.value <= 12 && Months[r.value - 1] == name
  {
    if |name| != 3 then None
    else if name == "Jan" then Some(1) else if name == "Feb" then Some(2) else if name == "Mar" then Some(3)
    else if name == "Apr" then Some(4) else if name == "May" then Some(5) else if name == "Jun" then Some(6)
    else if name == "Jul" then Some(7) else if name == "Aug" then Some(8) else if name == "Sep" then Some(9)
    else if name == "Oct" then Some(10) else if name == "Nov" then Some(11) else if name == "Dec" then Some(12)
    else None
  }

  /** `HH:MM:SS`: hours, minutes and seconds as two digits each. */
  function ParseClock(t: string): Option<(nat, nat, nat)> {
    if |t| == 8 && t[2] == ':' && t[5] == ':' && IsDigits(t[..2]) && IsDigits(t[3..5]) && IsDigits(t[6..]) then
      Some((DigitsValue(t[..2]), DigitsValue(t[3..5]), DigitsValue(t[6..])))
    else None
  }

  function FormatClock(h: nat, m: nat, s: nat): string {
    Pad(h, 2) + ":" + Pad(m, 2) + ":" + Pad(s, 2)
  }

  lemma ClockRoundTrip(h: nat, m: nat, s: nat)
    requires h < 100 && m < 100 && s < 100
    ensures ParseClock(FormatClock(h, m, s)) == Some((h, m, s))
  {
    var t := FormatClock(h, m, s);
    assert t[..2] == Pad(h, 2) && t[3..5] == Pad(m, 2) && t[6..] == Pad(s, 2);
    PadValue(h, 2);
    PadValue(m, 2);
    PadValue(s, 2);
  }

  lemma ClockUnique(t: string, h: nat, m: nat, s: nat)
    requires ParseClock(t) == Some((h, m, s))
    ensures t == FormatClock(h, m, s)
  {
    DigitsPad(t[..2]);
    DigitsPad(t[3..5]);
    DigitsPad(t[6..]);
    assert t == t[..2] + [t[2]] + t[3..5] + [t[5]] + t[6..];
  }

  /** `Www, DD Mmm YYYY`: weekday, day, month abbreviation and year, giving (year, month, day). */
  function ParseDay(t: string): Option<(nat, nat, nat)> {
    if && |t| == 16 && WeekdayNumber(t[..3]).Some? && t[3..5] == ", " && t[7] == ' ' && t[11] == ' '
       && IsDigits(t[5..7]) && IsDigits(t[12..]) && MonthNumber(t[8..11]).Some?
    then Some((DigitsValue(t[12..]), MonthNumber(t[8..11]).value, DigitsValue(t[5..7])))
    else None
  }

  function FormatDay(w: nat, year: nat, month: nat, day: nat): string
    requires w < 7 && 1 <= month <= 12
  {
    Weekdays[w] + ", " + Pad(day, 2) + " " + Months[month - 1] + " " + Pad(year, 4)
  }

  lemma DayRoundTrip(w: nat, year: nat, month: nat, day: nat)
    requires w < 7 && 1 <= month <= 12 && year < 10000 && day < 100
    ensures ParseDay(FormatDay(w, year, month, day)) == Some((year, month, day))
  {
    var t := FormatDay(w, year, month, day);
    assert t[..3] == Weekdays[w] && t[3..5] == ", " && t[5..7] == Pad(day, 2);
    assert t[8..11] == Months[month - 1] && t[12..] == Pad(year, 4);
    assert t[7] == ' ' && t[11] == ' ';
    WeekdaysDistinct(w);
    assert IsDigits(t[5..7]) && IsDigits(t[12..]);
    PadValue(year, 4);
    PadValue(day, 2);
    MonthsDistinct(month);
  }

  lemma WeekdaysDistinct(w: nat)
    requires w < 7
    ensures WeekdayNumber(Weekdays[w]) == Some(w)
  {
  }

  /** Each month abbreviation names only its own month. */
  lemma MonthsDistinct(month: nat)
    requires 1 <= month <= 12
    ensures MonthNumber(Months[month - 1]) == Some(month)
  {
  }

  lemma DayUnique(t: string, year: nat, month: nat, day: nat)
    requires ParseDay(t) == Some((year, month, day))
    ensures 1 <= month <= 12 && exists w :: w < 7 && t == FormatDay(w, year, month, day)
  {
    DigitsPad(t[5..7]);
    DigitsPad(t[12..]);
    var w := WeekdayNumber(t[..3]).value;
    assert t == t[..3] + t[3..5] + t[5..7] + [t[7]] + t[8..11] + [t[11]] + t[12..];
    assert t == FormatDay(w, year, month, day);
  }

  /**
   * `datetime.strptime(s, '%a, %d %b %Y %H:%M:%S GMT')` on an RFC 1123 date as archive.ph
   * writes it (section 5.2.14 of RFC 1123); `None` where it raises. The weekday is read but,
   * as in Python, not compared with the date.
   */
  function ParseRfc1123(s: string): Option<DateTime> {
    if |s| == 29 && s[16] == ' ' && s[25..] == " GMT" then
      match (ParseDay(s[..16]), ParseClock(s[17..25]))
      case (Some((y, mo, d)), Some((h, mi, sec))) => Checked(DateTime(y, mo, d, h, mi, sec))
      case _ => None
    else None
  }

  /** The RFC 1123 rendering of a datetime with weekday number `w` (Monday is 0). */
  function FormatRfc1123(w: nat, d: DateTime): string
    requires w < 7 && 1 <= d.month <= 12
  {
    FormatDay(w, d.year, d.month, d.day) + " " + FormatClock(d.hour, d.minute, d.second) + " GMT"
  }

  lemma Rfc1123RoundTrip(w: nat, d: DateTime)
    requires w < 7 && ValidDateTime(d)
    ensures ParseRfc1123(FormatRfc1123(w, d)) == Some(d)
  {
    var s := FormatRfc1123(w, d);
    assert s[..16] == FormatDay(w, d.year, d.month, d.day);
    assert s[17..25] == FormatClock(d.hour, d.minute, d.second);
    DayRoundTrip(w, d.year, d.month, d.day);
    ClockRoundTrip(d.hour, d.minute, d.second);
  }

  /** Conversely, a date that parses is the rendering of a valid datetime with some weekday. */
  lemma Rfc1123Unique(s: string, d: DateTime)
    requires ParseRfc1123(s) == Some(d)
    ensures ValidDateTime(d) && exists w :: w < 7 && s == FormatRfc1123(w, d)
  {
    DayUnique(s[..16], d.year, d.month, d.day);
    ClockUnique(s[17..25], d.hour, d.minute, d.second);
    var w :| w < 7 && s[..16] == FormatDay(w, d.year, d.month, d.day);
    assert s == s[..16] + [s[16]] + s[17..25] + s[25..];
    assert s == FormatRfc1123(w, d);
  }

  // ------------------------------------------------------------------ the TimeMap line

  const DatetimeAttr := "datetime=\""

  /** What `datetime="([^"]+)"` captures when matched at position `i`. */
  function GroupAt(s: string, i: nat): Option<string> {
    if OccursAt(s, DatetimeAttr, i) && '"' in s[i + 10..] then
      var rest := s[i + 10..];
      var g := rest[..FirstIndex(rest, '"')];
      if |g| > 0 then Some(g) else None
    else None
  }

  /** A match at `i` captures exactly a non-empty quote-free `g` closed by a quote. */
  lemma GroupAtIff(s: string, i: nat, g: string)
    ensures GroupAt(s, i) == Some(g) <==> |g| > 0 && '"' !in g && OccursAt(s, DatetimeAttr + g + "\"", i)
  {
    if |g| > 0 && '"' !in g && OccursAt(s, DatetimeAttr + g + "\"", i) {
      GroupAtWhen(s, i, g);
    }
    if GroupAt(s, i) == Some(g) {
      GroupAtOnly(s, i, g);
    }
  }

  lemma GroupAtWhen(s: string, i: nat, g: string)
    requires |g| > 0 && '"' !in g && OccursAt(s, DatetimeAttr + g + "\"", i)
    ensures GroupAt(s, i) == Some(g)
  {
    var t := DatetimeAttr + g + "\"";
    var rest := s[i + 10..];
    assert s[i..i + 10] == t[..10] == DatetimeAttr;
    assert rest[..|g| + 1] == t[10..];
    assert rest[|g|] == '"';
    var k := FirstIndex(rest, '"');
    assert rest[..|g|] == rest[..|g| + 1][..|g|] == g;
    assert k == |g|;
    assert rest[..k] == rest[..|g| + 1][..|g|] == g;
  }

  lemma GroupAtOnly(s: string, i: nat, g: string)
    requires GroupAt(s, i) == Some(g)
    ensures |g| > 0 && '"' !in g && OccursAt(s, DatetimeAttr + g + "\"", i)
  {
    var t := DatetimeAttr + g + "\"";
    var rest := s[i + 10..];
    var k := FirstIndex(rest, '"');
    assert g == rest[..k];
    assert s[i..i + |t|] == s[i..i + 10] + rest[..k + 1];
  }

  /** `re.search`: the capture of the leftmost position where the pattern matches. */
  function SearchFrom(s: string, i: nat): Option<string>
    decreases |s| - i
  {
    if i >= |s| then None
    else if GroupAt(s, i).Some? then GroupAt(s, i)
    else SearchFrom(s, i + 1)
  }

  /** The search returns `g` exactly when `g` is captured at some position and nowhere earlier. */
  lemma {:induction false} SearchFromIff(s: string, k: nat, g: string)
    ensures SearchFrom(s, k) == Some(g) <==>
      exists i :: k <= i && GroupAt(s, i) == Some(g) && forall j :: k <= j < i ==> GroupAt(s, j).None?
    decreases |s| - k
  {
    if SearchFrom(s, k) == Some(g) {
      var i := SearchFromSound(s, k, g);
    }
    if exists i :: k <= i && GroupAt(s, i) == Some(g) && forall j :: k <= j < i ==> GroupAt(s, j).None? {
      var i :| k <= i && GroupAt(s, i) == Some(g) && forall j :: k <= j < i ==> GroupAt(s, j).None?;
      SearchFromComplete(s, k, i, g);
    }
  }

  /** What the search returns is captured at a position with no capture before it. */
  lemma {:induction false} SearchFromSound(s: string, k: nat, g: string) returns (i: nat)
    requires SearchFrom(s, k) == Some(g)
    ensures k <= i && GroupAt(s, i) == Some(g) && forall j :: k <= j < i ==> GroupAt(s, j).None?
    decreases |s| - k
  {
    if GroupAt(s, k).Some? {
      i := k;
    } else {
      i := SearchFromSound(s, k + 1, g);
    }
  }

  /** A capture with none before it is what the search returns. */
  lemma {:induction false} SearchFromComplete(s: string, k: nat, i: nat, g: string)
    requires k <= i && GroupAt(s, i) == Some(g) && forall j :: k <= j < i ==> GroupAt(s, j).None?
    ensures SearchFrom(s, k) == Some(g)
    decreases i - k
  {
    if k < i {
      SearchFromComplete(s, k + 1, i, g);
    }
  }

  /** The value of the first `datetime` attribute of a TimeMap line. */
  function FirstDatetime(line: string): Option<string> {
    SearchFrom(line, 0)
  }

  // ------------------------------------------------------------------ the two checks

  /** What a check reports: archived, and the snapshot URL when archived. */
  datatype Check = Check(archived: bool, url: Option<string>)

  const WaybackPrefix := "https://web.archive.org/web/"
  const ArchivePhPrefix := "https://archive.ph/"

  /**
   * `check_archive_org`: the CDX reply is the decoded JSON table, `None` when the request
   * failed, was not OK or was not JSON. The first row is the header; the last row's second
   * field is the newest snapshot's timestamp.
   */
  function CheckArchiveOrg(url: string, reply: Option<seq<seq<string>>>): (r: Check)
    ensures r.archived <==> r.url.Some?
  {
    if reply.None? || |reply.value| <= 1 then Check(false, None)
    else
      var last := reply.value[|reply.value| - 1];
      if |last| < 2 then Check(false, None)
      else match ParseTimestamp(last[1])
        case None => Check(false, None)
        case Some(d) =>
          if Before(d, Cutoff) then Check(false, None)
          else Check(true, Some(WaybackPrefix + last[1] + "/" + url))
  }

  /** A reply whose newest row carries the timestamp of `d` is accepted exactly when `d` is not before the cutoff. */
  lemma OrgAccepts(url: string, rows: seq<seq<string>>, d: DateTime)
    requires ValidDateTime(d) && |rows| > 1 && |rows[|rows| - 1]| >= 2
    requires rows[|rows| - 1][1] == FormatTimestamp(d)
    ensures CheckArchiveOrg(url, Some(rows)) ==
      if Before(d, Cutoff) then Check(false, None)
      else Check(true, Some(WaybackPrefix + FormatTimestamp(d) + "/" + url))
  {
    TimestampRoundTrip(d);
  }

  /** And only such replies are accepted: a header row, then a newest row dated on or after the cutoff. */
  lemma OrgAcceptedShape(url: string, reply: Option<seq<seq<string>>>)
    requires CheckArchiveOrg(url, reply).archived
    ensures reply.Some? && |reply.value| > 1
    ensures var last := reply.value[|reply.value| - 1];
      exists d :: ValidDateTime(d) && !Before(d, Cutoff) && |last| >= 2 && last[1] == FormatTimestamp(d)
        && CheckArchiveOrg(url, reply).url == Some(WaybackPrefix + FormatTimestamp(d) + "/" + url)
  {
    var last := reply.value[|reply.value| - 1];
    var d := ParseTimestamp(last[1]).value;
    TimestampUnique(last[1], d);
  }

  /** The lines of a TimeMap body: `text.strip().split('\n')`. */
  function Lines(text: string): (r: seq<string>)
    ensures |r| >= 1
  {
    Split(StripWs(text), '\n')
  }

  /**
   * `check_archive_ph`: the TimeMap body (section 5 of RFC 7089), `None` when the request
   * failed or was not OK. The newest memento is the last line.
   */
  function CheckArchivePh(url: string, reply: Option<string>): (r: Check)
    ensures r.archived <==> r.url.Some?
    ensures r.url.Some? ==> r.url.value == ArchivePhPrefix + url
  {
    if reply.None? then Check(false, None)
    else
      var lines := Lines(reply.value);
      if |lines| <= 1 then Check(false, None)
      else match FirstDatetime(lines[|lines| - 1])
        case None => Check(false, None)
        case Some(g) =>
          match ParseRfc1123(g)
          case None => Check(false, None)
          case Some(d) => if Before(d, Cutoff) then Check(false, None) else Check(true, Some(ArchivePhPrefix + url))
  }

  /** A TimeMap whose last line is first dated `d` is accepted exactly when `d` is not before the cutoff. */
  lemma PhAccepts(url: string, text: string, w: nat, d: DateTime)
    requires w < 7 && ValidDateTime(d) && |Lines(text)| > 1
    requires FirstDatetime(Lines(text)[|Lines(text)| - 1]) == Some(FormatRfc1123(w, d))
    ensures CheckArchivePh(url, Some(text)).archived <==> !Before(d, Cutoff)
  {
    Rfc1123RoundTrip(w, d);
  }

  /** The newest memento of an accepted TimeMap carries a date on or after the cutoff. */
  lemma PhAcceptedDate(url: string, text: string)
    requires CheckArchivePh(url, Some(text)).archived
    ensures var lines := Lines(text);
      && |lines| > 1 && FirstDatetime(lines[|lines| - 1]).Some?
      && ParseRfc1123(FirstDatetime(lines[|lines| - 1]).value).Some?
      && !Before(ParseRfc1123(FirstDatetime(lines[|lines| - 1]).value).value, Cutoff)
  {
  }

  /** And only such TimeMaps are accepted. */
  lemma PhAcceptedShape(url: string, reply: Option<string>)
    requires CheckArchivePh(url, reply).archived
    ensures reply.Some? && |Lines(reply.value)| > 1
    ensures var lines := Lines(reply.value);
      exists w, d :: w < 7 && ValidDateTime(d) && !Before(d, Cutoff)
        && FirstDatetime(lines[|lines| - 1]) == Some(FormatRfc1123(w, d))
  {
    var lines := Lines(reply.value);
    PhAcceptedDate(url, reply.value);
    var g := FirstDatetime(lines[|lines| - 1]).value;
    var d := ParseRfc1123(g).value;
    Rfc1123Unique(g, d);
    var w :| w < 7 && g == FormatRfc1123(w, d);
    assert FirstDatetime(lines[|lines| - 1]) == Some(FormatRfc1123(w, d));
  }

  // ------------------------------------------------------------------ the submissions table

  datatype Status = Pending | Success | Failed

  /** A row of `archive_submissions`; times are seconds on the database clock. */
  datatype Submission = Submission(
    submissionDate: nat, status: Status, archiveUrl: Option<string>, retryCount: nat, lastAttempt: Option<nat>)

  /** The table, keyed by its unique `url`. */
  type Submissions = map<string, Submission>

  /**
   * `update_submission_status`: insert `url` with `status`, or on conflict overwrite the
   * status, keep the old archive URL unless a new one is given, and stamp the attempt.
   */
  function Upsert(subs: Submissions, url: string, status: Status, archiveUrl: Option<string>, now: nat): (r: Submissions)
    ensures r.Keys == subs.Keys + {url}
    ensures forall u :: u in subs && u != url ==> r[u] == subs[u]
    ensures r[url].status == status
    ensures archiveUrl.Some? ==> r[url].archiveUrl == archiveUrl
    ensures url in subs && archiveUrl.None? ==> r[url].archiveUrl == subs[url].archiveUrl
    ensures url in subs ==> && r[url].retryCount == subs[url].retryCount
                            && r[url].submissionDate == subs[url].submissionDate
                            && r[url].lastAttempt == Some(now)
    ensures url !in subs ==> r[url] == Submission(now, status, archiveUrl, 0, None)
  {
    if url in subs then
      var old_ := subs[url];
      subs[url := old_.(status := status,
                        archiveUrl := if archiveUrl.Some? then archiveUrl else old_.archiveUrl,
                        lastAttempt := Some(now))]
    else subs[url := Submission(now, status, archiveUrl, 0, None)]
  }

  /**
   * The UPDATE after a verification that found the page on neither service: one more retry,
   * and the row turns failed when it had already been retried twice. A URL with no row is
   * left alone.
   */
  function Bump(subs: Submissions, url: string, now: nat): (r: Submissions)
    ensures r.Keys == subs.Keys
    ensures forall u :: u in subs && u != url ==> r[u] == subs[u]
    ensures url in subs ==> && r[url].retryCount == subs[url].retryCount + 1
                            && (r[url].status == Failed <==> subs[url].retryCount >= 2)
                            && r[url].status != Success
                            && r[url].archiveUrl == subs[url].archiveUrl
                            && r[url].submissionDate == subs[url].submissionDate
                            && r[url].lastAttempt == Some(now)
  {
    if url in subs then
      var row := subs[url];
      subs[url := row.(retryCount := row.retryCount + 1,
                       status := if row.retryCount >= 2 then Failed else Pending,
                       lastAttempt := Some(now))]
    else subs
  }

  /** The archive URL recorded on success: `archive_org_url or archive_ph_url`. */
  function Preferred(org: Check, ph: Check): Option<string> {
    if org.url.Some? then org.url else ph.url
  }

  /** What the services answer; `None` stands for a failed, refused or undecodable request. */
  datatype Network = Network(
    cdx: string -> Option<seq<seq<string>>>,
    timemap: string -> Option<string>,
    saveOrg: string -> bool,
    savePh: string -> bool)

  function OrgCheck(net: Network, url: string): Check {
    CheckArchiveOrg(url, net.cdx(url))
  }

  function PhCheck(net: Network, url: string): Check {
    CheckArchivePh(url, net.timemap(url))
  }

  /** One step of `verify_pending_submissions`: success when either service has the page, else a retry. */
  function VerifyOne(subs: Submissions, url: string, net: Network, now: nat): (r: Submissions)
    requires url in subs
    ensures r.Keys == subs.Keys
    ensures forall u :: u in subs && u != url ==> r[u] == subs[u]
  {
    var org := OrgCheck(net, url);
    var ph := PhCheck(net, url);
    if org.archived || ph.archived then Upsert(subs, url, Success, Preferred(org, ph), now)
    else Bump(subs, url, now)
  }

  /** A verified row: archived on either service gives success, with archive.org's snapshot URL preferred. */
  lemma VerifySucceeds(subs: Submissions, url: string, net: Network, now: nat)
    requires url in subs && (OrgCheck(net, url).archived || PhCheck(net, url).archived)
    ensures var r := VerifyOne(subs, url, net, now)[url];
      && r.status == Success
      && r.archiveUrl == (if OrgCheck(net, url).archived then OrgCheck(net, url).url else PhCheck(net, url).url)
      && r.archiveUrl.Some?
      && r.retryCount == subs[url].retryCount
  {
  }

  /** A row found on neither service counts one more retry; the third such verification fails it. */
  lemma VerifyRetries(subs: Submissions, url: string, net: Network, now: nat)
    requires url in subs && !OrgCheck(net, url).archived && !PhCheck(net, url).archived
    ensures var r := VerifyOne(subs, url, net, now)[url];
      && r.retryCount == subs[url].retryCount + 1
      && (r.status == Failed <==> subs[url].retryCount >= 2)
      && (r.status == Pending <==> subs[url].retryCount < 2)
      && r.archiveUrl == subs[url].archiveUrl
  {
  }

  /** A freshly submitted page that is never found fails exactly on its third verification. */
  lemma {:induction false} ThirdFailureFails(subs: Submissions, url: string, net: Network, t0: nat, t1: nat, t2: nat, t3: nat)
    requires url !in subs && !OrgCheck(net, url).archived && !PhCheck(net, url).archived
    ensures var s0 := Upsert(subs, url, Pending, None, t0);
      var s1 := VerifyOne(s0, url, net, t1);
      var s2 := VerifyOne(s1, url, net, t2);
      var s3 := VerifyOne(s2, url, net, t3);
      && s1[url].status == Pending && s2[url].status == Pending
      && s3[url].status == Failed && s3[url].retryCount == 3
  {
    var s0 := Upsert(subs, url, Pending, None, t0);
    VerifyRetries(s0, url, net, t1);
    var s1 := VerifyOne(s0, url, net, t1);
    VerifyRetries(s1, url, net, t2);
    var s2 := VerifyOne(s1, url, net, t2);
    VerifyRetries(s2, url, net, t3);
  }

  /** Rows selected by `verify_pending_submissions`: pending and submitted at least five minutes ago. */
  predicate Due(row: Submission, now: nat) {
    row.status == Pending && row.submissionDate + 300 <= now
  }

  function DueUrls(subs: Submissions, now: nat): set<string> {
    set u | u in subs && Due(subs[u], now)
  }

  /** The table after verifying the rows of `urls`; each step touches only its own row, so order does not matter. */
  function VerifyRows(subs: Submissions, urls: set<string>, net: Network, now: nat): (r: Submissions)
    ensures r.Keys == subs.Keys
  {
    map u | u in subs :: if u in urls then VerifyOne(subs, u, net, now)[u] else subs[u]
  }

  /** A verification step reads only its own row. */
  lemma VerifyOneLocal(subs: Submissions, other: Submissions, url: string, net: Network, now: nat)
    requires url in subs && url in other && subs[url] == other[url]
    ensures VerifyOne(subs, url, net, now)[url] == VerifyOne(other, url, net, now)[url]
  {
  }

  /** Verifying one more row of the original table, in a table where it is not yet verified, updates just that row. */
  lemma VerifyRowsStep(subs: Submissions, done: set<string>, url: string, net: Network, now: nat)
    requires url in subs && url !in done
    ensures var before := VerifyRows(subs, done, net, now);
      VerifyRows(subs, done + {url}, net, now) == before[url := VerifyOne(before, url, net, now)[url]]
  {
    VerifyOneLocal(VerifyRows(subs, done, net, now), subs, url, net, now);
  }

  /** One row of the verification loop: the row is verified and the rest of the bookkeeping follows. */
  lemma VerifyEachStep(subs: Submissions, due: set<string>, todo: set<string>, done: set<string>,
                       url: string, net: Network, now: nat)
    requires due <= subs.Keys && todo <= due && done == due - todo && url in todo
    ensures url in subs && due - (todo - {url}) == done + {url} && |todo - {url}| < |todo|
    ensures var before := VerifyRows(subs, done, net, now);
      VerifyRows(subs, done + {url}, net, now) == before[url := VerifyOne(before, url, net, now)[url]]
  {
    VerifyRowsStep(subs, done, url, net, now);
  }

  /** `verify_pending_submissions` as a whole: due rows are verified, every other row is unchanged. */
  function VerifyPending(subs: Submissions, net: Network, now: nat): (r: Submissions)
    ensures r.Keys == subs.Keys
    ensures forall u :: u in subs && !Due(subs[u], now) ==> r[u] == subs[u]
    ensures forall u :: u in subs && Due(subs[u], now) ==> r[u] == VerifyOne(subs, u, net, now)[u]
  {
    VerifyRows(subs, DueUrls(subs, now), net, now)
  }

  // ------------------------------------------------------------------ eligibility

  /** Every failed row has been retried at least three times. */
  ghost predicate FailedRetried(subs: Submissions) {
    forall u :: u in subs && subs[u].status == Failed ==> subs[u].retryCount >= 3
  }

  lemma UpsertKeepsFailedRetried(subs: Submissions, url: string, status: Status, archiveUrl: Option<string>, now: nat)
    requires FailedRetried(subs) && status != Failed
    ensures FailedRetried(Upsert(subs, url, status, archiveUrl, now))
  {
  }

  lemma VerifyKeepsFailedRetried(subs: Submissions, url: string, net: Network, now: nat)
    requires FailedRetried(subs) && url in subs
    ensures FailedRetried(VerifyOne(subs, url, net, now))
  {
  }

  lemma {:induction false} VerifyPendingKeepsFailedRetried(subs: Submissions, net: Network, now: nat)
    requires FailedRetried(subs)
    ensures FailedRetried(VerifyPending(subs, net, now))
  {
    var r := VerifyPending(subs, net, now);
    forall u | u in r && r[u].status == Failed ensures r[u].retryCount >= 3 {
      if Due(subs[u], now) {
        VerifyKeepsFailedRetried(subs, u, net, now);
      }
    }
  }

  /** Author, marked and favourite pages: no row yet, or failed with fewer than three retries. */
  predicate Eligible(subs: Submissions, url: string) {
    url !in subs || (subs[url].status == Failed && subs[url].retryCount < 3)
  }

  /** Sampled image pages: no row yet, or any failed row. */
  predicate SampleEligible(subs: Submissions, url: string) {
    url !in subs || subs[url].status == Failed
  }

  /**
   * In every table the submitter produces, no failed row has fewer than three retries, so the
   * retry clause of the eligibility test never admits a row: only pages never submitted are
   * eligible, and a page that failed is only ever resubmitted by the image sampling.
   */
  lemma EligibleOnlyWithoutRow(subs: Submissions, url: string)
    requires FailedRetried(subs)
    ensures Eligible(subs, url) <==> url !in subs
    ensures SampleEligible(subs, url) <==> url !in subs || subs[url].status == Failed
  {
  }

  // ------------------------------------------------------------------ sampling

  /** `int(total_images * ARCHIVE_SAMPLE_RATE)` with the rate 0.005, that is one page in two hundred. */
  function Target(total: nat): nat {
    total / 200
  }

  /** How many pages `process_pending_images` asks for: the shortfall below the target, if any. */
  function Requested(total: nat, archived: nat): (r: nat)
    ensures r > 0 <==> archived < Target(total)
    ensures archived < Target(total) ==> archived + r == Target(total)
  {
    if archived < Target(total) then Target(total) - archived else 0
  }

  // ------------------------------------------------------------------ submitting

  /** Whether a page gets submitted somewhere: a service lacks it and accepts the submission. */
  predicate Submitted(net: Network, url: string) {
    || (!OrgCheck(net, url).archived && net.saveOrg(url))
    || (!PhCheck(net, url).archived && net.savePh(url))
  }

  /**
   * Checking one page on both services and submitting it to each that lacks it; every
   * accepted submission records the page as pending.
   */
  function SubmitPage(subs: Submissions, url: string, net: Network, now: nat): (r: Submissions)
    ensures subs.Keys <= r.Keys <= subs.Keys + {url}
    ensures forall u :: u in subs && u != url ==> r[u] == subs[u]
    ensures !Submitted(net, url) ==> r == subs
    ensures Submitted(net, url) ==> && r.Keys == subs.Keys + {url} && r[url].status == Pending
                                    && (url in subs ==> && r[url].retryCount == subs[url].retryCount
                                                        && r[url].archiveUrl == subs[url].archiveUrl
                                                        && r[url].submissionDate == subs[url].submissionDate)
                                    && (url !in subs ==> r[url].retryCount == 0 && r[url].submissionDate == now)
  {
    var afterOrg := if !OrgCheck(net, url).archived && net.saveOrg(url) then Upsert(subs, url, Pending, None, now) else subs;
    if !PhCheck(net, url).archived && net.savePh(url) then Upsert(afterOrg, url, Pending, None, now) else afterOrg
  }

  /** Submitting a list of pages in order. */
  function SubmitAll(subs: Submissions, urls: seq<string>, net: Network, now: nat): (r: Submissions)
    decreases |urls|
  {
    if |urls| == 0 then subs
    else SubmitPage(SubmitAll(subs, urls[..|urls| - 1], net, now), urls[|urls| - 1], net, now)
  }

  lemma {:induction false} SubmitAllAppend(subs: Submissions, xs: seq<string>, ys: seq<string>, net: Network, now: nat)
    ensures SubmitAll(subs, xs + ys, net, now) == SubmitAll(SubmitAll(subs, xs, net, now), ys, net, now)
    decreases |ys|
  {
    if |ys| == 0 {
      assert xs + ys == xs;
    } else {
      var init := ys[..|ys| - 1];
      assert (xs + ys)[..|xs + ys| - 1] == xs + init;
      assert (xs + ys)[|xs + ys| - 1] == ys[|ys| - 1];
      SubmitAllAppend(subs, xs, init, net, now);
    }
  }

  /**
   * After submitting a list: a listed page is pending exactly when some service took it, a
   * listed page no service took keeps its row (or its absence), and unlisted pages are untouched.
   */
  lemma {:induction false} SubmitAllRecords(subs: Submissions, urls: seq<string>, net: Network, now: nat, u: string)
    ensures var r := SubmitAll(subs, urls, net, now);
      && (u in urls && Submitted(net, u) ==> u in r && r[u].status == Pending)
      && (u !in urls || !Submitted(net, u) ==> (u in r <==> u in subs) && (u in subs ==> r[u] == subs[u]))
      && (forall v :: v in r ==> v in subs || v in urls)
    decreases |urls|
  {
    if |urls| > 0 {
      var init := urls[..|urls| - 1];
      SubmitAllRecords(subs, init, net, now, u);
      assert forall v :: v in urls <==> v in init || v == urls[|urls| - 1];
      var mid := SubmitAll(subs, init, net, now);
      forall v | v in SubmitAll(subs, urls, net, now) ensures v in subs || v in urls {
        SubmitAllRecords(subs, init, net, now, v);
      }
    }
  }

  lemma {:induction false} SubmitAllKeepsFailedRetried(subs: Submissions, urls: seq<string>, net: Network, now: nat)
    requires FailedRetried(subs)
    ensures FailedRetried(SubmitAll(subs, urls, net, now))
    decreases |urls|
  {
    if |urls| > 0 {
      SubmitAllKeepsFailedRetried(subs, urls[..|urls| - 1], net, now);
    }
  }

  // ------------------------------------------------------------------ what each task submits

  /** The columns of `images` the submitter reads; `marked` says whether `marked_images` lists the image. */
  datatype Image = Image(pageUrl: string, author: Option<string>, authorUrl: Option<string>, marked: bool)

  /** `f"{author_url}/details"`. */
  function DetailsPage(authorUrl: string): string {
    authorUrl + "/details"
  }

  /** `process_pending_authors`' query: the distinct non-null eligible author URLs, in image order. */
  function PendingAuthors(images: seq<Image>, subs: Submissions): seq<string> {
    Dedup(FlatMap((i: Image) => if i.authorUrl.Some? && Eligible(subs, i.authorUrl.value) then [i.authorUrl.value] else [], images))
  }

  lemma PendingAuthorsIff(images: seq<Image>, subs: Submissions, u: string)
    ensures Distinct(PendingAuthors(images, subs))
    ensures u in PendingAuthors(images, subs) <==>
      Eligible(subs, u) && exists k :: 0 <= k < |images| && images[k].authorUrl == Some(u)
  {
    FlatMapMember((i: Image) => if i.authorUrl.Some? && Eligible(subs, i.authorUrl.value) then [i.authorUrl.value] else [], images, u);
  }

  /** An author is submitted with its details page. */
  function AuthorPages(authorUrl: string): seq<string> {
    [authorUrl, DetailsPage(authorUrl)]
  }

  /** A row of `process_marked_images`' query: a page and its author's URL. */
  datatype MarkedRow = MarkedRow(pageUrl: string, authorUrl: Option<string>)

  /** `process_marked_images`' query: distinct rows of marked images whose page is eligible, in image order. */
  function MarkedRows(images: seq<Image>, subs: Submissions): seq<MarkedRow> {
    Dedup(FlatMap((i: Image) => if i.marked && Eligible(subs, i.pageUrl) then [MarkedRow(i.pageUrl, i.authorUrl)] else [], images))
  }

  lemma MarkedRowsIff(images: seq<Image>, subs: Submissions, row: MarkedRow)
    ensures Distinct(MarkedRows(images, subs))
    ensures row in MarkedRows(images, subs) <==>
      Eligible(subs, row.pageUrl)
      && exists k :: 0 <= k < |images| && images[k].marked && images[k].pageUrl == row.pageUrl && images[k].authorUrl == row.authorUrl
  {
    FlatMapMember((i: Image) => if i.marked && Eligible(subs, i.pageUrl) then [MarkedRow(i.pageUrl, i.authorUrl)] else [], images, row);
  }

  /** A marked page, then its author's page and details page when the author URL is non-empty. */
  function MarkedPages(row: MarkedRow): seq<string> {
    [row.pageUrl] + if row.authorUrl.Some? && row.authorUrl.value != "" then AuthorPages(row.authorUrl.value) else []
  }

  /** `COUNT(*)` of an author's images (authors are grouped with SQL's `GROUP BY`, `NULL` forming a group). */
  function Total(images: seq<Image>, author: Option<string>): nat {
    |Filter((i: Image) => i.author == author, images)|
  }

  /** How many of an author's images have a successful submission. */
  function Archived(images: seq<Image>, subs: Submissions, author: Option<string>): nat {
    |Filter((i: Image) => i.author == author && i.pageUrl in subs && subs[i.pageUrl].status == Success, images)|
  }

  /** An author cannot have more archived images than images. */
  lemma {:induction false} ArchivedAtMostTotal(images: seq<Image>, subs: Submissions, author: Option<string>)
    ensures Archived(images, subs, author) <= Total(images, author)
  {
    if |images| > 0 {
      var init := images[..|images| - 1];
      ArchivedAtMostTotal(init, subs, author);
    }
  }

  /** `process_favorite_authors`' candidates: favourite authors with at least one image not archived. */
  function FavouriteCandidates(images: seq<Image>, subs: Submissions, favourites: set<string>): set<string> {
    set a | a in favourites && Archived(images, subs, Some(a)) < Total(images, Some(a))
  }

  /** The eligible pages of one author's images, in image order. */
  function EligiblePages(images: seq<Image>, subs: Submissions, author: string): seq<string> {
    FlatMap((i: Image) => if i.author == Some(author) && Eligible(subs, i.pageUrl) then [i.pageUrl] else [], images)
  }

  /** `ORDER BY RANDOM()`: any rearrangement of the rows. */
  ghost predicate IsShuffle(shuffle: seq<string> -> seq<string>) {
    forall xs :: multiset(shuffle(xs)) == multiset(xs)
  }

  /** The weighted random choice of a favourite author: one of the candidates, or none when there are none. */
  ghost predicate IsPick(pick: set<string> -> Option<string>) {
    forall c :: (pick(c).None? <==> c == {}) && (pick(c).Some? ==> pick(c).value in c)
  }

  /** The batch `process_favorite_authors` submits: up to sixty eligible pages of the chosen author. */
  function FavouritePages(images: seq<Image>, subs: Submissions, favourites: set<string>,
                          pick: set<string> -> Option<string>, shuffle: seq<string> -> seq<string>): seq<string>
  {
    var chosen := pick(FavouriteCandidates(images, subs, favourites));
    if chosen.None? then [] else Take(shuffle(EligiblePages(images, subs, chosen.value)), 60)
  }

  /** A shuffled prefix holds only elements of the original list. */
  lemma ShuffledPrefix(shuffle: seq<string> -> seq<string>, xs: seq<string>, n: nat, p: string)
    requires IsShuffle(shuffle)
    ensures |Take(shuffle(xs), n)| == if |xs| <= n then |xs| else n
    ensures p in Take(shuffle(xs), n) ==> p in xs
  {
    assert multiset(shuffle(xs)) == multiset(xs);
    assert |shuffle(xs)| == |multiset(xs)| == |xs|;
    if p in Take(shuffle(xs), n) {
      assert p in multiset(shuffle(xs));
    }
  }

  /**
   * A favourite batch has at most sixty pages, each an eligible page of one favourite author
   * who has images left to archive; there is no batch exactly when there is no such author.
   */
  lemma FavouritePagesBound(images: seq<Image>, subs: Submissions, favourites: set<string>,
                            pick: set<string> -> Option<string>, shuffle: seq<string> -> seq<string>, p: string)
    requires IsPick(pick) && IsShuffle(shuffle)
    ensures |FavouritePages(images, subs, favourites, pick, shuffle)| <= 60
    ensures FavouriteCandidates(images, subs, favourites) == {} ==> FavouritePages(images, subs, favourites, pick, shuffle) == []
    ensures p in FavouritePages(images, subs, favourites, pick, shuffle) ==>
      exists a :: a in favourites && Archived(images, subs, Some(a)) < Total(images, Some(a))
        && Eligible(subs, p) && exists k :: 0 <= k < |images| && images[k].author == Some(a) && images[k].pageUrl == p
  {
    var c := FavouriteCandidates(images, subs, favourites);
    var chosen := pick(c);
    if chosen.Some? {
      var a := chosen.value;
      var pages := EligiblePages(images, subs, a);
      ShuffledPrefix(shuffle, pages, 60, p);
      FlatMapMember((i: Image) => if i.author == Some(a) && Eligible(subs, i.pageUrl) then [i.pageUrl] else [], images, p);
    }
  }

  /** The pages `process_pending_images` may pick for one author: eligible for sampling, in image order. */
  function SampleCandidates(images: seq<Image>, subs: Submissions, author: Option<string>): seq<string> {
    if author.None? then []
    else FlatMap((i: Image) => if i.author == author && SampleEligible(subs, i.pageUrl) then [i.pageUrl] else [], images)
  }

  /**
   * The pages sampled for one author: the counts come from the table as it was when the task
   * started (`stats`), the candidates from the table as it is now (`subs`).
   */
  function SampledPages(images: seq<Image>, stats: Submissions, subs: Submissions, author: Option<string>,
                        shuffle: seq<string> -> seq<string>): seq<string>
  {
    Take(shuffle(SampleCandidates(images, subs, author)), Requested(Total(images, author), Archived(images, stats, author)))
  }

  /**
   * An author is sampled only while below one page in two hundred, and then gets exactly the
   * shortfall, or every candidate when there are fewer; each sampled page is one of the
   * author's pages with no row or a failed one.
   */
  lemma SampledPagesBound(images: seq<Image>, stats: Submissions, subs: Submissions, author: Option<string>,
                          shuffle: seq<string> -> seq<string>, p: string)
    requires IsShuffle(shuffle)
    ensures var want := Requested(Total(images, author), Archived(images, stats, author));
      var cands := SampleCandidates(images, subs, author);
      |SampledPages(images, stats, subs, author, shuffle)| == if |cands| <= want then |cands| else want
    ensures Archived(images, stats, author) >= Target(Total(images, author)) ==> SampledPages(images, stats, subs, author, shuffle) == []
    ensures p in SampledPages(images, stats, subs, author, shuffle) ==>
      author.Some? && SampleEligible(subs, p) && exists k :: 0 <= k < |images| && images[k].author == author && images[k].pageUrl == p
  {
    var want := Requested(Total(images, author), Archived(images, stats, author));
    ShuffledPrefix(shuffle, SampleCandidates(images, subs, author), want, p);
    if author.Some? {
      FlatMapMember((i: Image) => if i.author == author && SampleEligible(subs, i.pageUrl) then [i.pageUrl] else [], images, p);
    }
  }

  /** The author groups of `process_pending_images`' first query, in image order. */
  function Groups(images: seq<Image>): seq<Option<string>> {
    Dedup(FlatMap((i: Image) => [i.author], images))
  }

  /** The table after sampling the authors of `groups` in order. */
  function SampleAll(images: seq<Image>, stats: Submissions, subs: Submissions, groups: seq<Option<string>>,
                     shuffle: seq<string> -> seq<string>, net: Network, now: nat): Submissions
    decreases |groups|
  {
    if |groups| == 0 then subs
    else
      var before := SampleAll(images, stats, subs, groups[..|groups| - 1], shuffle, net, now);
      SubmitAll(before, SampledPages(images, stats, before, groups[|groups| - 1], shuffle), net, now)
  }

  lemma {:induction false} SampleAllKeepsFailedRetried(images: seq<Image>, stats: Submissions, subs: Submissions,
      groups: seq<Option<string>>, shuffle: seq<string> -> seq<string>, net: Network, now: nat)
    requires FailedRetried(subs)
    ensures FailedRetried(SampleAll(images, stats, subs, groups, shuffle, net, now))
    decreases |groups|
  {
    if |groups| > 0 {
      SampleAllKeepsFailedRetried(images, stats, subs, groups[..|groups| - 1], shuffle, net, now);
      var before := SampleAll(images, stats, subs, groups[..|groups| - 1], shuffle, net, now);
      SubmitAllKeepsFailedRetried(before, SampledPages(images, stats, before, groups[|groups| - 1], shuffle), net, now);
    }
  }

  // ------------------------------------------------------------------ one cycle of `run`

  /**
   * One pass of the main loop: authors, marked images, a favourite author, sampled images,
   * then verification. Submissions carry the time `t`, verification runs at `tv`.
   */
  function Cycle(subs: Submissions, images: seq<Image>, favourites: set<string>, pick: set<string> -> Option<string>,
                 shuffle: seq<string> -> seq<string>, net: Network, t: nat, tv: nat): Submissions
  {
    var s1 := SubmitAll(subs, FlatMap(AuthorPages, PendingAuthors(images, subs)), net, t);
    var s2 := SubmitAll(s1, FlatMap(MarkedPages, MarkedRows(images, s1)), net, t);
    var s3 := SubmitAll(s2, FavouritePages(images, s2, favourites, pick, shuffle), net, t);
    var s4 := SampleAll(images, s3, s3, Groups(images), shuffle, net, t);
    VerifyPending(s4, net, tv)
  }

  /** No cycle ever leaves a failed row with fewer than three retries. */
  lemma CycleKeepsFailedRetried(subs: Submissions, images: seq<Image>, favourites: set<string>,
                                pick: set<string> -> Option<string>, shuffle: seq<string> -> seq<string>,
                                net: Network, t: nat, tv: nat)
    requires FailedRetried(subs)
    ensures FailedRetried(Cycle(subs, images, favourites, pick, shuffle, net, t, tv))
  {
    var s1 := SubmitAll(subs, FlatMap(AuthorPages, PendingAuthors(images, subs)), net, t);
    SubmitAllKeepsFailedRetried(subs, FlatMap(AuthorPages, PendingAuthors(images, subs)), net, t);
    var s2 := SubmitAll(s1, FlatMap(MarkedPages, MarkedRows(images, s1)), net, t);
    SubmitAllKeepsFailedRetried(s1, FlatMap(MarkedPages, MarkedRows(images, s1)), net, t);
    var s3 := SubmitAll(s2, FavouritePages(images, s2, favourites, pick, shuffle), net, t);
    SubmitAllKeepsFailedRetried(s2, FavouritePages(images, s2, favourites, pick, shuffle), net, t);
    var s4 := SampleAll(images, s3, s3, Groups(images), shuffle, net, t);
    SampleAllKeepsFailedRetried(images, s3, s3, Groups(images), shuffle, net, t);
    VerifyPendingKeepsFailedRetried(s4, net, tv);
  }

  // ------------------------------------------------------------------ the submitter

  /** `ArchiveSubmitter`: the `archive_submissions` table it keeps. */
  class Submitter {
    var submissions: Submissions

    constructor(existing: Submissions)
      ensures submissions == existing
    {
      submissions := existing;
    }

    /** `update_submission_status`. */
    method UpdateSubmissionStatus(url: string, status: Status, archiveUrl: Option<string>, now: nat)
      modifies this
      ensures submissions == Upsert(old(submissions), url, status, archiveUrl, now)
    {
      if url in submissions {
        var row := submissions[url];
        var kept := if archiveUrl.Some? then archiveUrl else row.archiveUrl;
        submissions := submissions[url := row.(status := status, archiveUrl := kept, lastAttempt := Some(now))];
      } else {
        submissions := submissions[url := Submission(now, status, archiveUrl, 0, None)];
      }
    }

    /** Check each page on both services and submit it to each that lacks it. */
    method SubmitEach(urls: seq<string>, net: Network, now: nat)
      modifies this
      ensures submissions == SubmitAll(old(submissions), urls, net, now)
    {
      ghost var initial := submissions;
      for i := 0 to |urls|
        invariant submissions == SubmitAll(initial, urls[..i], net, now)
      {
        var url := urls[i];
        var org := CheckArchiveOrg(url, net.cdx(url));
        var ph := CheckArchivePh(url, net.timemap(url));
        if !org.archived && net.saveOrg(url) {
          UpdateSubmissionStatus(url, Pending, None, now);
        }
        if !ph.archived && net.savePh(url) {
          UpdateSubmissionStatus(url, Pending, None, now);
        }
        assert urls[..i + 1][..i] == urls[..i];
      }
      assert urls[..|urls|] == urls;
    }

    /** Submit the pages of each selected row in turn. */
    method SubmitRows<R>(rows: seq<R>, pages: R -> seq<string>, net: Network, now: nat)
      modifies this
      ensures submissions == SubmitAll(old(submissions), FlatMap(pages, rows), net, now)
    {
      ghost var initial := submissions;
      for i := 0 to |rows|
        invariant submissions == SubmitAll(initial, FlatMap(pages, rows[..i]), net, now)
      {
        SubmitEach(pages(rows[i]), net, now);
        FlatMapSnoc(pages, rows, i);
        SubmitAllAppend(initial, FlatMap(pages, rows[..i]), pages(rows[i]), net, now);
      }
      assert rows[..|rows|] == rows;
    }

    /** `process_pending_authors`: each eligible author page, then its details page. */
    method ProcessPendingAuthors(images: seq<Image>, net: Network, now: nat)
      modifies this
      ensures submissions == SubmitAll(old(submissions), FlatMap(AuthorPages, PendingAuthors(images, old(submissions))), net, now)
    {
      var authors := PendingAuthors(images, submissions);
      SubmitRows(authors, AuthorPages, net, now);
    }

    /** `process_marked_images`: each eligible marked page, then its author's pages. */
    method ProcessMarkedImages(images: seq<Image>, net: Network, now: nat)
      modifies this
      ensures submissions == SubmitAll(old(submissions), FlatMap(MarkedPages, MarkedRows(images, old(submissions))), net, now)
    {
      var rows := MarkedRows(images, submissions);
      SubmitRows(rows, MarkedPages, net, now);
    }

    /** `process_favorite_authors`: one batch of a randomly chosen favourite author's pages. */
    method ProcessFavoriteAuthors(images: seq<Image>, favourites: set<string>, pick: set<string> -> Option<string>,
                                  shuffle: seq<string> -> seq<string>, net: Network, now: nat)
      modifies this
      ensures submissions == SubmitAll(old(submissions), FavouritePages(images, old(submissions), favourites, pick, shuffle), net, now)
    {
      var author := pick(FavouriteCandidates(images, submissions, favourites));
      if author.None? {
        return;
      }
      var pages := Take(shuffle(EligiblePages(images, submissions, author.value)), 60);
      if |pages| == 0 {
        return;
      }
      SubmitEach(pages, net, now);
    }

    /** `process_pending_images`: sample each author below the target, counting from the table as the task found it. */
    method ProcessPendingImages(images: seq<Image>, shuffle: seq<string> -> seq<string>, net: Network, now: nat)
      modifies this
      ensures submissions == SampleAll(images, old(submissions), old(submissions), Groups(images), shuffle, net, now)
    {
      var stats := submissions;
      var groups := Groups(images);
      for g := 0 to |groups|
        invariant submissions == SampleAll(images, stats, stats, groups[..g], shuffle, net, now)
      {
        var author := groups[g];
        var archived := Archived(images, stats, author);
        var target := Target(Total(images, author));
        assert groups[..g + 1][..g] == groups[..g];
        if archived < target {
          var pages := Take(shuffle(SampleCandidates(images, submissions, author)), target - archived);
          SubmitEach(pages, net, now);
        }
      }
      assert groups[..|groups|] == groups;
    }

    /** The loop body of `verify_pending_submissions` for one row. */
    method VerifySubmission(url: string, net: Network, now: nat)
      requires url in submissions
      modifies this
      ensures submissions == old(submissions)[url := VerifyOne(old(submissions), url, net, now)[url]]
    {
      var org := CheckArchiveOrg(url, net.cdx(url));
      var ph := CheckArchivePh(url, net.timemap(url));
      if org.archived || ph.archived {
        UpdateSubmissionStatus(url, Success, Preferred(org, ph), now);
      } else {
        var row := submissions[url];
        submissions := submissions[url := row.(retryCount := row.retryCount + 1,
                                               status := if row.retryCount >= 2 then Failed else Pending,
                                               lastAttempt := Some(now))];
      }
    }

    /** `verify_pending_submissions`: the due rows, selected before any is verified. */
    method VerifyPendingSubmissions(net: Network, now: nat)
      modifies this
      ensures submissions == VerifyPending(old(submissions), net, now)
    {
      var due := DueUrls(submissions, now);
      VerifyEach(due, net, now);
    }

    /** Verify each row of `due`, in no particular order. */
    method VerifyEach(due: set<string>, net: Network, now: nat)
      requires due <= submissions.Keys
      modifies this
      ensures submissions == VerifyRows(old(submissions), due, net, now)
    {
      ghost var initial := submissions;
      var todo := due;
      ghost var done: set<string> := {};
      while todo != {}
        invariant todo <= due && done == due - todo
        invariant submissions.Keys == initial.Keys
        invariant submissions == VerifyRows(initial, done, net, now)
        decreases |todo|
      {
        var url :| url in todo;
        VerifyEachStep(initial, due, todo, done, url, net, now);
        VerifySubmission(url, net, now);
        todo := todo - {url};
        done := done + {url};
      }
      assert done == due;
    }

    /** One pass of `run`, and the retry invariant it keeps. */
    method RunCycle(images: seq<Image>, favourites: set<string>, pick: set<string> -> Option<string>,
                    shuffle: seq<string> -> seq<string>, net: Network, t: nat, tv: nat)
      modifies this
      ensures submissions == Cycle(old(submissions), images, favourites, pick, shuffle, net, t, tv)
      ensures FailedRetried(old(submissions)) ==> FailedRetried(submissions)
    {
      ProcessPendingAuthors(images, net, t);
      ProcessMarkedImages(images, net, t);
      ProcessFavoriteAuthors(images, favourites, pick, shuffle, net, t);
      ProcessPendingImages(images, shuffle, net, t);
      VerifyPendingSubmissions(net, tv);
      if FailedRetried(old(submissions)) {
        CycleKeepsFailedRetried(old(submissions), images, favourites, pick, shuffle, net, t, tv);
      }
    }
  }
}
