/**
 * The licence survey (license_crawler.py): search pages fetched with
 * progressive timeouts and status-dependent retries, the Creative Commons
 * licence formatter, the retried licence lookup, and the per-licence
 * counter dictionary written out in descending order of count.
 *
 * Each request is an oracle indexed by the attempt number (1, 2, 3).
 */
module LicenseCrawler {
  import opened Wrappers
  import opened Text
  import opened Seqs
  import opened Dicts
  import Indafoto

  const BaseRateLimit: nat := 1
  const BaseTimeout: nat := 60
  const TotalPages: nat := 14267
  const MaxAttempts: nat := 3
  const ImagesPerPage: nat := 20

  /** The status codes `get_image_links` handles specially. */
  const RetryCodes: seq<nat> := [408, 429, 500, 502, 503, 504, 507, 508, 509]

  const SearchUrlPrefix: string :=
    "https://indafoto.hu/search/list?profile=main&sphinx=1&search=advanced&textsearch=fulltext&textuser=&textmap=&textcompilation=&photo=&datefrom=&dateto=&licence%5B2%5D=I1%3BI2%3BI3&page_offset="

  function SearchUrl(offset: nat): string {
    SearchUrlPrefix + NatToString(offset)
  }

  function Min(a: nat, b: nat): nat {
    if a < b then a else b
  }

  // ---------------------------------------------------------------------------
  // `page_offset=(\d+)` in a URL
  // ---------------------------------------------------------------------------

  const OffsetKey: string := "page_offset="

  /** The longest run of digits at the start of `s`. */
  function DigitRun(s: string): (r: string)
    ensures r <= s && forall i :: 0 <= i < |r| ==> IsDigit(r[i])
    ensures |r| == |s| || !IsDigit(s[|r|])
  {
    if |s| > 0 && IsDigit(s[0]) then [s[0]] + DigitRun(s[1..]) else []
  }

  /** A match of `page_offset=\d` starts at `i`. */
  predicate OffsetAt(s: string, i: nat) {
    OccursAt(s, OffsetKey, i) && i + |OffsetKey| < |s| && IsDigit(s[i + |OffsetKey|])
  }

  /** The leftmost match at or after `k`, as `re.search` finds it. */
  function OffsetMatchFrom(s: string, k: nat): (r: Option<nat>)
    decreases |s| - k
    ensures r.Some? ==> k <= r.value && OffsetAt(s, r.value)
    ensures r.Some? ==> forall j :: k <= j < r.value ==> !OffsetAt(s, j)
    ensures r.None? ==> forall j :: k <= j ==> !OffsetAt(s, j)
  {
    if k + |OffsetKey| >= |s| then None
    else if OffsetAt(s, k) then Some(k)
    else OffsetMatchFrom(s, k + 1)
  }

  /** `int(re.search(r'page_offset=(\d+)', s).group(1))`, None when there is no match. */
  function PageOffset(s: string): (r: Option<nat>)
    ensures r.None? <==> forall j :: 0 <= j ==> !OffsetAt(s, j)
  {
    match OffsetMatchFrom(s, 0)
    case None => None
    case Some(i) => Some(DigitsValue(DigitRun(s[i + |OffsetKey|..])))
  }

  // ---------------------------------------------------------------------------
  // `get_image_links`
  // ---------------------------------------------------------------------------

  /** One request for a search page. */
  datatype Response =
    | TimedOut                                   // `requests.exceptions.Timeout`
    | RequestFailed                              // any other request exception
    | Status(code: nat, reason: string, hrefs: seq<string>)  // its status, reason phrase and `<a href>` values

  datatype LicenseRecord = LicenseRecord(imageUrl: string, pageUrl: string, caption: string, nextPage: bool)

  /** The page's records, or the `HTTPError` that escapes to the caller. */
  datatype LinksResult = Records(records: seq<LicenseRecord>) | HttpErrorRaised(message: string)

  /** One attempt: the timeout it used and the backoff slept after it (0 for none). */
  datatype Try = Try(timeout: nat, backoff: nat)

  datatype Fetched = Fetched(result: LinksResult, tries: seq<Try>)

  function Backoff408(attempt: nat): nat {
    Min(20 * attempt, 300)
  }

  function Backoff429(attempt: nat): nat {
    Min(60 * attempt, 600)
  }

  function TimeoutBackoff(attempt: nat): nat {
    30 * attempt
  }

  /** The message of the `HTTPError` raised for a listed status code. */
  function ServerErrorText(code: nat): string {
    "Server Error (" + NatToString(code) + ")"
  }

  /** The message of the `HTTPError` from `raise_for_status`: the status, its class, the reason, and the URL. */
  function HttpErrorText(code: nat, reason: string, url: string): string {
    NatToString(code) + (if code < 500 then " Client Error: " else " Server Error: ") + reason + " for url: " + url
  }

  /** The test of the `except HTTPError` clause as written: does the message mention a listed code? */
  predicate MentionsRetryCode(message: string) {
    exists i :: 0 <= i < |RetryCodes| && Contains(message, NatToString(RetryCodes[i]))
  }

  /** The `except HTTPError` clause: re-raise, or give up on the page with no records. */
  function CatchHttpError(message: string, code: nat, asWritten: bool): (r: LinksResult)
    ensures r.HttpErrorRaised? ==> r.message == message
    ensures !asWritten ==> (r.HttpErrorRaised? <==> code in RetryCodes)
    ensures asWritten ==> (r.HttpErrorRaised? <==> MentionsRetryCode(message))
  {
    if (if asWritten then MentionsRetryCode(message) else code in RetryCodes) then HttpErrorRaised(message)
    else Records([])
  }

  /** The record of a share link; its `next_page` flag compares the photo URL's offset with `current + 1`. */
  function LinkRecords(current: nat, href: string): (r: seq<LicenseRecord>)
    ensures |r| <= 1
    ensures forall rec :: rec in r ==> rec.nextPage == (PageOffset(rec.pageUrl).GetOr(current) == current + 1)
  {
    if Contains(href, Indafoto.ShareMarker) then
      match Indafoto.ParseShareLink(href)
      case Some(s) =>
        [LicenseRecord(s.imageUrl, s.pageUrl, s.caption, PageOffset(s.pageUrl).GetOr(current) == current + 1)]
      case None => []
    else []
  }

  /** The records of a successfully fetched page, with `current_page` taken from its URL. */
  function PageRecords(url: string, hrefs: seq<string>): seq<LicenseRecord> {
    FlatMap((h: string) => LinkRecords(PageOffset(url).GetOr(0), h), hrefs)
  }

  function Retried(t: Try, rest: Fetched): Fetched {
    Fetched(rest.result, [t] + rest.tries)
  }

  /**
   * `get_image_links(url, attempt)`.  `asWritten` selects how the
   * `HTTPError` handler decides to re-raise: from the message as written, or
   * from the status code.
   */
  function FetchLinks(url: string, attempt: nat, respond: nat -> Response, asWritten: bool): (r: Fetched)
    requires 1 <= attempt <= MaxAttempts
    decreases MaxAttempts - attempt
    ensures 1 <= |r.tries| <= MaxAttempts - attempt + 1
    ensures forall i :: 0 <= i < |r.tries| ==> r.tries[i].timeout == BaseTimeout * (attempt + i)
    ensures forall i :: 0 <= i < |r.tries| ==> r.tries[i].backoff <= 600
  {
    var timeout := BaseTimeout * attempt;
    match respond(attempt)
    case TimedOut =>
      if attempt < MaxAttempts then
        Retried(Try(timeout, TimeoutBackoff(attempt)), FetchLinks(url, attempt + 1, respond, asWritten))
      else Fetched(Records([]), [Try(timeout, 0)])
    case RequestFailed => Fetched(Records([]), [Try(timeout, 0)])
    case Status(code, reason, hrefs) =>
      if code in RetryCodes then
        var backoff := if code == 408 then Backoff408(attempt) else if code == 429 then Backoff429(attempt) else 0;
        if (code == 408 || code == 429) && attempt < MaxAttempts then
          Retried(Try(timeout, backoff), FetchLinks(url, attempt + 1, respond, asWritten))
        else Fetched(CatchHttpError(ServerErrorText(code), code, asWritten), [Try(timeout, backoff)])
      else if 400 <= code < 600 then
        Fetched(CatchHttpError(HttpErrorText(code, reason, url), code, asWritten), [Try(timeout, 0)])
      else Fetched(Records(PageRecords(url, hrefs)), [Try(timeout, 0)])
  }

  /** `get_image_links` as written. */
  function GetImageLinksAsWritten(url: string, respond: nat -> Response): Fetched {
    FetchLinks(url, 1, respond, true)
  }

  /** `get_image_links` re-raising exactly for the listed status codes. */
  function GetImageLinks(url: string, respond: nat -> Response): Fetched {
    FetchLinks(url, 1, respond, false)
  }

  /** The backoff after a try follows the status it got: 408, 429, a timeout, or none. */
  lemma {:induction false} BackoffRule(url: string, attempt: nat, respond: nat -> Response, asWritten: bool)
    requires 1 <= attempt <= MaxAttempts
    ensures var t := FetchLinks(url, attempt, respond, asWritten).tries[0];
            t.backoff == match respond(attempt)
              case TimedOut => (if attempt < MaxAttempts then TimeoutBackoff(attempt) else 0)
              case RequestFailed => 0
              case Status(code, _, _) => (if code == 408 then Backoff408(attempt) else if code == 429 then Backoff429(attempt) else 0)
  {
  }

  /** A listed status always escapes the handler: its message names the code itself. */
  lemma ServerErrorMentionsCode(code: nat)
    requires code in RetryCodes
    ensures MentionsRetryCode(ServerErrorText(code))
  {
    var i :| 0 <= i < |RetryCodes| && RetryCodes[i] == code;
    var msg := ServerErrorText(code);
    assert OccursAt(msg, NatToString(code), |"Server Error ("|);
    ContainsIff(msg, NatToString(code));
  }

  /** With the status-code test, an `HTTPError` escapes only after a listed status. */
  lemma {:induction false} RaisesOnlyOnListedCode(url: string, attempt: nat, respond: nat -> Response)
    requires 1 <= attempt <= MaxAttempts
    requires forall a :: attempt <= a <= MaxAttempts && respond(a).Status? ==> respond(a).code !in RetryCodes
    ensures FetchLinks(url, attempt, respond, false).result.Records?
    decreases MaxAttempts - attempt
  {
    if respond(attempt).TimedOut? && attempt < MaxAttempts {
      RaisesOnlyOnListedCode(url, attempt + 1, respond);
    }
  }

  /** For a listed code both handlers re-raise the same error. */
  lemma CatchAgreesOnListedCode(code: nat)
    requires code in RetryCodes
    ensures CatchHttpError(ServerErrorText(code), code, true) == CatchHttpError(ServerErrorText(code), code, false)
  {
    ServerErrorMentionsCode(code);
  }

  /** After a timeout both handlers agree if they agree on the attempts that follow. */
  lemma TimeoutStepAgrees(url: string, attempt: nat, respond: nat -> Response)
    requires 1 <= attempt <= MaxAttempts && respond(attempt).TimedOut?
    requires attempt < MaxAttempts ==> FetchLinks(url, attempt + 1, respond, true) == FetchLinks(url, attempt + 1, respond, false)
    ensures FetchLinks(url, attempt, respond, true) == FetchLinks(url, attempt, respond, false)
  {
    var timeout := BaseTimeout * attempt;
    if attempt < MaxAttempts {
      var t := Try(timeout, TimeoutBackoff(attempt));
      assert FetchLinks(url, attempt, respond, true) == Retried(t, FetchLinks(url, attempt + 1, respond, true));
      assert FetchLinks(url, attempt, respond, false) == Retried(t, FetchLinks(url, attempt + 1, respond, false));
    } else {
      var f := Fetched(Records([]), [Try(timeout, 0)]);
      assert FetchLinks(url, attempt, respond, true) == f;
      assert FetchLinks(url, attempt, respond, false) == f;
    }
  }

  /** After any other request exception both handlers give up on the page alike. */
  lemma FailureStepAgrees(url: string, attempt: nat, respond: nat -> Response)
    requires 1 <= attempt <= MaxAttempts && respond(attempt).RequestFailed?
    ensures FetchLinks(url, attempt, respond, true) == FetchLinks(url, attempt, respond, false)
  {
    var f := Fetched(Records([]), [Try(BaseTimeout * attempt, 0)]);
    assert FetchLinks(url, attempt, respond, true) == f;
    assert FetchLinks(url, attempt, respond, false) == f;
  }

  /** After a status outside 400 to 599, or a listed one, both handlers agree if they agree on the attempts that follow. */
  lemma StatusStepAgrees(url: string, attempt: nat, respond: nat -> Response)
    requires 1 <= attempt <= MaxAttempts && respond(attempt).Status?
    requires 400 <= respond(attempt).code < 600 ==> respond(attempt).code in RetryCodes
    requires attempt < MaxAttempts ==> FetchLinks(url, attempt + 1, respond, true) == FetchLinks(url, attempt + 1, respond, false)
    ensures FetchLinks(url, attempt, respond, true) == FetchLinks(url, attempt, respond, false)
  {
    var timeout := BaseTimeout * attempt;
    var code, hrefs := respond(attempt).code, respond(attempt).hrefs;
    if code in RetryCodes {
      var backoff := if code == 408 then Backoff408(attempt) else if code == 429 then Backoff429(attempt) else 0;
      var t := Try(timeout, backoff);
      if (code == 408 || code == 429) && attempt < MaxAttempts {
        assert FetchLinks(url, attempt, respond, true) == Retried(t, FetchLinks(url, attempt + 1, respond, true));
        assert FetchLinks(url, attempt, respond, false) == Retried(t, FetchLinks(url, attempt + 1, respond, false));
      } else {
        CatchAgreesOnListedCode(code);
        var e := CatchHttpError(ServerErrorText(code), code, false);
        assert FetchLinks(url, attempt, respond, true) == Fetched(e, [t]);
        assert FetchLinks(url, attempt, respond, false) == Fetched(e, [t]);
      }
    } else {
      var f := Fetched(Records(PageRecords(url, hrefs)), [Try(timeout, 0)]);
      assert FetchLinks(url, attempt, respond, true) == f;
      assert FetchLinks(url, attempt, respond, false) == f;
    }
  }

  /** Both handlers agree whenever the response carries a listed code or a successful page. */
  lemma {:induction false} HandlersAgreeOnListedCodes(url: string, attempt: nat, respond: nat -> Response)
    requires 1 <= attempt <= MaxAttempts
    requires forall a :: attempt <= a <= MaxAttempts && respond(a).Status? && 400 <= respond(a).code < 600 ==>
               respond(a).code in RetryCodes
    ensures FetchLinks(url, attempt, respond, true) == FetchLinks(url, attempt, respond, false)
    decreases MaxAttempts - attempt
  {
    if attempt < MaxAttempts {
      HandlersAgreeOnListedCodes(url, attempt + 1, respond);
    }
    match respond(attempt)
    case TimedOut =>
      TimeoutStepAgrees(url, attempt, respond);
    case RequestFailed =>
      FailureStepAgrees(url, attempt, respond);
    case Status(_, _, _) =>
      StatusStepAgrees(url, attempt, respond);
  }

  /** The search URL of page 25 ends with its offset, 500. */
  lemma Page25EndsWith500()
    ensures EndsWith(PageUrl(25), "500")
  {
    assert NatToString(500) == "500" by {
      assert NatToString(5) == "5";
      assert NatToString(50) == NatToString(5) + "0";
    }
    assert PageUrl(25) == SearchUrlPrefix + "500";
    EndsWithPrepend(SearchUrlPrefix, "500", "500");
  }

  /** So every `HTTPError` message about page 25 mentions the listed code 500. */
  lemma Page25MessageMentions500(code: nat, reason: string)
    ensures MentionsRetryCode(HttpErrorText(code, reason, PageUrl(25)))
  {
    var msg := HttpErrorText(code, reason, PageUrl(25));
    var head := NatToString(code) + (if code < 500 then " Client Error: " else " Server Error: ") + reason + " for url: ";
    assert msg == head + PageUrl(25);
    Page25EndsWith500();
    EndsWithPrepend(head, PageUrl(25), "500");
    EndsWithContains(msg, "500");
    assert NatToString(RetryCodes[2]) == "500" by {
      assert NatToString(5) == "5";
      assert NatToString(50) == NatToString(5) + "0";
    }
  }

  /**
   * The handler as written re-raises a 404 on page 25, whose search URL
   * ends in offset 500, and so ends the crawl.
   */
  lemma AsWrittenReraisesNotFound(respond: nat -> Response)
    requires respond(1).Status? && respond(1).code == 404
    ensures GetImageLinksAsWritten(PageUrl(25), respond).result ==
              HttpErrorRaised(HttpErrorText(404, respond(1).reason, PageUrl(25)))
  {
    Page25MessageMentions500(404, respond(1).reason);
    AsWrittenReraisesMention(PageUrl(25), respond);
  }

  /** As written, a client error escapes whenever its message mentions a listed code. */
  lemma AsWrittenReraisesMention(url: string, respond: nat -> Response)
    requires respond(1).Status? && 400 <= respond(1).code < 600 && respond(1).code !in RetryCodes
    requires MentionsRetryCode(HttpErrorText(respond(1).code, respond(1).reason, url))
    ensures GetImageLinksAsWritten(url, respond).result ==
              HttpErrorRaised(HttpErrorText(respond(1).code, respond(1).reason, url))
  {
  }

  /** With the status-code test a 404 only skips the page, whatever its URL. */
  lemma NotFoundSkipsPage(url: string, respond: nat -> Response)
    requires respond(1).Status? && respond(1).code == 404
    ensures GetImageLinks(url, respond) == Fetched(Records([]), [Try(BaseTimeout, 0)])
  {
  }

  // ---------------------------------------------------------------------------
  // The licence formatter
  // ---------------------------------------------------------------------------

  /** `[a-zA-Z]` */
  predicate IsLetter(c: char) {
    'a' <= c <= 'z' || 'A' <= c <= 'Z'
  }

  /** `\d+\.\d+`: a run of digits, a dot, and digits to the end. */
  predicate IsVersion(s: string) {
    var whole := DigitRun(s);
    0 < |whole| < |s| && s[|whole|] == '.' && IsDigits(s[|whole| + 1..])
  }

  /** `[a-zA-Z]{2}` */
  predicate IsCountry(s: string) {
    |s| == 2 && IsLetter(s[0]) && IsLetter(s[1])
  }

  /** `[^/]+` */
  predicate IsLicenseType(s: string) {
    |s| > 0 && '/' !in s
  }

  const LicensesKey: string := "/licenses/"

  /** The part of an href the pattern `/licenses/T/V(/CC)?` covers. */
  function LicensePath(kind: string, version: string, country: Option<string>): string {
    var base := LicensesKey + kind + "/" + version;
    if country.Some? then base + "/" + country.value else base
  }

  /** `$` also matches before one final newline. */
  function DropFinalNewline(s: string): string {
    if |s| > 0 && s[|s| - 1] == '\n' then s[..|s| - 1] else s
  }

  /** The `/?` before the end. */
  function DropFinalSlash(s: string): string {
    if |s| > 0 && s[|s| - 1] == '/' then s[..|s| - 1] else s
  }

  /** When the part before a `/` ends with `t`, the whole ends with `t`, the `/` and the rest. */
  lemma EndsWithSegment(u: string, k: nat, t: string, last: string)
    requires k < |u| && u[k] == '/' && last == u[k + 1..] && EndsWith(u[..k], t)
    ensures EndsWith(u, t + "/" + last)
  {
    assert u == u[..k] + "/" + last by {
      assert u == u[..k] + [u[k]] + u[k + 1..];
    }
    EndsWithAppend(u[..k], t, "/");
    EndsWithAppend(u[..k] + "/", t + "/", last);
  }

  /** The licence type of a prefix that must end with `/licenses/<type>`. */
  function TypeAtEnd(w: string): (r: Option<string>)
    ensures r.Some? ==> IsLicenseType(r.value)
  {
    var kind := LastSegment(w, '/');
    var head := w[..|w| - |kind|];
    if IsLicenseType(kind) && EndsWith(head, LicensesKey) then Some(kind) else None
  }

  /** The type and version when `u` ends with `/licenses/<type>/<version>`. */
  function VersionAtEnd(u: string): (r: Option<(string, string)>)
    ensures r.Some? ==> IsLicenseType(r.value.0) && IsVersion(r.value.1)
  {
    var version := LastSegment(u, '/');
    if IsVersion(version) && |version| < |u| then
      match TypeAtEnd(u[..|u| - |version| - 1])
      case Some(kind) => Some((kind, version))
      case None => None
    else None
  }

  /** The type, version and country when `u` ends with `/licenses/<type>/<version>/<country>`. */
  function CountryAtEnd(u: string): (r: Option<(string, string, string)>)
    ensures r.Some? ==> IsLicenseType(r.value.0) && IsVersion(r.value.1) && IsCountry(r.value.2)
  {
    var country := LastSegment(u, '/');
    if IsCountry(country) && |country| < |u| then
      match VersionAtEnd(u[..|u| - |country| - 1])
      case Some((kind, version)) => Some((kind, version, country))
      case None => None
    else None
  }

  /**
   * The groups of `/licenses/([^/]+)/(\d+\.\d+)(?:/([a-zA-Z]{2}))?/?$`
   * searched in `href`: type, version and optional country.
   */
  function LicenseParts(href: string): (r: Option<(string, string, Option<string>)>)
    ensures r.Some? ==>
      && IsLicenseType(r.value.0) && IsVersion(r.value.1)
      && (r.value.2.Some? ==> IsCountry(r.value.2.value))
  {
    var u := DropFinalSlash(DropFinalNewline(href));
    match VersionAtEnd(u)
    case Some((kind, version)) => Some((kind, version, None))
    case None =>
      match CountryAtEnd(u)
      case Some((kind, version, country)) => Some((kind, version, Some(country)))
      case None => None
  }

  lemma TypeAtEndSound(w: string)
    ensures TypeAtEnd(w).Some? ==> EndsWith(w, LicensesKey + TypeAtEnd(w).value)
  {
    var kind := LastSegment(w, '/');
    var head := w[..|w| - |kind|];
    if TypeAtEnd(w).Some? {
      assert w == head + kind;
      EndsWithAppend(head, LicensesKey, kind);
    }
  }

  lemma VersionAtEndSound(u: string)
    ensures VersionAtEnd(u).Some? ==>
              EndsWith(u, LicensesKey + VersionAtEnd(u).value.0 + "/" + VersionAtEnd(u).value.1)
  {
    var version := LastSegment(u, '/');
    if VersionAtEnd(u).Some? {
      var k := |u| - |version| - 1;
      TypeAtEndSound(u[..k]);
      EndsWithSegment(u, k, LicensesKey + VersionAtEnd(u).value.0, version);
    }
  }

  lemma CountryAtEndSound(u: string)
    ensures var r := CountryAtEnd(u);
            r.Some? ==> EndsWith(u, LicensesKey + r.value.0 + "/" + r.value.1 + "/" + r.value.2)
  {
    var r := CountryAtEnd(u);
    if r.Some? {
      var country := LastSegment(u, '/');
      var k := |u| - |country| - 1;
      var w := u[..k];
      assert VersionAtEnd(w) == Some((r.value.0, r.value.1));
      VersionAtEndSound(w);
      var t := LicensesKey + r.value.0 + "/" + r.value.1;
      assert EndsWith(w, t);
      EndsWithSegment(u, k, t, country);
    }
  }

  /** What the formatter recognises is an href that ends (before `/?` and a newline) with the licence shape. */
  lemma LicensePartsSound(href: string)
    ensures var r := LicenseParts(href);
            r.Some? ==> EndsWith(DropFinalSlash(DropFinalNewline(href)), LicensePath(r.value.0, r.value.1, r.value.2))
  {
    var u := DropFinalSlash(DropFinalNewline(href));
    VersionAtEndSound(u);
    CountryAtEndSound(u);
  }

  /** The text `extract_license` reports for a licence. */
  function FormatLicense(kind: string, version: string, country: Option<string>): string {
    "CC " + Upper(kind) + " " + version + (if country.Some? then " " + Upper(country.value) else "")
  }

  /** `license_info` from the href of the licence link. */
  function LicenseFromHref(href: string): (r: string)
    ensures r == "Unknown" || "CC " <= r
  {
    match LicenseParts(href)
    case None => "Unknown"
    case Some((kind, version, country)) => FormatLicense(kind, version, country)
  }

  /** A version is digits around one dot. */
  lemma VersionChars(v: string)
    requires IsVersion(v)
    ensures |v| > 0 && forall j :: 0 <= j < |v| ==> IsDigit(v[j]) || v[j] == '.'
  {
    var n := |DigitRun(v)|;
    forall j | 0 <= j < |v| ensures IsDigit(v[j]) || v[j] == '.' {
      if j < n {
        assert v[j] == DigitRun(v)[j];
      } else if j > n {
        assert v[j] == v[n + 1..][j - n - 1];
      }
    }
  }

  /** A country code is never a version: it does not start with a digit. */
  lemma CountryIsNoVersion(cc: string)
    requires IsCountry(cc)
    ensures !IsVersion(cc)
  {
    assert DigitRun(cc) == [];
  }

  lemma TypeAtEndWhen(w: string, head: string, kind: string)
    requires w == head + LicensesKey + kind && IsLicenseType(kind)
    ensures TypeAtEnd(w) == Some(kind)
  {
    var h := head + LicensesKey[..9];
    assert w == h + ['/'] + kind;
    LastSegmentAfter(h, '/', kind);
    assert w[..|w| - |kind|] == head + LicensesKey;
  }

  lemma VersionAtEndWhen(u: string, w: string, kind: string, version: string)
    requires u == w + "/" + version && IsVersion(version) && TypeAtEnd(w) == Some(kind)
    ensures VersionAtEnd(u) == Some((kind, version))
  {
    VersionLastSegment(u, w, version);
    VersionAtEndOf(u, w, kind, version);
  }

  lemma VersionLastSegment(u: string, w: string, version: string)
    requires u == w + "/" + version && IsVersion(version)
    ensures LastSegment(u, '/') == version && |version| < |u| && u[..|u| - |version| - 1] == w
  {
    VersionHasNoSlash(version);
    assert u == w + ['/'] + version;
    LastSegmentAfter(w, '/', version);
    assert u[..|u| - |version| - 1] == w;
  }

  lemma VersionAtEndOf(u: string, w: string, kind: string, version: string)
    requires LastSegment(u, '/') == version && |version| < |u| && u[..|u| - |version| - 1] == w
    requires IsVersion(version) && TypeAtEnd(w) == Some(kind)
    ensures VersionAtEnd(u) == Some((kind, version))
  {
    var v := LastSegment(u, '/');
    assert IsVersion(v) && |v| < |u|;
    assert TypeAtEnd(u[..|u| - |v| - 1]) == TypeAtEnd(w);
  }

  lemma VersionHasNoSlash(v: string)
    requires IsVersion(v)
    ensures '/' !in v
  {
    VersionChars(v);
  }

  lemma CountryAtEndWhen(u: string, base: string, kind: string, version: string, cc: string)
    requires u == base + "/" + cc && IsCountry(cc) && VersionAtEnd(base) == Some((kind, version))
    ensures VersionAtEnd(u) == None && CountryAtEnd(u) == Some((kind, version, cc))
  {
    CountryLastSegment(u, base, cc);
    CountryIsNoVersion(cc);
    CountryAtEndOf(u, base, kind, version, cc);
  }

  lemma CountryAtEndOf(u: string, base: string, kind: string, version: string, cc: string)
    requires LastSegment(u, '/') == cc && |cc| < |u| && u[..|u| - |cc| - 1] == base
    requires IsCountry(cc) && !IsVersion(cc) && VersionAtEnd(base) == Some((kind, version))
    ensures VersionAtEnd(u) == None && CountryAtEnd(u) == Some((kind, version, cc))
  {
    var country := LastSegment(u, '/');
    assert IsCountry(country) && |country| < |u|;
    var w := u[..|u| - |country| - 1];
    assert w == base;
    assert VersionAtEnd(w) == VersionAtEnd(base);
  }

  lemma CountryLastSegment(u: string, base: string, cc: string)
    requires u == base + "/" + cc && IsCountry(cc)
    ensures LastSegment(u, '/') == cc && |cc| < |u| && u[..|u| - |cc| - 1] == base
  {
    CountryHasNoSlash(cc);
    assert u == base + ['/'] + cc;
    LastSegmentAfter(base, '/', cc);
    assert u[..|u| - |cc| - 1] == base;
  }

  lemma CountryHasNoSlash(cc: string)
    requires IsCountry(cc)
    ensures '/' !in cc
  {
  }

  /** Removing the optional `/` and newline that `/?$` allows gives back an href not ending in `/`. */
  lemma DropEndings(u: string, slash: bool, newline: bool)
    requires |u| > 0 && u[|u| - 1] != '/' && u[|u| - 1] != '\n'
    ensures DropFinalSlash(DropFinalNewline(u + (if slash then "/" else "") + (if newline then "\n" else ""))) == u
  {
    var v := u + (if slash then "/" else "");
    assert (v + (if newline then "\n" else ""))[..|v|] == v;
    assert v[..|u|] == u;
  }

  /** An href of the licence shape, after `prefix`, spelled out piece by piece. */
  lemma PrefixedPath(prefix: string, kind: string, version: string, country: Option<string>)
    ensures var base := prefix + LicensesKey + kind + "/" + version;
            prefix + LicensePath(kind, version, country) == if country.Some? then base + "/" + country.value else base
  {
    var p1 := LicensesKey + kind;
    var p2 := p1 + "/";
    var p3 := p2 + version;
    assert prefix + p2 == (prefix + p1) + "/";
    assert prefix + p3 == (prefix + p2) + version;
    if country.Some? {
      var p4 := p3 + "/";
      assert prefix + p4 == (prefix + p3) + "/";
      assert prefix + (p4 + country.value) == (prefix + p4) + country.value;
    }
  }

  /** The formatter recognises every href of the licence shape after any prefix. */
  lemma LicensePartsComplete(
    prefix: string, kind: string, version: string, country: Option<string>, slash: bool, newline: bool)
    requires IsLicenseType(kind) && IsVersion(version) && (country.Some? ==> IsCountry(country.value))
    ensures var href := prefix + LicensePath(kind, version, country) + (if slash then "/" else "") + (if newline then "\n" else "");
            LicenseParts(href) == Some((kind, version, country))
  {
    var base := prefix + LicensesKey + kind + "/" + version;
    PrefixedPath(prefix, kind, version, country);
    VersionBaseWhen(prefix, kind, version);
    match country
    case None =>
      DropEndings(base, slash, newline);
      LicensePartsVersion(base + (if slash then "/" else "") + (if newline then "\n" else ""), kind, version);
    case Some(cc) =>
      CountryHrefWhen(base, kind, version, cc, slash, newline);
  }

  /** The part up to the version is recognised as a version, and ends with a digit. */
  lemma VersionBaseWhen(prefix: string, kind: string, version: string)
    requires IsLicenseType(kind) && IsVersion(version)
    ensures var base := prefix + LicensesKey + kind + "/" + version;
      VersionAtEnd(base) == Some((kind, version)) && base[|base| - 1] != '/' && base[|base| - 1] != '\n'
  {
    var w := prefix + LicensesKey + kind;
    var base := w + "/" + version;
    TypeAtEndWhen(w, prefix, kind);
    VersionAtEndWhen(base, w, kind, version);
    VersionHasNoSlash(version);
    assert base[|base| - 1] == version[|version| - 1];
  }

  /** A country after the version is recognised, whatever endings follow. */
  lemma CountryHrefWhen(base: string, kind: string, version: string, cc: string, slash: bool, newline: bool)
    requires IsCountry(cc) && VersionAtEnd(base) == Some((kind, version))
    ensures LicenseParts(base + "/" + cc + (if slash then "/" else "") + (if newline then "\n" else ""))
            == Some((kind, version, Some(cc)))
  {
    var u := base + "/" + cc;
    assert u[|u| - 1] == cc[1];
    DropEndings(u, slash, newline);
    CountryAtEndWhen(u, base, kind, version, cc);
    LicensePartsCountry(u + (if slash then "/" else "") + (if newline then "\n" else ""), kind, version, cc);
  }

  lemma LicensePartsVersion(href: string, kind: string, version: string)
    requires VersionAtEnd(DropFinalSlash(DropFinalNewline(href))) == Some((kind, version))
    ensures LicenseParts(href) == Some((kind, version, None))
  {
  }

  lemma LicensePartsCountry(href: string, kind: string, version: string, cc: string)
    requires VersionAtEnd(DropFinalSlash(DropFinalNewline(href))) == None
    requires CountryAtEnd(DropFinalSlash(DropFinalNewline(href))) == Some((kind, version, cc))
    ensures LicenseParts(href) == Some((kind, version, Some(cc)))
  {
  }

  /** So the formatted licence of such an href is `CC TYPE VERSION[ COUNTRY]`, upper-cased. */
  lemma LicenseFromHrefFormats(prefix: string, kind: string, version: string, country: Option<string>)
    requires IsLicenseType(kind) && IsVersion(version) && (country.Some? ==> IsCountry(country.value))
    ensures LicenseFromHref(prefix + LicensePath(kind, version, country)) == FormatLicense(kind, version, country)
  {
    LicensePartsComplete(prefix, kind, version, country, false, false);
    assert prefix + LicensePath(kind, version, country) + "" + "" == prefix + LicensePath(kind, version, country);
  }

  // ---------------------------------------------------------------------------
  // `extract_license`
  // ---------------------------------------------------------------------------

  /**
   * The licence of a fetched photo page: None for a page without a
   * `cc_container` link, otherwise that link's href (empty when it has none).
   */
  function LicenseOfPage(ccHref: Option<string>): (r: string)
    ensures r != ""
  {
    match ccHref
    case None => "Unknown"
    case Some(href) => LicenseFromHref(href)
  }

  /** The licence found, and the seconds slept between failed attempts. */
  datatype LicenseLookup = LicenseLookup(license: Option<string>, sleeps: seq<nat>)

  /** `extract_license(url, attempt)`: each attempt is None when the request raises. */
  function ExtractLicense(attempt: nat, respond: nat -> Option<Option<string>>): (r: LicenseLookup)
    requires 1 <= attempt <= MaxAttempts
    decreases MaxAttempts - attempt
    ensures r.license.None? <==> forall a :: attempt <= a <= MaxAttempts ==> respond(a).None?
    ensures |r.sleeps| <= MaxAttempts - attempt
    ensures forall i :: 0 <= i < |r.sleeps| ==> r.sleeps[i] == BaseRateLimit * (attempt + i)
    ensures r.license.Some? ==> r.license.value != ""
  {
    match respond(attempt)
    case Some(ccHref) => LicenseLookup(Some(LicenseOfPage(ccHref)), [])
    case None =>
      if attempt < MaxAttempts then
        var rest := ExtractLicense(attempt + 1, respond);
        LicenseLookup(rest.license, [BaseRateLimit * attempt] + rest.sleeps)
      else LicenseLookup(None, [])
  }

  // ---------------------------------------------------------------------------
  // `crawl_licenses` and `save_license_counts`
  // ---------------------------------------------------------------------------

  /** The network as the licence crawl sees it. */
  datatype Oracles = Oracles(
    pages: string -> (nat -> Response),                  // attempts for a search URL
    licenses: string -> (nat -> Option<Option<string>>)) // attempts for a photo page

  /** The licence of one record, as `crawl_licenses` asks for it. */
  function RecordLicense(rec: LicenseRecord, o: Oracles): Option<string> {
    ExtractLicense(1, o.licenses(rec.pageUrl)).license
  }

  /** `get_image_links` for each page number, as the crawl calls it. */
  function PagesOf(o: Oracles): nat -> LinksResult {
    (n: nat) => GetImageLinks(PageUrl(n), o.pages(PageUrl(n))).result
  }

  function LicensesOf(o: Oracles): LicenseRecord -> Option<string> {
    (rec: LicenseRecord) => RecordLicense(rec, o)
  }

  /** `if license_type:` — a licence counts when it is there and not empty. */
  predicate Counted(license: Option<string>) {
    license.Some? && license.value != ""
  }

  /** The inner loop over a page's records: each counted licence adds one to its entry. */
  function CountRecords(counts: Dict<string, nat>, recs: seq<LicenseRecord>, license: LicenseRecord -> Option<string>): Dict<string, nat> {
    if |recs| == 0 then counts
    else
      var before := CountRecords(counts, recs[..|recs| - 1], license);
      var l := license(recs[|recs| - 1]);
      if Counted(l) then Increment(before, l.value) else before
  }

  /** The number of records whose licence counts. */
  function Licensed(recs: seq<LicenseRecord>, license: LicenseRecord -> Option<string>): nat {
    if |recs| == 0 then 0
    else Licensed(recs[..|recs| - 1], license) + (if Counted(license(recs[|recs| - 1])) then 1 else 0)
  }

  /** The counts after pages `start..p`, and whether an escaping `HTTPError` ended the crawl. */
  datatype Survey = Survey(counts: Dict<string, nat>, aborted: bool)

  function PageUrl(page: nat): string {
    SearchUrl(page * ImagesPerPage)
  }

  function CrawlUpTo(start: nat, p: nat, pages: nat -> LinksResult, license: LicenseRecord -> Option<string>): Survey
    requires start <= p
    decreases p - start
  {
    if p == start then Survey([], false)
    else
      var s := CrawlUpTo(start, p - 1, pages, license);
      if s.aborted then s
      else match pages(p - 1)
        case HttpErrorRaised(_) => Survey(s.counts, true)
        case Records(recs) => Survey(CountRecords(s.counts, recs, license), false)
  }

  /** The number of counted licences on the pages the crawl got through. */
  function CrawledLicenses(start: nat, p: nat, pages: nat -> LinksResult, license: LicenseRecord -> Option<string>): nat
    requires start <= p
    decreases p - start
  {
    if p == start then 0
    else
      var before := CrawledLicenses(start, p - 1, pages, license);
      if CrawlUpTo(start, p - 1, pages, license).aborted then before
      else match pages(p - 1)
        case HttpErrorRaised(_) => before
        case Records(recs) => before + Licensed(recs, license)
  }

  /** Each counted licence adds exactly one to its own entry, so the total is the number counted. */
  lemma {:induction false} CountRecordsTotal(counts: Dict<string, nat>, recs: seq<LicenseRecord>, license: LicenseRecord -> Option<string>)
    requires DistinctKeys(counts)
    ensures DistinctKeys(CountRecords(counts, recs, license))
    ensures Total(CountRecords(counts, recs, license)) == Total(counts) + Licensed(recs, license)
  {
    if |recs| > 0 {
      var before := CountRecords(counts, recs[..|recs| - 1], license);
      CountRecordsTotal(counts, recs[..|recs| - 1], license);
      var l := license(recs[|recs| - 1]);
      if Counted(l) {
        IncrementCounts(before, l.value, l.value);
      }
    }
  }

  /** One more record changes exactly its own licence's entry, by one. */
  lemma CountOneMore(counts: Dict<string, nat>, recs: seq<LicenseRecord>, rec: LicenseRecord,
                     license: LicenseRecord -> Option<string>, k: string)
    requires DistinctKeys(CountRecords(counts, recs, license))
    ensures var before := CountRecords(counts, recs, license);
            var after := CountRecords(counts, recs + [rec], license);
            Get(after, k).GetOr(0) == Get(before, k).GetOr(0) + (if license(rec) == Some(k) && k != "" then 1 else 0)
  {
    assert (recs + [rec])[..|recs|] == recs;
    var l := license(rec);
    if Counted(l) {
      IncrementCounts(CountRecords(counts, recs, license), l.value, k);
    }
  }

  /**
   * The counter dictionary keeps distinct keys through the whole crawl, and
   * its total is the number of counted licences on the pages crawled.
   */
  lemma {:induction false} CrawlTotal(start: nat, p: nat, pages: nat -> LinksResult, license: LicenseRecord -> Option<string>)
    requires start <= p
    ensures DistinctKeys(CrawlUpTo(start, p, pages, license).counts)
    ensures Total(CrawlUpTo(start, p, pages, license).counts) == CrawledLicenses(start, p, pages, license)
    decreases p - start
  {
    if p > start {
      CrawlTotal(start, p - 1, pages, license);
      var s := CrawlUpTo(start, p - 1, pages, license);
      if !s.aborted && pages(p - 1).Records? {
        CountRecordsTotal(s.counts, pages(p - 1).records, license);
      }
    }
  }

  /** Once aborted, later pages change nothing. */
  lemma {:induction false} CrawlStaysAborted(start: nat, p: nat, q: nat, pages: nat -> LinksResult, license: LicenseRecord -> Option<string>)
    requires start <= p <= q && CrawlUpTo(start, p, pages, license).aborted
    ensures CrawlUpTo(start, q, pages, license) == CrawlUpTo(start, p, pages, license)
    decreases q - p
  {
    if q > p {
      CrawlStaysAborted(start, p, q - 1, pages, license);
    }
  }

  /** `sorted(..., key=count, reverse=True)`: a stable insertion by descending count. */
  function InsertByCount(sorted: Dict<string, nat>, e: (string, nat)): (r: Dict<string, nat>)
    ensures |r| == |sorted| + 1
    ensures forall x :: x in r ==> x == e || x in sorted
  {
    if |sorted| == 0 then [e]
    else if sorted[|sorted| - 1].1 >= e.1 then sorted + [e]
    else
      var init, last := sorted[..|sorted| - 1], sorted[|sorted| - 1];
      assert forall x :: x in init ==> x in sorted;
      InsertByCount(init, e) + [last]
  }

  /** Inserting adds exactly the one entry. */
  lemma {:induction false} InsertPermutes(sorted: Dict<string, nat>, e: (string, nat))
    ensures multiset(InsertByCount(sorted, e)) == multiset(sorted) + multiset{e}
    decreases |sorted|
  {
    if |sorted| > 0 && sorted[|sorted| - 1].1 < e.1 {
      var init, last := sorted[..|sorted| - 1], sorted[|sorted| - 1];
      InsertPermutes(init, e);
      assert sorted == init + [last];
    }
  }

  predicate DescendingCounts(d: Dict<string, nat>) {
    forall i, j :: 0 <= i < j < |d| ==> d[i].1 >= d[j].1
  }

  function SortByCount(d: Dict<string, nat>): (r: Dict<string, nat>)
    ensures |r| == |d|
  {
    if |d| == 0 then [] else InsertByCount(SortByCount(d[..|d| - 1]), d[|d| - 1])
  }

  /** A descending list stays descending when an entry no larger than all of it goes at the end. */
  lemma AppendSmallest(r: Dict<string, nat>, last: (string, nat))
    requires DescendingCounts(r)
    requires forall x :: x in r ==> x.1 >= last.1
    ensures DescendingCounts(r + [last])
  {
    var r' := r + [last];
    forall i, j | 0 <= i < j < |r'| ensures r'[i].1 >= r'[j].1 {
      assert r'[i] == r[i];
      if j < |r| {
        assert r'[j] == r[j];
      } else {
        assert r[i] in r;
      }
    }
  }

  lemma {:induction false} InsertKeepsOrder(sorted: Dict<string, nat>, e: (string, nat))
    requires DescendingCounts(sorted)
    ensures DescendingCounts(InsertByCount(sorted, e))
    decreases |sorted|
  {
    if |sorted| == 0 {
    } else if sorted[|sorted| - 1].1 >= e.1 {
      forall x | x in sorted ensures x.1 >= e.1 {
        var i :| 0 <= i < |sorted| && sorted[i] == x;
        assert i == |sorted| - 1 || sorted[i].1 >= sorted[|sorted| - 1].1;
      }
      AppendSmallest(sorted, e);
    } else {
      var init, last := sorted[..|sorted| - 1], sorted[|sorted| - 1];
      InsertKeepsOrder(init, e);
      var r := InsertByCount(init, e);
      forall x | x in r ensures x.1 >= last.1 {
        if x != e {
          var i :| 0 <= i < |init| && init[i] == x;
          assert sorted[i] == x;
        }
      }
      AppendSmallest(r, last);
    }
  }

  /** The entries of a dictionary are those before its last one and the last one. */
  lemma MultisetSnoc(d: Dict<string, nat>)
    requires |d| > 0
    ensures multiset(d) == multiset(d[..|d| - 1]) + multiset{d[|d| - 1]}
  {
    assert d == d[..|d| - 1] + [d[|d| - 1]];
  }

  /** The saved list is in descending order of count and holds exactly the dictionary's entries. */
  lemma {:induction false} SortByCountSpec(d: Dict<string, nat>)
    ensures DescendingCounts(SortByCount(d))
    ensures multiset(SortByCount(d)) == multiset(d)
  {
    if |d| > 0 {
      var init, last := d[..|d| - 1], d[|d| - 1];
      var s := SortByCount(init);
      assert SortByCount(d) == InsertByCount(s, last);
      SortByCountSpec(init);
      InsertKeepsOrder(s, last);
      InsertPermutes(s, last);
      MultisetSnoc(d);
    }
  }

  /** `"-" * n` */
  function Dashes(n: nat): (r: string)
    ensures |r| == n && forall i :: 0 <= i < n ==> r[i] == '-'
  {
    seq(n, i => '-')
  }

  /** One line of the report. */
  function ReportLine(e: (string, nat)): string {
    e.0 + ": " + NatToString(e.1)
  }

  function ReportLines(sorted: Dict<string, nat>): (r: seq<string>)
    ensures |r| == |sorted| && forall i :: 0 <= i < |sorted| ==> r[i] == ReportLine(sorted[i])
  {
    if |sorted| == 0 then [] else ReportLines(sorted[..|sorted| - 1]) + [ReportLine(sorted[|sorted| - 1])]
  }

  /** The lines of `license_counts.txt`: a heading, fifty dashes, then one line per licence by descending count. */
  function Report(counts: Dict<string, nat>): (r: seq<string>)
    ensures |r| == |counts| + 2 && r[0] == "License Counts:" && r[1] == Dashes(50)
    ensures forall i :: 2 <= i < |r| ==> r[i] == ReportLine(SortByCount(counts)[i - 2])
  {
    var lines := ReportLines(SortByCount(counts));
    var r := ["License Counts:", Dashes(50)] + lines;
    assert forall i :: 2 <= i < |r| ==> r[i] == lines[i - 2];
    r
  }

  /** One page's records: the inner loop of `crawl_licenses`, asking `license` for each record. */
  method CountPage(counts: Dict<string, nat>, recs: seq<LicenseRecord>, license: LicenseRecord -> Option<string>)
    returns (counts': Dict<string, nat>)
    ensures counts' == CountRecords(counts, recs, license)
  {
    counts' := counts;
    var i := 0;
    while i < |recs|
      invariant 0 <= i <= |recs|
      invariant counts' == CountRecords(counts, recs[..i], license)
    {
      assert recs[..i + 1][..i] == recs[..i];
      var l := license(recs[i]);
      if l.Some? && l.value != "" {
        counts' := Set(counts', l.value, Get(counts', l.value).GetOr(0) + 1);
      }
      i := i + 1;
    }
    assert recs[..i] == recs;
  }

  /** The outer loop of `crawl_licenses` over pages `start..end`, stopping at an escaping `HTTPError`. */
  method CrawlPages(start: nat, end: nat, pages: nat -> LinksResult, license: LicenseRecord -> Option<string>)
    returns (counts: Dict<string, nat>, aborted: bool)
    requires start <= end
    ensures Survey(counts, aborted) == CrawlUpTo(start, end, pages, license)
  {
    counts, aborted := [], false;
    var page := start;
    while page < end && !aborted
      invariant start <= page <= end
      invariant Survey(counts, aborted) == CrawlUpTo(start, page, pages, license)
    {
      var result := pages(page);
      if result.HttpErrorRaised? {
        aborted := true;
      } else {
        counts := CountPage(counts, result.records, license);
      }
      page := page + 1;
    }
    if aborted {
      CrawlStaysAborted(start, page, end, pages, license);
    }
  }

  /**
   * `crawl_licenses(start_page, end_page)`: `get_image_links` for each
   * page and `extract_license` for each record; returns the counts, whether
   * an `HTTPError` ended the crawl, and the report saved at the end.
   */
  method CrawlLicenses(startPage: nat, endPage: Option<nat>, o: Oracles)
    returns (counts: Dict<string, nat>, aborted: bool, report: seq<string>)
    ensures var e := if endPage.GetOr(TotalPages) < startPage then startPage else endPage.GetOr(TotalPages);
            Survey(counts, aborted) == CrawlUpTo(startPage, e, PagesOf(o), LicensesOf(o))
    ensures report == Report(counts)
  {
    var end := endPage.GetOr(TotalPages);
    if end < startPage {
      end := startPage;
    }
    counts, aborted := CrawlPages(startPage, end, PagesOf(o), LicensesOf(o));
    report := Report(counts);
  }
}
