# indafoto_archive in Dafny

This project models the rule-bearing core of `indafoto_archive`. That repository crawls
the photo site indafoto.hu, stores image metadata in SQLite, pre-crawls search pages,
scrapes author details, submits pages to web archives, verifies and repairs downloads,
and synchronises the archive between machines. The project also proves properties of
that model.

The network, HTML parsing, the clock, randomness, hashing and the filesystem are left out
of the model. Each appears instead as a parameter: a fetched page is given as its links or
rows, a hash as a digest function, a directory listing as a set of paths. SQLite tables
become `map`s keyed by their natural key or their rowid, and a query's row order becomes
an explicit scan order. Every script that updates state step by step is a `class`. The
class's fields are the tables and files that script changes. Its methods are loops, each
proved against a function that specifies it.

Modules, one per source file plus six shared helper modules:

| module | file | models |
|---|---|---|
| `Wrappers`, `Text`, `Seqs`, `Dicts`, `Tables` | wrappers.dfy, text.dfy, seqs.dfy, dicts.dfy, tables.dfy | `Option`; Python string helpers (`split`, `strip`, `lower`, `int`, `str`); generic sequence functions; insertion-ordered dictionaries; map-based tables |
| `Percent` | percent.dfy | Python's `urllib.parse.unquote`: `%XY` escapes to bytes, bytes decoded as UTF-8 with U+FFFD for malformed input |
| `Indafoto` | indafoto.dfy | indafoto.py |
| `LicenseCrawler` | license_crawler.dfy | license_crawler.py |
| `AuthorDetails` | author_details.dfy | author_details_scraper.py |
| `AuthorCrawler` | author_crawler.dfy | author_crawler.py |
| `CacheUtils` | cache_utils.dfy | cache_utils.py |
| `ArchiveSubmitter` | archive_submitter.dfy | archive_submitter.py |
| `ReprocessMetadata` | reprocess_metadata.dfy | reprocess_metadata.py |
| `VerifyDownloads` | verify_downloads.dfy | verify_downloads.py |
| `SyncManager` | sync_manager.dfy | sync_manager.py |
| `ExportFiles` | export_files.dfy | export_files.py |
| `ImportFiles` | import_files.dfy | import_files.py |
| `AnalyzeSync` | analyze_sync.dfy | analyze_sync.py |
| `SyncIngest` | synced_images.dfy | sync/src/sync_manager.py |
| `OptimizeWorkers` | optimize_workers.dfy | optimize_workers.py |

## Model

| member | source | states |
|---|---|---|
| Indafoto.SearchUrl | indafoto.py:24 | the search URL is the fixed template followed by the decimal page number |
| Indafoto.DirName | indafoto.py:82 | the directory name has the author's length; each of `< > : " / \ \| ? *` becomes `_` and every other character is kept |
| Indafoto.DirNameOfSafe | indafoto.py:82 | a name without unsafe characters is its own directory name |
| Indafoto.DirNameIdempotent | indafoto.py:82 | sanitising twice is sanitising once |
| Indafoto.ImageDirectoryAsWritten | indafoto.py:79-93 | as written, the subdirectory is the author directory plus the number of regular files directly inside it, divided by 1000 |
| Indafoto.AsWrittenShardIsZero | indafoto.py:85-87 | when every download sits in a shard directory, the as-written shard number is always `0` |
| Indafoto.AsWrittenShardOverflows | indafoto.py:85-87 | with 1000 files already in shard 0, the as-written rule still puts the next file there, so shard 0 exceeds `FILES_PER_DIR` |
| Indafoto.ImageDirectory | indafoto.py:79-93 | the intended shard directory counts all of the author's files; it lies below the sanitised author directory |
| Indafoto.EmptyIsBalanced | indafoto.py:29 | an author without files has no shard over the 1000-file limit |
| Indafoto.AddToShard | indafoto.py:86-90 | a new file in shard `m` adds one to the author's total and to shard `m` only |
| Indafoto.ShardsStayBounded | indafoto.py:79-93 | with the intended count, adding a file to the chosen shard keeps every shard at 1000 files or fewer |
| Indafoto.OtherFileKeepsBalance | indafoto.py:82-90 | a file outside an author's directory leaves that author's shards unchanged |
| Indafoto.ParamValueShape | indafoto.py:126-134 | a parameter value runs from just after the first `name=` up to the next `&` or the end, and contains neither |
| Indafoto.ParseShareLink | indafoto.py:123-142 | a record exists iff the href has `source=` and `clickthru=` and the twice-unquoted source starts with `https://`; the page URL is the twice-unquoted clickthru value; the caption is `""` without `caption=` |
| Percent.CodePoint | indafoto.py:127 | a well-formed UTF-8 sequence of `n` bytes decodes to a Unicode scalar value that needs exactly `n` bytes, so overlong forms and surrogates can never be produced |
| Percent.ExactlyWellFormed | indafoto.py:127 | the UTF-8 encoding of a character outside ASCII is a well-formed sequence of its own length whose code is the character |
| Percent.DecodeChar | indafoto.py:127 | decoding reads back the character whose UTF-8 encoding comes first, and then carries on with the rest |
| Percent.DecodeEncode | indafoto.py:127 | UTF-8 decoding with replacement undoes UTF-8 encoding for every string |
| Percent.UnquoteEscaped | indafoto.py:127 | `unquote_to_bytes` turns a string of `%XY` escapes back into the bytes it escapes |
| Percent.UnquoteEncoded | indafoto.py:127 | `unquote` undoes percent-encoding of the UTF-8 bytes of any string, non-ASCII characters included |
| Percent.PlainUnquotedAsIs | indafoto.py:127 | the shortcut that returns a string without `%` as it is agrees with the general path through bytes and UTF-8 |
| Percent.PlainDecode | indafoto.py:127 | bytes below 0x80 decode to the characters with the same codes |
| Percent.UnquoteEscapedPercentsBytes | indafoto.py:127 | `unquote_to_bytes` of an ASCII string whose `%`s are written `%25` gives back the string's own codes |
| Percent.UnquoteEscapedPercents | indafoto.py:127 | one `unquote` undoes a second round of percent-encoding on any ASCII string that holds a `%` |
| Percent.UnquoteTwiceEncoded | indafoto.py:127 | `unquote(unquote(v))` on a value percent-encoded twice gives back the value, for every string |
| Percent.UnquoteDoublyEscapedLetter | indafoto.py:135 | the first `unquote` of the caption `%25C3%25A9` gives `%C3%A9` |
| Percent.UnquoteTwoByteLetter | indafoto.py:135 | the second `unquote` reads `%C3%A9` as the bytes C3 A9 and gives `é`, one character |
| Indafoto.LinkRecords | indafoto.py:120-146 | one link contributes at most one record, always with an `https://` image URL |
| Indafoto.ImageLinks | indafoto.py:114-149 | a page yields at most one record per link, each with an `https://` image URL |
| Indafoto.ImageLinksFrom | indafoto.py:120-142 | a record is found iff some link of the page contributes it |
| Indafoto.ParseLink | indafoto.py:121-146 | the loop body yields exactly the record the link contributes |
| Indafoto.GetImageLinks | indafoto.py:95-155 | a failed fetch gives `[]`; otherwise the records of the page's links, in link order |
| Indafoto.ExifDomain | indafoto.py:192-197 | a key is in the EXIF dictionary iff some row with exactly two cells has it |
| Indafoto.ExifLastWins | indafoto.py:197 | a key holds the value of the last two-cell row with that key |
| Indafoto.CollectExif | indafoto.py:189-197 | the EXIF loop builds exactly the specified dictionary |
| Indafoto.ContentOr | indafoto.py:220-221 | a missing or empty meta content falls back to the default, which is never empty |
| Indafoto.MetadataOf | indafoto.py:157-237 | an exception gives `None`; a non-OK response gives the fixed default record; title and description are never empty; with no EXIF table every camera field is `None` |
| Indafoto.ExtractMetadata | indafoto.py:157-237 | the method computes the specified metadata |
| Indafoto.DownloadPath | indafoto.py:243-246 | the saved path is the author's shard directory plus the text after the URL's last `/` |
| Indafoto.Download | indafoto.py:239-263 | an existing file is returned without a request; otherwise a complete fetch adds exactly that file and returns it, a request refused before `open` changes nothing and returns `None`, and a stream that breaks after `open` leaves the truncated file and returns `None` |
| Indafoto.DownloadSkipsExisting | indafoto.py:248-250 | when the file exists, the outcome does not depend on the fetch |
| Indafoto.BrokenDownloadIsKept | indafoto.py:248-263 | a download that breaks after `open` returns `None` and leaves the truncated file; unless that file completes a shard, the next download of the URL returns it as downloaded without a request |
| Indafoto.DownloadKeepsBalance | indafoto.py:239-263 | a download keeps every author's shards within 1000 files |
| Indafoto.CrawlStep | indafoto.py:277-314 | one listed image adds 1 to exactly one counter; a known URL is skipped and changes nothing else; a download inserts exactly one new row whose file exists; any other outcome leaves the rows alone and adds at most one file, and an error that adds one is a download broken after `open`, whose truncated file stays |
| Indafoto.CrawlRecordsCounts | indafoto.py:268-314 | every listed image is counted exactly once, as downloaded, skipped or error |
| Indafoto.CrawlRecordsRows | indafoto.py:297-312 | rows are only added, never changed, and each download adds exactly one |
| Indafoto.CrawlRecordsBalanced | indafoto.py:277-314 | with the intended shard count, the records of a page never overfill a shard |
| Indafoto.CrawlPagesBalanced | indafoto.py:272-317 | with the intended shard count, the whole crawl never overfills a shard |
| Indafoto.Crawler.DownloadImage | indafoto.py:239-263 | the method changes the files and returns the path exactly as specified, and leaves the rows alone |
| Indafoto.Crawler.HandleRecord | indafoto.py:277-314 | one turn of the inner loop performs the specified step on rows, files and counters |
| Indafoto.Crawler.CrawlRecordList | indafoto.py:277-314 | the inner loop performs the specified steps over the page's records, in order |
| Indafoto.Crawler.CrawlImages | indafoto.py:265-319 | the crawl over pages 1 to 15000 performs the specified steps from zero counters |
| LicenseCrawler.DigitRun | license_crawler.py:114 | `\d+` takes the longest run of digits at the start |
| LicenseCrawler.OffsetMatchFrom | license_crawler.py:114-137 | the search finds the leftmost `page_offset=<digits>` at or after the start position, or reports that there is none |
| LicenseCrawler.PageOffset | license_crawler.py:113-138 | there is no offset exactly when the URL has no `page_offset=<digits>` anywhere |
| LicenseCrawler.CatchHttpError | license_crawler.py:155-160 | the handler re-raises with the same message; corrected, it re-raises iff the status is one of the nine listed codes; as written, iff the message mentions one of them |
| LicenseCrawler.LinkRecords | license_crawler.py:119-150 | a link gives at most one record, whose `next_page` flag is true iff the photo URL's offset, defaulting to the current page, equals the current page plus 1 |
| LicenseCrawler.FetchLinks | license_crawler.py:45-183 | at most 3 tries from the given attempt; try `i` uses timeout `60·(attempt+i)`; no backoff exceeds 600 seconds |
| LicenseCrawler.BackoffRule | license_crawler.py:78-87 | the backoff is `min(20·attempt, 300)` after a 408, `min(60·attempt, 600)` after a 429, `30·attempt` after a timeout that is retried, and 0 otherwise |
| LicenseCrawler.ServerErrorMentionsCode | license_crawler.py:97 | the `Server Error (<code>)` raised for a listed code always escapes the handler |
| LicenseCrawler.RaisesOnlyOnListedCode | license_crawler.py:65-99 | with the status-code test, no listed status in the remaining attempts means the page yields records, never an escaping error |
| LicenseCrawler.HandlersAgreeOnListedCodes | license_crawler.py:155-160 | when every error status is a listed code, the as-written and corrected handlers behave the same |
| LicenseCrawler.Page25EndsWith500 | license_crawler.py:237-238 | the search URL of page 25 ends with its offset `500` |
| LicenseCrawler.Page25MessageMentions500 | license_crawler.py:237-238 | every HTTP error message about page 25 mentions the listed code 500 |
| LicenseCrawler.AsWrittenReraisesNotFound | license_crawler.py:155-158 | as written, a 404 on page 25 escapes `get_image_links` instead of skipping the page |
| LicenseCrawler.AsWrittenReraisesMention | license_crawler.py:155-158 | as written, any unlisted client or server error escapes when its message mentions a listed code |
| LicenseCrawler.NotFoundSkipsPage | license_crawler.py:155-160 | corrected, a 404 makes one try and gives `[]`, whatever the URL |
| LicenseCrawler.TypeAtEnd | license_crawler.py:203 | a recognised type is a non-empty `[^/]+` group right after `/licenses/` |
| LicenseCrawler.VersionAtEnd | license_crawler.py:203 | a recognised version is `\d+\.\d+` after a recognised type |
| LicenseCrawler.CountryAtEnd | license_crawler.py:203 | a recognised country is two ASCII letters after a recognised version |
| LicenseCrawler.LicenseParts | license_crawler.py:203-205 | the groups found are a type, a version and an optional country of the required shapes |
| LicenseCrawler.TypeAtEndSound | license_crawler.py:203 | a recognised type really ends the text, after `/licenses/` |
| LicenseCrawler.VersionAtEndSound | license_crawler.py:203 | a recognised type and version really end the text as `/licenses/<type>/<version>` |
| LicenseCrawler.CountryAtEndSound | license_crawler.py:203 | a recognised triple really ends the text as `/licenses/<type>/<version>/<country>` |
| LicenseCrawler.LicensePartsSound | license_crawler.py:203 | whatever the formatter recognises ends, before an optional `/` and newline, with the licence path it reports |
| LicenseCrawler.LicenseFromHref | license_crawler.py:196-209 | the licence is `"Unknown"` or starts with `"CC "` |
| LicenseCrawler.VersionChars | license_crawler.py:203 | a version is non-empty and made of digits and a dot |
| LicenseCrawler.CountryIsNoVersion | license_crawler.py:203 | a two-letter country cannot be read as a version |
| LicenseCrawler.TypeAtEndWhen | license_crawler.py:203 | a text ending `/licenses/<type>` is recognised with that type |
| LicenseCrawler.VersionAtEndWhen | license_crawler.py:203 | a recognised type followed by `/<version>` is recognised with that version |
| LicenseCrawler.CountryAtEndWhen | license_crawler.py:203 | a version followed by `/<country>` is recognised with the country, and not as a version |
| LicenseCrawler.DropEndings | license_crawler.py:203 | the optional trailing `/` and final newline that `/?$` allows are removed exactly |
| LicenseCrawler.LicensePartsComplete | license_crawler.py:203-205 | every href of the licence shape, after any prefix and with an optional `/` and newline, is recognised with its own groups |
| LicenseCrawler.LicenseFromHrefFormats | license_crawler.py:205-209 | such an href formats as `CC <TYPE> <version>`, plus ` <COUNTRY>` when present, with ASCII letters upper-cased |
| LicenseCrawler.LicenseOfPage | license_crawler.py:196-211 | a fetched page always yields a non-empty licence, `"Unknown"` when it has no licence link |
| LicenseCrawler.ExtractLicense | license_crawler.py:185-217 | the result is `None` iff every remaining attempt raised; the sleeps between attempts are `1·attempt`, at most one per remaining retry; a licence is never empty |
| LicenseCrawler.CountRecordsTotal | license_crawler.py:246-250 | counting keeps the keys distinct and raises the total by the number of records with a licence |
| LicenseCrawler.CountOneMore | license_crawler.py:249-250 | one more record adds 1 to its own licence's count and changes no other count |
| LicenseCrawler.CrawlTotal | license_crawler.py:236-250 | through the whole crawl the keys stay distinct and the total is the number of licences found |
| LicenseCrawler.CrawlStaysAborted | license_crawler.py:235-265 | after an escaping error ends the crawl, later pages change nothing |
| LicenseCrawler.InsertByCount | license_crawler.py:224 | inserting by count lengthens the list by one and brings in no entry but the new one |
| LicenseCrawler.InsertPermutes | license_crawler.py:224 | inserting by count adds exactly the one entry: the result is a permutation of the old list plus it |
| LicenseCrawler.SortByCount | license_crawler.py:224 | sorting keeps the number of entries |
| LicenseCrawler.InsertKeepsOrder | license_crawler.py:224 | inserting into a list in descending count order keeps it descending |
| LicenseCrawler.SortByCountSpec | license_crawler.py:224 | the saved order is descending by count and a permutation of the dictionary's entries |
| LicenseCrawler.Dashes | license_crawler.py:223 | `"-" * n` is `n` dashes |
| LicenseCrawler.ReportLines | license_crawler.py:224-225 | one `<licence>: <count>` line per sorted entry |
| LicenseCrawler.Report | license_crawler.py:219-225 | the file is the heading, 50 dashes, then one line per licence in descending count order |
| LicenseCrawler.CountPage | license_crawler.py:246-253 | the inner loop computes the specified counts |
| LicenseCrawler.CrawlPages | license_crawler.py:236-262 | the page loop computes the specified counts and whether an error ended it |
| LicenseCrawler.CrawlLicenses | license_crawler.py:227-273 | pages from the start to the end page (default 14267), at offset `20·page`, give the specified counts, and the report is the file those counts produce |
| AuthorDetails.PaddedValue | author_details_scraper.py:112 | `zfill(2)` of at most two digits gives two digits with the same value |
| AuthorDetails.IsoDateShape | author_details_scraper.py:107-112 | a valid date formats as `YYYY-MM-DD`: the year, then month and day zero-padded to two digits |
| AuthorDetails.ParseHungarianDate | author_details_scraper.py:90-116 | `None` and `""` give `None`; any result is an ISO `YYYY-MM-DD` date |
| AuthorDetails.SplitDottedTail | author_details_scraper.py:100 | splitting on `.` gives back the dot-free fields that were joined |
| AuthorDetails.DottedTailEnd | author_details_scraper.py:97 | a date built from digit fields ends with a digit, so `rstrip('.')` stops there |
| AuthorDetails.SplitTwo | author_details_scraper.py:100 | splitting on `.` peels off two leading dot-free fields |
| AuthorDetails.CoreFields | author_details_scraper.py:100-104 | the year, month, day and extra fields come back from `split('.')` in order |
| AuthorDetails.CoreEnds | author_details_scraper.py:97 | a date core starts and ends with a digit |
| AuthorDetails.TrimDate | author_details_scraper.py:97 | `strip()` then `rstrip('.')` removes exactly the trailing dots |
| AuthorDetails.DateFieldsOf | author_details_scraper.py:97-100 | the fields of `YYYY.MM.DD[.extra…]` plus trailing dots are the parts written |
| AuthorDetails.DigitsStripped | author_details_scraper.py:102-104 | stripping digits changes nothing |
| AuthorDetails.ParseStrippedFields | author_details_scraper.py:101-116 | with three stripped fields, the result is the ISO date iff the range checks pass, else `None` |
| AuthorDetails.ParseDigitFields | author_details_scraper.py:101-116 | with three digit fields, the result is the ISO date iff the range checks pass, else `None` |
| AuthorDetails.DateComplete | author_details_scraper.py:97-112 | every valid `YYYY.M.D`, with any digit fields after the third (ignored) and any trailing dots, parses to its ISO date; there is no calendar check |
| AuthorDetails.DateRejects | author_details_scraper.py:107-116 | digit fields that fail a length or range check give `None` |
| AuthorDetails.DateRoundTrip | author_details_scraper.py:90-116 | re-parsing a parsed date written back as `YYYY.MM.DD` gives the same ISO date |
| AuthorDetails.DropDbUnit | author_details_scraper.py:196 | `replace('db', '')` on `<digits> db` leaves the digits and a space |
| AuthorDetails.CountOfDigits | author_details_scraper.py:193-197 | `<digits> db` parses to the value of the digits |
| AuthorDetails.CountWithoutDigits | author_details_scraper.py:194-199 | a text without digits leaves the count `None` |
| AuthorDetails.ReadTagWeight | author_details_scraper.py:233-240 | the class loop computes the specified weight: the first `tag-<int>` class |
| AuthorDetails.ExtractTagCloud | author_details_scraper.py:218-247 | the tag loop computes the specified cloud |
| AuthorDetails.TagCloudSpec | author_details_scraper.py:225-246 | a tag is in the cloud iff some link with a `tag-` class has non-empty text and gives that name, URL (default `""`) and weight; names are never empty and the cloud is no longer than the links |
| AuthorDetails.FindRow | author_details_scraper.py:148-153 | the row found is the first row whose non-empty header contains the text; when none is found, no row's non-empty header contains it |
| AuthorDetails.ExtractAuthorDetails | author_details_scraper.py:118-275 | details exist iff the page was fetched, has the properties table, and the URL has a slug; the slug is the URL's second-to-last segment; a registration date is an ISO date |
| AuthorDetails.DetailsUrlSlug | author_details_scraper.py:288-291 | the slug of `<author_url>/details` is the author URL's last segment |
| AuthorDetails.FailedRow | author_details_scraper.py:338-378 | a failure records the error and time, and sets the retry count to 1 on a new row or one more than before |
| AuthorDetails.ProcessAuthorFrame | author_details_scraper.py:277-378 | with no author URL nothing is written and the result is false; otherwise exactly that author's row is written and every other row is unchanged |
| AuthorDetails.ProcessAuthorSuccess | author_details_scraper.py:294-334 | the author counts as processed iff the URL is set, the details were extracted and the write succeeded; the row then has no error, retry count 0, the details URL, the slug and the time |
| AuthorDetails.ProcessAuthorFailure | author_details_scraper.py:336-381 | on failure the row holds `Failed to extract details` or the exception's text, with the retry count 1 or one more than before |
| AuthorDetails.AsWrittenIgnoresRetryLimit | author_details_scraper.py:415-417 | an author with an error and at least 3 retries is selected as written, but not by the intended filter |
| AuthorDetails.RankLeTotal | author_details_scraper.py:418 | the ordering by retry count and last update is total |
| AuthorDetails.RankLeTrans | author_details_scraper.py:418 | the ordering is transitive |
| AuthorDetails.ByRankIsPreorder | author_details_scraper.py:418 | `ORDER BY COALESCE(retry_count, 0), COALESCE(last_updated, '1970-01-01')` is a total preorder |
| AuthorDetails.RankedMembers | author_details_scraper.py:392-418 | the ranked candidates are exactly the wanted distinct `(author, url)` pairs, each once, in rank order |
| AuthorDetails.AuthorsToProcessSpec | author_details_scraper.py:383-422 | at most 100 distinct pairs in rank order, all wanted; a wanted pair is left out only when 100 pairs ranked no lower were chosen |
| AuthorDetails.ExhaustedAuthorPicked | author_details_scraper.py:415-419 | an author with an error and at least 3 retries is picked again as written, and not by the intended query |
| AuthorCrawler.AuthorSlug | author_crawler.py:112 | the slug has no `/` and ends the href once its trailing slashes are removed |
| AuthorCrawler.SlugOfProfile | author_crawler.py:112 | the slug of `<base>/<slug>` followed by any number of `/` is that slug |
| AuthorCrawler.SlugAgreesWithDetails | author_crawler.py:112 | the crawler's slug of an author URL equals the slug the details scraper reads from `<url>/details` |
| AuthorCrawler.ExtractAuthors | author_crawler.py:101-120 | the link loop computes the specified author records |
| AuthorCrawler.AuthorsOfSpec | author_crawler.py:104-117 | a record exists iff some link has a non-empty href and non-empty text, and holds that text, its slug and the href; there are no more records than links |
| AuthorCrawler.UpsertAllSnoc | author_crawler.py:144-163 | upserting one more author upserts it onto the table built so far |
| AuthorCrawler.LastFound | author_crawler.py:144-163 | the last record of an author on a page is found iff the page lists that author |
| AuthorCrawler.UpsertAllSpec | author_crawler.py:142-167 | after a page, each author it lists holds a fresh row from its last record (`processed=0`, no error, retry count 0, this page, this time), and every other row is unchanged |
| AuthorCrawler.PagesToProcessSpec | author_crawler.py:207-216 | at most 100 pages, strictly ascending, all pending; a pending page is left out only when 100 lower pages were chosen |
| AuthorCrawler.PendingMeansWork | author_crawler.py:207-216 | one pending row is enough for a non-empty selection |
| AuthorCrawler.Range | author_crawler.py:268 | `range(a, b)` lists `a` up to `b-1` |
| AuthorCrawler.NextBatch | author_crawler.py:262-270 | a new batch has at most 100 pages, each between the start and the inclusive end page |
| AuthorCrawler.UpsertKeepsPending | author_crawler.py:148-156 | an upsert keeps a pending row pending, since it writes `processed=0` |
| AuthorCrawler.BatchKeepsTable | author_crawler.py:142-167 | processing a batch keeps one row per author |
| AuthorCrawler.ProductiveBatchLeavesWork | author_crawler.py:142-167 | once any page of a batch yields an author, the table has pending work |
| AuthorCrawler.WorkHasPendingKey | author_crawler.py:207-216 | a non-empty selection comes from some pending row |
| AuthorCrawler.AuthorCrawl.ProcessPage | author_crawler.py:129-171 | the result is true iff the page yielded authors, and the table becomes the specified upsert of them |
| AuthorCrawler.AuthorCrawl.Round | author_crawler.py:257-295 | a round stops iff nothing is pending and the start page has reached the end; otherwise it queues the specified batch, advances the start by 100 when it queued one, and applies the batch's upserts |
| AuthorCrawler.RoundStalls | author_crawler.py:260-270 | after a productive batch, pending pages make every later round queue nothing and change nothing, so the loop never ends |
| AuthorCrawler.AuthorCrawl.SpawnWorkers | author_crawler.py:273-277 | workers are started only while fewer than 10 run and the queue is not empty |
| CacheUtils.LastSuccessfulPage | cache_utils.py:62-76 | the highest completed page with images, or 0 when there is none |
| CacheUtils.LastPreCrawledPage | cache_utils.py:78-92 | the highest page pre-crawled with status `success`, or 0 when there is none |
| CacheUtils.PreCrawlRangeGet | cache_utils.py:171-215 | after pre-crawling `[start, start+n)`, each page in the range that was not skipped is marked with its link count and time, and every other page keeps its mark |
| CacheUtils.PlanRound | cache_utils.py:366-405 | a crawl starts at least 10 pages past the last page and ends by the last page plus 20; it covers at most `num_pages` pages, and at least one when `num_pages > 0`; it starts after the last pre-crawled page when that lies further ahead; being 20 or more pages ahead means waiting |
| CacheUtils.PlanWaitsIff | cache_utils.py:377-400 | the round waits iff something was pre-crawled and it lies 20 or more pages ahead, so the `next_page > max_page` wait never fires; a crawl covers `min(num_pages, max_page - next_page + 1)` pages |
| CacheUtils.CleanupSpec | cache_utils.py:251-288 | cleanup removes exactly the pre-crawled pages that are completed, more than 20 pages behind, or marked `no_images` or `error` |
| CacheUtils.CleanupLeavesPending | cache_utils.py:251-259 | a page kept after cleanup was a `success` page, not completed, and not more than 20 pages behind |
| CacheUtils.CleanupRemovesSearchPage | cache_utils.py:263-281 | the search page of every removed page is among the URLs passed to `remove_from_cache` |
| CacheUtils.PreCrawler.PreCrawlPages | cache_utils.py:153-223 | without a start page, pre-crawling starts at the last successful page plus 10 and marks the range as specified |
| CacheUtils.PreCrawler.PreCrawlFrom | cache_utils.py:171-218 | the page loop marks the range as specified |
| CacheUtils.PreCrawler.CleanupPreCrawled | cache_utils.py:236-294 | the selected pages leave the table, and the URLs passed to `remove_from_cache` are their search pages and their images' pages and files |
| CacheUtils.PreCrawler.CleanupCompleted | cache_utils.py:296-354 | the URLs passed to `remove_from_cache` are those of the completed pages with images, of every downloaded image, and of the pages cleanup selects, and the selected pages leave the table |
| CacheUtils.PreCrawler.Round | cache_utils.py:366-420 | one round follows the specified plan: on a wait nothing changes, otherwise the range is pre-crawled and then cleaned up |
| Tables.Lookup | cache_utils.py:180-187 | a row is found iff its key is in the table, and it is that key's row |
| Tables.Max | cache_utils.py:69 | `MAX` of a non-empty set is its largest member |
| Tables.MaxOrZero | cache_utils.py:73-74 | `MAX` over no rows is `NULL`, read as 0 |
| ArchiveSubmitter.TimestampRoundTrip | archive_submitter.py:47-48 | a valid date and time written as a 14-digit CDX timestamp `%Y%m%d%H%M%S` parses back to itself |
| ArchiveSubmitter.TimestampUnique | archive_submitter.py:48 | a timestamp that parses is the only spelling of its date and time |
| ArchiveSubmitter.WeekdayNumber | archive_submitter.py:68 | `%a` accepts exactly the seven English weekday abbreviations |
| ArchiveSubmitter.MonthNumber | archive_submitter.py:68 | `%b` accepts exactly the twelve English month abbreviations, numbered 1 to 12 |
| ArchiveSubmitter.ClockRoundTrip | archive_submitter.py:68 | `%H:%M:%S` written and parsed gives back the time |
| ArchiveSubmitter.ClockUnique | archive_submitter.py:68 | a time that parses is the only spelling of that time |
| ArchiveSubmitter.DayRoundTrip | archive_submitter.py:68 | `%a, %d %b %Y` written and parsed gives back the date |
| ArchiveSubmitter.WeekdaysDistinct | archive_submitter.py:68 | each weekday name reads as its own number |
| ArchiveSubmitter.MonthsDistinct | archive_submitter.py:68 | each month name reads as its own number |
| ArchiveSubmitter.DayUnique | archive_submitter.py:68 | a date that parses is a `%a, %d %b %Y` spelling of it, for some weekday |
| ArchiveSubmitter.Rfc1123RoundTrip | archive_submitter.py:68 | an RFC 1123 date (section 5.2.14 of RFC 1123) `%a, %d %b %Y %H:%M:%S GMT` parses back to its date and time |
| ArchiveSubmitter.Rfc1123Unique | archive_submitter.py:68 | an RFC 1123 date that parses is a spelling of its date and time |
| ArchiveSubmitter.GroupAtIff | archive_submitter.py:66 | `datetime="([^"]+)"` matches at position `i` with group `g` iff `g` is non-empty, has no `"`, and `datetime="g"` occurs there |
| ArchiveSubmitter.SearchFromIff | archive_submitter.py:66 | `re.search` finds the leftmost match at or after the start |
| ArchiveSubmitter.CheckArchiveOrg | archive_submitter.py:38-55 | the page counts as archived exactly when a snapshot URL is returned |
| ArchiveSubmitter.OrgAccepts | archive_submitter.py:45-52 | with more than one CDX row, the last row's timestamp decides: before 2024-07-01 means not archived, and otherwise the URL is `https://web.archive.org/web/<timestamp>/<url>` |
| ArchiveSubmitter.OrgAcceptedShape | archive_submitter.py:43-51 | an archived answer came from a reply with more than one row whose last timestamp is a valid date on or after 2024-07-01 |
| ArchiveSubmitter.Lines | archive_submitter.py:63 | `split('\n')` always gives at least one line |
| ArchiveSubmitter.CheckArchivePh | archive_submitter.py:57-75 | the page counts as archived exactly when a URL is returned, and the URL is `https://archive.ph/<url>` |
| ArchiveSubmitter.PhAccepts | archive_submitter.py:63-71 | with more than one TimeMap line (the Memento format of section 5 of RFC 7089), the last line's datetime decides: archived iff it is on or after 2024-07-01 |
| ArchiveSubmitter.PhAcceptedDate | archive_submitter.py:64-70 | an archived answer has more than one line whose last line has a parseable datetime on or after the cutoff |
| ArchiveSubmitter.PhAcceptedShape | archive_submitter.py:63-71 | an archived answer's last line carries an RFC 1123 date on or after the cutoff |
| ArchiveSubmitter.Upsert | archive_submitter.py:234-248 | a new URL gets a row with the status and archive URL, retry count 0 and the current time; an existing row gets the new status and keeps its archive URL when the new one is `None`, and keeps its retry count and submission date; no other row changes |
| ArchiveSubmitter.Bump | archive_submitter.py:220-227 | a failed verification adds 1 to the retry count and sets `failed` iff the count before was at least 2, else `pending`; no other row changes |
| ArchiveSubmitter.VerifyOne | archive_submitter.py:209-229 | verifying a URL changes only that URL's row |
| ArchiveSubmitter.VerifySucceeds | archive_submitter.py:214-217 | when either archive has the page, the row becomes `success` with the archive.org URL if there is one, else the archive.ph URL |
| ArchiveSubmitter.VerifyRetries | archive_submitter.py:218-227 | when neither archive has the page, the retry count goes up by 1, and the status is `failed` iff the old count was at least 2 |
| ArchiveSubmitter.ThirdFailureFails | archive_submitter.py:220-239 | a fresh submission stays `pending` through two failed verifications and is `failed`, with 3 retries, after the third |
| ArchiveSubmitter.VerifyRows | archive_submitter.py:209-229 | verifying rows keeps the set of URLs |
| ArchiveSubmitter.VerifyOneLocal | archive_submitter.py:209-227 | verifying a row depends only on that row |
| ArchiveSubmitter.VerifyRowsStep | archive_submitter.py:209-229 | verifying one more URL updates just that row |
| ArchiveSubmitter.VerifyPending | archive_submitter.py:198-232 | only rows that are `pending` and at least 5 minutes old are verified; all others are unchanged |
| ArchiveSubmitter.UpsertKeepsFailedRetried | archive_submitter.py:234-244 | writing a non-`failed` status keeps every `failed` row at 3 retries or more |
| ArchiveSubmitter.VerifyKeepsFailedRetried | archive_submitter.py:220-226 | verification keeps every `failed` row at 3 retries or more |
| ArchiveSubmitter.VerifyPendingKeepsFailedRetried | archive_submitter.py:198-232 | so does a whole verification pass |
| ArchiveSubmitter.EligibleOnlyWithoutRow | archive_submitter.py:108 | while every `failed` row has 3 or more retries, `a.id IS NULL OR (failed AND retry_count < 3)` holds exactly for URLs without a row, and the sampling filter also admits `failed` rows |
| ArchiveSubmitter.Requested | archive_submitter.py:164-176 | pages are requested iff fewer than `int(total·0.005)` are archived, and then exactly enough to reach that target |
| ArchiveSubmitter.SubmitPage | archive_submitter.py:115-129 | without a successful submission nothing changes; with one the URL's row becomes `pending`, a new row starts at retry count 0, and an old row keeps its count, archive URL and date |
| ArchiveSubmitter.SubmitAllAppend | archive_submitter.py:114-146 | submitting two lists in turn is submitting their concatenation |
| ArchiveSubmitter.SubmitAllRecords | archive_submitter.py:114-146 | every successfully submitted URL ends `pending`; every other URL is unchanged; no row appears for a URL that was not listed |
| ArchiveSubmitter.SubmitAllKeepsFailedRetried | archive_submitter.py:114-146 | submitting keeps every `failed` row at 3 retries or more |
| ArchiveSubmitter.PendingAuthorsIff | archive_submitter.py:103-111 | the author URLs selected are distinct, and are exactly the eligible author URLs of some image |
| ArchiveSubmitter.MarkedRowsIff | archive_submitter.py:254-262 | the distinct `(page_url, author_url)` pairs of marked images whose page is eligible |
| ArchiveSubmitter.ArchivedAtMostTotal | archive_submitter.py:155-164 | an author's archived count never exceeds their image count |
| ArchiveSubmitter.ShuffledPrefix | archive_submitter.py:174-175 | `ORDER BY RANDOM() LIMIT n` gives `min(n, count)` rows drawn from the candidates |
| ArchiveSubmitter.FavouritePagesBound | archive_submitter.py:318-396 | at most 60 pages; none when no favourite has an unarchived image; each page is eligible and belongs to a favourite author with unarchived images |
| ArchiveSubmitter.SampledPagesBound | archive_submitter.py:163-178 | exactly `min(candidates, target - archived)` pages, none once the target is reached, each an image of that author that is unsubmitted or `failed` |
| ArchiveSubmitter.SampleAllKeepsFailedRetried | archive_submitter.py:151-196 | sampling keeps every `failed` row at 3 retries or more |
| ArchiveSubmitter.CycleKeepsFailedRetried | archive_submitter.py:398-424 | a whole cycle keeps every `failed` row at 3 retries or more |
| ArchiveSubmitter.Submitter.UpdateSubmissionStatus | archive_submitter.py:234-248 | the table becomes the specified upsert |
| ArchiveSubmitter.Submitter.SubmitEach | archive_submitter.py:114-146 | the loop submits the URLs in order, as specified |
| ArchiveSubmitter.Submitter.SubmitRows | archive_submitter.py:265-313 | the loop submits each row's pages in order, as specified |
| ArchiveSubmitter.Submitter.ProcessPendingAuthors | archive_submitter.py:99-149 | each selected author page and its `/details` page is submitted as specified |
| ArchiveSubmitter.Submitter.ProcessMarkedImages | archive_submitter.py:250-316 | each selected image page, its author page and that page's `/details` page are submitted as specified |
| ArchiveSubmitter.Submitter.ProcessFavoriteAuthors | archive_submitter.py:318-396 | the chosen favourite's sampled pages are submitted as specified |
| ArchiveSubmitter.Submitter.ProcessPendingImages | archive_submitter.py:151-196 | each author's sample is submitted as specified |
| ArchiveSubmitter.Submitter.VerifySubmission | archive_submitter.py:209-229 | one verification replaces only that URL's row |
| ArchiveSubmitter.Submitter.VerifyPendingSubmissions | archive_submitter.py:198-232 | the pass computes the specified verification |
| ArchiveSubmitter.Submitter.VerifyEach | archive_submitter.py:209-229 | the loop verifies the due URLs as specified |
| ArchiveSubmitter.Submitter.RunCycle | archive_submitter.py:398-424 | one cycle runs the five tasks in order, as specified, and keeps every `failed` row at 3 retries or more |
| ReprocessMetadata.KeysOf | reprocess_metadata.py:91-160 | a key is collected iff some well-formed entry names it |
| ReprocessMetadata.AddEntriesKeeps | reprocess_metadata.py:99-110 | `INSERT OR IGNORE` keeps every existing catalogue row exactly as it was |
| ReprocessMetadata.AddEntriesKeys | reprocess_metadata.py:91-160 | after the loop the catalogue holds exactly the old keys and the keys of the entries |
| ReprocessMetadata.AddEntriesFirst | reprocess_metadata.py:99-103 | a new key gets the columns of the first entry that names it |
| ReprocessMetadata.AddEntriesLinks | reprocess_metadata.py:106-110 | the image is linked to the key of every well-formed entry, old links kept |
| ReprocessMetadata.AddEntriesCounts | reprocess_metadata.py:112-162 | the counter counts every well-formed entry, also one whose link already existed |
| ReprocessMetadata.AddEntriesUnchanged | reprocess_metadata.py:91-163 | when every key is already catalogued and linked, no table changes |
| ReprocessMetadata.AddEntriesCount | reprocess_metadata.py:112-162 | the counter depends on the entries alone, not on the tables |
| ReprocessMetadata.AddEntriesIdempotent | reprocess_metadata.py:91-163 | running the insert loop twice over the same entries is running it once |
| ReprocessMetadata.ProcessImageImages | reprocess_metadata.py:84-173 | failure to extract metadata is exactly the failed outcome, and then nothing changes; otherwise only the processed image's `metadata_updated` changes, to the stamp |
| ReprocessMetadata.ProcessImageIdempotent | reprocess_metadata.py:84-173 | processing the same metadata for the same image twice is processing it once |
| ReprocessMetadata.Selection | reprocess_metadata.py:207-219 | an image is selected iff it has no row in any of `image_tags`, `image_collections` and `image_albums`, with its `page_url` |
| ReprocessMetadata.ProcessedNotReselected | reprocess_metadata.py:207-219 | an image whose metadata named a collection, album or tag is not selected by a later run |
| ReprocessMetadata.VisitAllSnoc | reprocess_metadata.py:245-271 | visiting one more image continues from the tables and counters the earlier images left |
| ReprocessMetadata.VisitAllCounts | reprocess_metadata.py:252-271 | every visited image is counted once, as a success or a failure, and an image without a page URL is always a failure |
| ReprocessMetadata.VisitAllStamps | reprocess_metadata.py:252-263 | an image that is only visited without a URL or with a failed fetch keeps its row |
| ReprocessMetadata.SlotsBound | reprocess_metadata.py:258 | one pooled session per image with a URL, each below the pool size |
| ReprocessMetadata.SlotsSnoc | reprocess_metadata.py:245-258 | the next image uses session `(position mod batch size) mod sessions`, if it has a URL |
| ReprocessMetadata.BatchCount | reprocess_metadata.py:245-247 | the number of batches the loop runs is the total divided by the batch size, rounded up, as logged |
| ReprocessMetadata.Database.ProcessMetadataWithoutDownload | reprocess_metadata.py:54-184 | the tables and the outcome are those of the specified processing |
| ReprocessMetadata.Database.ReprocessMissingMetadata | reprocess_metadata.py:186-287 | the run raises iff the selection is non-empty and the batch size is 0 (`range` step 0) or there are no sessions and some selected image has a page URL (`idx % 0`); a raised run or an empty selection changes nothing and gives no summary; otherwise the tables and the counters are those of visiting the selection in order, with the specified sessions and number of batches |
| ReprocessMetadata.Database.RunBatches | reprocess_metadata.py:245-271 | the batch loop over a non-empty selection raises iff there are no sessions and some image has a page URL, and then the tables are as they were; otherwise it visits the selection in order, with the specified sessions and number of batches |
| ReprocessMetadata.Database.BatchStep | reprocess_metadata.py:250-271 | one image raises iff there are no sessions and it has a page URL, with the tables as they were; otherwise it is visited and its session `idx % sessions` is recorded |
| ReprocessMetadata.Database.ProcessBatch | reprocess_metadata.py:245-271 | one batch raises iff there are no sessions and an image with a page URL is reached, and then the tables are as they were; otherwise it continues the visit and the session list up to the end of that batch |
| ReprocessMetadata.NoUrlVisit | reprocess_metadata.py:252-256 | images without a page URL are only counted as failed: the tables stay as they were |
| ReprocessMetadata.Database.ProcessPick | reprocess_metadata.py:249-271 | one image is visited as specified |
| VerifyDownloads.DeleteImageDataSpec | verify_downloads.py:35-61 | on success the image's row and its rows in `image_collections`, `image_albums`, `image_tags`, `marked_images` and `image_notes` are gone and every other row stays; on failure nothing changes; the result says which |
| VerifyDownloads.Reply | verify_downloads.py:73-83 | `y`, `n`, `a` and `q`, in any case, are the four answers; any other line is none |
| VerifyDownloads.PromptFirstAnswer | verify_downloads.py:72-83 | the prompt consumes lines up to the first valid answer and returns it |
| VerifyDownloads.PromptNoAnswer | verify_downloads.py:72-83 | with no valid line the input runs out |
| VerifyDownloads.ProcessCorrupted | verify_downloads.py:63-83 | a `True` setting deletes and a `False` one skips without reading input; otherwise only a suffix of the input is left |
| VerifyDownloads.PromptRest | verify_downloads.py:72-83 | an answered prompt leaves a suffix of the input |
| VerifyDownloads.ByAuthorIdIsPreorder | verify_downloads.py:92-95 | `ORDER BY author, id` is a total preorder |
| VerifyDownloads.Scanned | verify_downloads.py:91-95 | the scan lists exactly the images of the table with their path and author |
| VerifyDownloads.QueryListsImages | verify_downloads.py:91-95 | the query lists exactly the images of the table, sorted by author then id |
| VerifyDownloads.ScannedLength | verify_downloads.py:91-95 | a scan over ids of the table yields one row per id |
| VerifyDownloads.QueryIsTable | verify_downloads.py:91-95 | when the scan visits each row of `images` once, the query lists every image of the table, with its path and author, and no more rows than the table has |
| VerifyDownloads.StepSound | verify_downloads.py:106-145 | one image raises the corrupted count by at most one and the deleted count by no more; every author setting stays true |
| VerifyDownloads.RunSound | verify_downloads.py:105-145 | over the whole run, deletions never outnumber corrupted files, and the automatic skip branch never runs |
| VerifyDownloads.AutoDeletes | verify_downloads.py:118-139 | a corrupted file of an author set to all is counted without reading input, and when removing it succeeds its rows are deleted |
| VerifyDownloads.AllSetsAuto | verify_downloads.py:124-127 | answering `a` sets the author to all |
| VerifyDownloads.StepKeepsRows | verify_downloads.py:107-137 | a missing file or a readable JPEG changes nothing, and a failed removal leaves the rows, the files and the deleted count |
| VerifyDownloads.RunOnlyRemoves | verify_downloads.py:105-145 | the run only ever removes images, rows and files |
| VerifyDownloads.Verifier.ProcessCorruptedFile | verify_downloads.py:63-83 | the decision and the input left are the specified ones; the tables and files are unchanged |
| VerifyDownloads.Verifier.DeleteImage | verify_downloads.py:35-61 | the tables and the result are the specified deletion |
| VerifyDownloads.Verifier.VerifyDownloads | verify_downloads.py:86-152 | given a scan that visits each image once, the tables, files, input and counters are those of the specified run over the query |
| VerifyDownloads.Verifier.VerifyOne | verify_downloads.py:106-145 | one image is handled as specified |
| SyncManager.CompareIff | sync_manager.py:122-126 | a remote hash is missing iff no local row has it; a remote URL is missing iff the local URLs lack it and the local page URLs lack its page |
| SyncManager.MissingHashes | sync_manager.py:104-126 | with the local sets read correctly, a hash is reported iff it is remote and not local; the hash half is the same as written |
| SyncManager.AsWrittenAllUrlsMissing | sync_manager.py:117-119 | as written, the second and third `fetchall` return nothing, so every remote URL is reported missing |
| SyncManager.MissingUrls | sync_manager.py:111-126 | with the local sets read correctly, a URL is reported iff it is remote, not local, and its page is not local |
| SyncManager.AsWrittenReportsKnownUrl | sync_manager.py:117-126 | as written, a URL the local database already has is reported missing |
| SyncManager.ExportPathRoundTrip | sync_manager.py:211-216 | `hash_<h>` reads back as the hash `h` and `url_<u>` as the URL `u`; no path has both prefixes |
| SyncManager.MetadataRow | sync_manager.py:253-257 | the row found describes the key, and no row is found only when no scanned row describes it |
| SyncManager.JudgeMoves | sync_manager.py:226-331 | a file is moved iff exactly one import file matches the glob, its hash (by hash) equals the key, and a metadata row with an author exists; then the target is `images/<author>/<name>` |
| SyncManager.SixthColumnIsLicense | sync_manager.py:264 | as written, `metadata[6]` is the `license` column, so the target directory is the licence, and a NULL licence raises |
| SyncManager.StatusesBounded | sync_manager.py:343-359 | completed and error files of a list never exceed its files |
| SyncManager.UpdateStatusCounted | sync_manager.py:333-363 | the file's status and message are set, no other file changes, and every list's `processed_files` stays the number of its completed files |
| SyncManager.SetPath | sync_manager.py:272-276 | the update keeps the set of images |
| SyncManager.AsWrittenImportRollsBack | sync_manager.py:68-79 | as written, the table has no `error_message` column, so the first status update raises and the whole import is rolled back and reports failure, though a file may already have moved to the folder named by `metadata[6]` |
| SyncManager.AsWrittenNullLicenseMovesNothing | sync_manager.py:260-269 | as written, when the first entry left to do has a metadata row without a licence, `Path("images") / metadata[6]` raises before the rename: the import fails, the tables are unchanged and no file moves |
| SyncManager.ProcessEntryRecords | sync_manager.py:226-331 | corrected, the file is `completed` iff it was moved; a failure records its message and changes no image and no file on disk; a move sets the images' `local_path` and moves the file into the library |
| SyncManager.ProcessEntryCounted | sync_manager.py:226-331 | processing one file changes no other file row and keeps the counts right |
| SyncManager.ProcessAllKeeps | sync_manager.py:206-216 | a file that is not listed, or listed as completed, keeps its row |
| SyncManager.ProcessAllListIds | sync_manager.py:206-216 | no file changes list |
| SyncManager.ListedOfRows | sync_manager.py:198-204 | the listed files are rows of the list with their status and path |
| SyncManager.ProcessImportedKeeps | sync_manager.py:181-224 | a completed file, or one of another list, is left as it was |
| SyncManager.AnalysedHashHasNoMetadata | sync_manager.py:104-126 | a hash reported missing has no local metadata row, so importing it by hash always ends in `No metadata found` |
| SyncManager.SweepIff | sync_manager.py:378-386 | a temporary file is kept iff no listed path's glob matches it |
| SyncManager.AsWrittenCleanupFails | sync_manager.py:375-379 | as written, each fetched row is a tuple, `startswith` raises on the first row, and nothing is changed |
| SyncManager.CleanupSweeps | sync_manager.py:365-400 | corrected, each temporary file matched by a listed path is deleted and the others kept; the list becomes `completed`; no other table or directory changes |
| SyncManager.Manager.AnalyzeRemoteDb | sync_manager.py:83-133 | the result is the specified comparison |
| SyncManager.Manager.CreateExportList | sync_manager.py:135-179 | it fails, changing nothing, iff the list id exists; otherwise the list gets `total_files` = hashes + URLs, one new `pending` row per hash and per URL with ids counted up, and nothing else changes |
| SyncManager.Manager.AddEntries | sync_manager.py:158-170 | one new `pending` row per key, with consecutive ids, whose paths are the keys' paths |
| SyncManager.Manager.AddKey | sync_manager.py:158-170 | one more key is inserted |
| SyncManager.Manager.AddEntry | sync_manager.py:159-163 | a row with the next id and status `pending` is inserted |
| SyncManager.Manager.UpdateFileStatus | sync_manager.py:333-363 | the tables become the specified status update |
| SyncManager.Manager.ProcessFile | sync_manager.py:226-331 | one file is processed as specified |
| SyncManager.Manager.CleanupSyncFiles | sync_manager.py:365-400 | the tables and directories become the specified cleanup |
| SyncManager.Manager.UnlinkMatches | sync_manager.py:381-386 | every temporary file that matches the glob is deleted and nothing else |
| SyncManager.Manager.ProcessImportedFiles | sync_manager.py:181-224 | the tables, directories and result are the specified import |
| ExportFiles.LastDot | export_files.py:94 | the index found holds a `.` with none after it, and none is found only in a name without a `.` |
| ExportFiles.StemSuffix | export_files.py:94 | `stem + suffix` is the name; a suffix is empty or a `.` followed by at least one character and no further `.`; it is empty iff the name has none by `pathlib`'s rule |
| ExportFiles.ExportNameMatchesImport | export_files.py:94 | a file exported under `<stem>_<key><suffix>`, with a suffix, is found by the importer's glob `*_<key>.*` |
| ExportFiles.InfixOccurs | export_files.py:94 | the key appears between `_` and the suffix's dot |
| ExportFiles.ExportEntryCompletes | export_files.py:64-176 | an entry is `completed` iff its first images row has a non-empty `local_path` that exists, the run is not dry and the copy succeeds; then the output gains the export name, else it is unchanged; the result is false exactly on `error` |
| ExportFiles.ExportEntryFrame | export_files.py:64-192 | exporting one entry changes only that entry's row, never `images`; a dry run copies nothing and completes nothing |
| ExportFiles.ExportAllBound | export_files.py:47-58 | once `success` has a value the loop never raises |
| ExportFiles.PrepareExportResult | export_files.py:47-62 | `prepare_export` returns true iff the list has no pending entry or its first pending path has one of the two prefixes (otherwise `success` is unbound and raises) |
| ExportFiles.ExportAllGrows | export_files.py:47-58 | the export loop only adds names to the output directory |
| ExportFiles.AsWrittenExportFails | export_files.py:47-62 | as written, with `error_message` missing from `sync_export_files`, a list whose first pending entry has a prefix makes `prepare_export` return false with no status recorded and at most that entry's file copied, where the intended run returns true and copies at least as much |
| ExportFiles.DryRunCopiesNothing | export_files.py:97-100 | a dry run copies nothing and completes no entry |
| ExportFiles.ExportAllOthers | export_files.py:47-58 | an entry that is not visited keeps its row |
| ExportFiles.OnlyPendingExported | export_files.py:39-43 | an entry of another list, or not `pending`, is left as it was |
| ExportFiles.FileExporter.UpdateExportStatus | export_files.py:178-192 | the file's status and message are set as specified |
| ExportFiles.FileExporter.ExportOne | export_files.py:64-176 | one entry is exported as specified |
| ExportFiles.FileExporter.PrepareExportFiles | export_files.py:21-62 | the tables, the output directory and the result are the specified export |
| ImportFiles.VerifyAllIff | import_files.py:56-79 | the dry-run check succeeds iff every listed entry is verified |
| ImportFiles.AsWrittenVerifyFails | import_files.py:56-133 | as written, the dry-run check records nothing and succeeds exactly when no listed entry has a `hash_` or `url_` prefix |
| ImportFiles.AsWrittenVerifyRejectsMatch | import_files.py:56-133 | an entry with exactly one matching file verifies in the intended dry run and fails it as written |
| ImportFiles.VerifyEntryStatus | import_files.py:85-133 | a verified entry stays `pending` with the dry-run message, one that is not becomes `error`; no other row or table changes |
| ImportFiles.VerifyAllOthers | import_files.py:69-77 | an entry that is not visited keeps its row |
| ImportFiles.AsWrittenImportReportsFailure | import_files.py:41-54 | as written, a real import of a list with an entry always returns false and leaves the tables unchanged: the processing rolls back at its first status update, or, when it gets through, the clean-up raises |
| ImportFiles.AsWrittenCleanupFailsImport | import_files.py:44-48 | as written, a list whose entries are all completed is processed without change and the import still returns false because the clean-up raises, where the intended import returns true |
| ImportFiles.ImportResult | import_files.py:21-54 | corrected, the import succeeds iff the directory exists and, on a dry run, every entry verifies; a missing directory changes nothing; a dry run moves no file |
| ImportFiles.AsWrittenEmptyListHasNoCounts | import_files.py:147-165 | as written, an empty list gives a total of 0 with `completed` and `failed` NULL (the zeros fallback never applies); the corrected counts are zeros |
| ImportFiles.VerifyImportBounds | import_files.py:147-165 | completed plus failed never exceed the total, and on a non-empty list the counts are those the query returns |
| ImportFiles.FailedOfIff | import_files.py:182-195 | a pair is reported iff some row of the list in `error` has that path and message |
| ImportFiles.FileImporter.UpdateFileStatus | import_files.py:201-215 | the file's status and message are set as specified |
| ImportFiles.FileImporter.VerifyFile | import_files.py:85-133 | one entry is verified as specified, and no file moves |
| ImportFiles.FileImporter.VerifyImportFiles | import_files.py:56-83 | the tables and the result are the specified dry-run check, and no file moves |
| ImportFiles.FileImporter.GetFailedImports | import_files.py:171-199 | the list is the failed entries in scan order, with their messages |
| ImportFiles.FileImporter.ImportFilesRun | import_files.py:21-54 | the tables, directories and result are the specified import |
| AnalyzeSync.StatsOf | analyze_sync.py:37-43 | the statistics count the missing hashes and URLs, the total is their sum, and nothing is completed or failed yet |
| AnalyzeSync.ExportPathsLike | analyze_sync.py:81-82 | a `hash_` path matches `LIKE 'hash_%'` and not `LIKE 'url_%'`, and a `url_` path the other way round |
| AnalyzeSync.LikeIsWider | analyze_sync.py:81 | `LIKE 'hash_%'` is wider than the prefix: it ignores case and `_` matches any character, so `HASHES` counts as a hash file |
| AnalyzeSync.PrefixLike | analyze_sync.py:81-82 | a path with one of the two prefixes is counted by exactly one pattern |
| AnalyzeSync.ListStatsSum | analyze_sync.py:78-106 | the sums are NULL exactly for an empty list; otherwise, when every path has a prefix, hash and URL files add up to the total and completed plus failed never exceed it |
| AnalyzeSync.KindsPartition | analyze_sync.py:81-82 | hash and URL files partition a list whose paths all have a prefix |
| AnalyzeSync.DetailsAreListed | analyze_sync.py:129-144 | the details are the list's rows one for one, each with its path, status and message |
| AnalyzeSync.SyncAnalyzer.AnalyzeRemoteDb | analyze_sync.py:21-64 | a dry run returns no list id and the statistics and changes nothing; otherwise a clash of list ids raises and changes nothing, and a new id gets the list and its rows, with the statistics returned |
| AnalyzeSync.SyncAnalyzer.GetExportListDetails | analyze_sync.py:118-148 | the details are those of the list in scan order |
| SyncIngest.ShardStart | sync/src/sync_manager.py:89 | `n // 1000 * 1000` is the multiple of 1000 at or below `n` and within 1000 of it |
| SyncIngest.FinalPath | sync/src/sync_manager.py:84-94 | the final path is `<author>/<shard>/<hash>.jpg` |
| SyncIngest.FindOrCreateFails | sync/src/sync_manager.py:117-126 | the loop raises iff some item lacks its key |
| SyncIngest.FindOrCreateRows | sync/src/sync_manager.py:108-137 | existing rows are kept; each new row gets a fresh id and is keyed by its item's key; every row is old or named by an item |
| SyncIngest.FindOrCreateIds | sync/src/sync_manager.py:108-137 | the image is linked, item by item, to the row of each item's key |
| SyncIngest.FindOrCreateKeepsKeys | sync/src/sync_manager.py:108-137 | rows stay keyed by their own key and ids stay below the counter |
| SyncIngest.LinkAll | sync/src/sync_manager.py:108-137 | the loop computes the specified find-or-create |
| SyncIngest.TagsOf | sync/src/sync_manager.py:109-115 | tag names always have a key, so the tag loop never raises |
| SyncIngest.KnownHashRecordsOnce | sync/src/sync_manager.py:48-61 | a file whose hash is known adds one `success` record for the first image with that hash, and changes neither the images nor the disk |
| SyncIngest.StoredNew | sync/src/sync_manager.py:97-151 | a stored new image has a verified hash and an unused URL, is appended with its local path, and gets one `success` record with its id |
| SyncIngest.Links | sync/src/database.py:66-84 | the association rows of an image are exactly the pairs of the image with one of the ids, none twice, and no more than there are ids: the composite primary key admits each pair once |
| SyncIngest.LinksAppended | sync/src/sync_manager.py:115-137 | the new links follow the old ones unchanged; none repeats; each item's key row is linked and nothing else is |
| SyncIngest.FindOrCreateLinks | sync/src/sync_manager.py:108-137 | after find-or-create the image's new links follow the old ones; none repeats; there is one to each item's key row and no other; old rows are kept |
| SyncIngest.StoredNewTags | sync/src/sync_manager.py:108-115 | a stored image is linked once to the row of each of its tag names and to no other tag, and old tags are kept |
| SyncIngest.RepeatedTagLinkedOnce | sync/src/sync_manager.py:108-115 | a tag named twice in the metadata gives one `image_tags` row, not two |
| SyncIngest.StoredNewAlbums | sync/src/sync_manager.py:117-126 | a stored image is linked once to the row of each of its albums' `album_id` and to no other album, and old albums are kept |
| SyncIngest.NewImageStored | sync/src/sync_manager.py:63-151 | a successful new image had an author, a matching hash after the move and an unused URL; it is appended with its relative path and a `success` record, and the file is moved from the synced path to its final path |
| SyncIngest.ShardIsBlockStart | sync/src/sync_manager.py:88-89 | the shard directory is a multiple of 1000 at or below the author's file count |
| SyncIngest.JoinSplits | sync/src/sync_manager.py:102 | joining path parts without `/` and splitting on `/` gives the parts back |
| SyncIngest.LocalPathOfNew | sync/src/sync_manager.py:94-102 | the local path splits into the author, the shard and `<hash>.jpg` |
| SyncIngest.HashMismatchRollsBack | sync/src/sync_manager.py:95-99 | a hash mismatch after the move rolls back and records a failure without an image id, but the file stays moved |
| SyncIngest.FailureRecordedIffImageBuilt | sync/src/sync_manager.py:153-167 | a failure leaves every table but the records as it was; it adds one `failed` record with a message iff the image object had been built, and otherwise changes nothing |
| SyncIngest.FailedIdIsReused | sync/src/sync_manager.py:106 | a failed record with an id carries the id the rolled-back flush gave, one past the last image, which the next image will reuse |
| SyncIngest.StoreNewKeepsValid | sync/src/sync_manager.py:63-151 | storing a new image keeps the store well-formed |
| SyncIngest.ImagesStayUnique | sync/src/sync_manager.py:105 | appending an image with a new hash and an unused URL keeps hashes and URLs unique |
| SyncIngest.ProcessKeepsValid | sync/src/sync_manager.py:31-167 | every outcome keeps the store well-formed |
| SyncIngest.AddToShard | sync/src/sync_manager.py:94-95 | a new file in shard `m` adds one to the author's count and to shard `m`'s count only |
| SyncIngest.MoveKeepsShardsBounded | sync/src/sync_manager.py:88-95 | with the shard taken from the file count, a move keeps every shard of the author at 1000 files or fewer |
| SyncIngest.OtherMoveKeepsShards | sync/src/sync_manager.py:94-95 | a file of another author keeps the author's shards bounded |
| SyncIngest.ProcessKeepsShards | sync/src/sync_manager.py:31-167 | processing any file keeps every author's shards bounded |
| SyncIngest.AsWrittenShardStaysZero | sync/src/sync_manager.py:88-91 | as written, `glob('*')` counts the shard directories, so an author whose only entry is `0` keeps getting shard `0`, which grows without bound |
| SyncIngest.PendingCountsOthers | sync/src/sync_manager.py:169-190 | `pending` counts the records of the source that are neither `success` nor `failed`, and is never negative |
| SyncIngest.ProcessProgress | sync/src/sync_manager.py:31-190 | a success adds one to total and completed; a failure adds to total exactly what it adds to failed, at most one; pending never changes |
| SyncIngest.ProgressAppend | sync/src/sync_manager.py:169-190 | a new `success` or `failed` record adds one to the total and to its own count |
| SyncIngest.Manager.ProcessSyncedImage | sync/src/sync_manager.py:31-167 | the store, the disk and the result are the specified processing |
| OptimizeWorkers.StepsMembers | optimize_workers.py:179-180 | `range(lo, hi, 2)` holds exactly the numbers from `lo` below `hi` at an even distance from `lo` |
| OptimizeWorkers.Interval | optimize_workers.py:181 | the counts from `lo` to `hi`, each once, in increasing order |
| OptimizeWorkers.WorkerCountsCover | optimize_workers.py:179-181 | the odd-step and even-step ranges together hold exactly the counts from the minimum to the maximum, and the sorted list is increasing |
| OptimizeWorkers.TailMember | optimize_workers.py:181 | two increasing lists with the same head share every later element the other holds |
| OptimizeWorkers.IncreasingUnique | optimize_workers.py:181 | `sorted(set(...))` is fixed by its elements: two increasing lists with the same elements are equal |
| OptimizeWorkers.NextTestPage | optimize_workers.py:73-82 | with no completed page the next page is 0; otherwise it is one past the highest completed page |
| OptimizeWorkers.NewCountZero | optimize_workers.py:101-123 | a page counts no new image iff none of its images is new |
| OptimizeWorkers.SuccessRateBounds | optimize_workers.py:147-149 | the success rate lies between 0 and 1 and is 1 exactly when every downloaded image was processed |
| OptimizeWorkers.MetricsOf | optimize_workers.py:147-163 | the metrics carry the success rate and the number of actual downloads |
| OptimizeWorkers.PutKeepsOrder | optimize_workers.py:193 | storing a count keeps every count listed once, keeps the earlier order, and puts a new count last |
| OptimizeWorkers.PutAllStores | optimize_workers.py:185-193 | after storing the counts each holds its own metrics, every other count keeps what it had, and no other count appears |
| OptimizeWorkers.RunFrom | optimize_workers.py:185-211 | from any point of the interval the loop stores exactly the counts up to and including the first one worse than the count below it |
| OptimizeWorkers.TestedStopsAtFirstDrop | optimize_workers.py:195-211 | the loop stops at some `j`: none of the counts before `j` is worse than its predecessor, and `j` is the maximum or is worse itself |
| OptimizeWorkers.TestLoopStores | optimize_workers.py:179-211 | for the stopping count `j`, the loop stores each count from the minimum to `j` with its metrics and keeps every other stored count |
| OptimizeWorkers.RunKeepsOrder | optimize_workers.py:185-211 | the loop keeps every stored count listed once |
| OptimizeWorkers.BestIsFirstFastest | optimize_workers.py:213-221 | there is no best count iff no stored count with a success rate of at least 95% has a positive speed; otherwise the best is such a count, the fastest of them, and the first in the dictionary's order at that speed |
| OptimizeWorkers.WorkerOptimizer.CountNew | optimize_workers.py:101-123 | the loop counts the new images of a page: those with a URL and a non-empty image id that no stored URL contains (`LIKE`) |
| OptimizeWorkers.WorkerOptimizer.FindTestPage | optimize_workers.py:88-131 | the page found is the first from the next test page on that has a new image |
| OptimizeWorkers.WorkerOptimizer.TestWorkerCount | optimize_workers.py:84-172 | the metrics are those of the count, its speed and the processing of the first page with new images, which they name |
| OptimizeWorkers.WorkerOptimizer.RunTests | optimize_workers.py:185-211 | the loop computes the specified test run |
| OptimizeWorkers.WorkerOptimizer.TestCounts | optimize_workers.py:185-211 | the stored counts become the specified test run, and nothing else changes |
| OptimizeWorkers.WorkerOptimizer.BestWorkerCount | optimize_workers.py:213-221 | the loop computes the specified best count |
| OptimizeWorkers.WorkerOptimizer.OptimizeWorkers | optimize_workers.py:174-231 | the counts become the test run over the whole interval; a best count other than 0 is returned, recorded with the time and saved; otherwise the initial count is returned and nothing else changes |

## Left out

General:

- HTTP (sessions, retry adapters, `requests_cache`, the archive endpoints) is left out because it is I/O. Each response is a parameter: links, rows, a status code or a reply text.
- HTML parsing with BeautifulSoup is left out because it is a foreign library. The model starts from the extracted strings: hrefs, link texts, cell texts, class lists.
- The SQLite and SQLAlchemy engines, DDL and `ALTER TABLE` migrations are left out. Each table is a `map` or `seq`, and each statement is modelled by its effect on that map. Where SQL leaves row order open, the order is a scan-order parameter.
- SHA-256, PIL's JPEG check, `datetime.now()`, `time.sleep`, `random` and `ORDER BY RANDOM()` are parameters or oracles, because they are foreign computations, the clock or randomness.
- Filesystem effects (`makedirs`, `glob`, `rename`, `copy2`, `unlink`, `exists`) are sets of paths, because they are I/O. Directory creation is modelled only where it affects a later count.
- Threads, queues, signal handlers and `KeyboardInterrupt` from the keyboard are left out, because the model has no concurrency. The interrupt from answering `q` in verify_downloads.py is modelled.
- Logging and printed summaries are left out, because they are output only.
- `main`, argument parsing and `create_session` are left out, because they are plumbing. So are the Flask explorer, the Syncthing wrapper, `sync/src/main.py`, `sync/src/db_sync.py`, `experimental_merge_db.py`, `fix_stale_files.py` and `redownload_missing.py`.

indafoto.py:

- `get_image_links` and `extract_image_id` as called from optimize_workers.py and reprocess_metadata.py do not match the versions in indafoto.py. There they are taken as oracles.
- cache_utils.py imports `parse_hungarian_date`, `get_high_res_url` and `init_db` from indafoto.py, and archive_submitter.py imports `check_for_updates`; none of them is defined there. cache_utils.py also calls `get_image_links(..., session=...)` and `extract_metadata(..., session=...)`, which the indafoto.py versions do not accept. The model takes what these calls return as parameters (the fetched pages, the metadata, the opened tables), as if a matching indafoto.py were present. The update check is left out.
- AuthorDir (Indafoto.AuthorDir): a path is a list of segments, `["indafoto_archive", DirName(author)]`, not the string `os.path.join` builds and the file system resolves. An empty author (an empty author span gives `""`) makes the source's author directory the archive itself, so its shard `0` is `indafoto_archive/0`, the directory of the author `"0"`. The authors `.` and `..` name the archive and its parent. The model keeps all of these apart from the other authors.
- ImageDirectoryAsWritten (Indafoto.ImageDirectoryAsWritten): counts over `AuthorDir`, so for the authors `""`, `.`, `..` and `"0"` it does not count the files the source's `os.listdir` sees in the shared directory.
- ImageDirectory (Indafoto.ImageDirectory): has the same gap for the authors `""`, `.`, `..` and `"0"`; its shard bound is stated per segment-list directory.
- Exists (Indafoto.Exists): treats only an empty last segment (a URL ending in `/`) as an existing directory. A URL ending in `/.` or `/..` names the shard directory or the author directory, which `os.path.exists` finds, so the source returns that path without a request, while the model fetches it.
- DownloadPath (Indafoto.DownloadPath): follows the corrected shard rule `ImageDirectory` of the Findings row for indafoto.py:86-87, not the as-written `ImageDirectoryAsWritten`. Its path is a segment list, with the gaps of `AuthorDir` for the authors `""`, `.` and `..`, and a last segment `.` or `..` that the file system would resolve.
- Download (Indafoto.Download): saves under `DownloadPath`, so under the corrected shard rule. It inherits the path gaps of `AuthorDir` and `Exists` above: for a URL ending in `/.` or `/..` the source skips the fetch.
- DownloadKeepsBalance (Indafoto.DownloadKeepsBalance): the shard bound it keeps holds for the corrected rule only; `AsWrittenShardOverflows` shows the as-written rule breaking it.
- DownloadImage (Indafoto.Crawler.DownloadImage): is proved against `Download`, so it uses the corrected shard rule.
- HandleRecord (Indafoto.Crawler.HandleRecord): downloads through `DownloadImage`, so under the corrected shard rule.
- CrawlRecordList (Indafoto.Crawler.CrawlRecordList): downloads through `HandleRecord`, so under the corrected shard rule.
- CrawlImages (Indafoto.Crawler.CrawlImages): downloads through `CrawlRecordList`, so under the corrected shard rule.
- Percent.Unquote is Python's `unquote` with its defaults (`encoding="utf-8"`, `errors="replace"`). Other encodings and error handlers are not modelled.
- `Indafoto.DirName` replaces single characters only. Python's `re.sub` over surrogate pairs or Unicode normalisation is not modelled.

license_crawler.py:

- The HTTPError message is modelled as `requests` writes it, with the request URL and no redirects.
- Sleeps are recorded as durations and not waited on.
- DigitRun (LicenseCrawler.DigitRun): reads `\d` as the ASCII digits `0`-`9`. In a `str` pattern Python's `\d` matches every Unicode decimal digit, such as `４`, so an href `/licenses/by/４.０/` gives `CC BY ４.０` in the source and `Unknown` here, and a `page_offset=` written in such digits is found there and not here. `OffsetMatchFrom`, `PageOffset`, `VersionAtEnd` and the licence lemmas inherit this.
- LicenseFromHrefFormats (LicenseCrawler.LicenseFromHrefFormats): upper-cases with `Text.Upper`, which maps the ASCII letters `a`-`z` only. Python's `str.upper()` applies the full Unicode case mapping, and the type group `[^/]+` admits any character, so `/licenses/bý/2.0/` gives `CC BÝ 2.0` in the source and `CC Bý 2.0` here, and `straße` becomes `STRASSE` there and `STRAßE` here. For types and countries written in ASCII, as every Creative Commons licence is, the two agree. `FormatLicense` and `LicenseFromHref` share this gap.
- CrawlLicenses (LicenseCrawler.CrawlLicenses): fetches pages through `GetImageLinks`, whose handler is `CatchHttpError` with `asWritten` false: the corrected rule of the Findings row for license_crawler.py:156, not the as-written one that re-raises on any mention of a listed code.

author_details_scraper.py:

- `int()` on a count (Text.PyInt) models surrounding whitespace (the full `str.isspace()` set, `Text.Whitespace`), an optional sign and `_` between digit groups. Non-ASCII decimal digits, which Python's `int` also accepts, are not modelled.
- ParseHungarianDate (AuthorDetails.ParseHungarianDate): reads `isdigit()` as the ASCII digits. Python's `str.isdigit()` holds for every character with a Unicode digit value, so `２０１０.05.03` gives `２０１０-05-03` in the source and `None` here; a month or day in superscript digits passes `isdigit()` and makes `int()` raise, which the source also turns into `None`.

author_crawler.py:

- `ON CONFLICT(page_number)` names a column without a unique index. In SQLite that statement fails, so the error-row write is modelled as writing nothing.
- The worker threads and the queue are modelled only through the count of running workers.

cache_utils.py:

- The HTTP cache is modelled as the set of URLs passed to `remove_from_cache`, not as stored responses. `remove_from_cache` calls `session.cache.delete(url)`; whether that removes the response stored for the URL depends on the `requests_cache` version, whose `delete` may take cache keys rather than URLs and then removes nothing. The model states which URLs are passed, not that their responses leave the cache.
- The sleeping loop of `continuous_pre_crawl` is modelled one round at a time.

archive_submitter.py:

- `archive_submissions` is modelled as a map keyed by URL, one row per URL, with `retry_count` starting at 0. The `ON CONFLICT(url)` upsert at archive_submitter.py:234-248 needs `url` to be unique; the table definition is not part of this model, so that uniqueness is assumed.
- `ArchiveSubmitter.Requested`: `int(total * 0.005)` is modelled as `total / 200`. Floating-point rounding of the product is not modelled.
- PhAccepts (ArchiveSubmitter.PhAccepts): the RFC 1123 date is parsed in its fixed 29-character form with two-digit days, names in their usual capitalisation and ASCII digits. `strptime` also accepts one-digit days, extra spaces, any letter case in the weekday, the month and `GMT`, and non-ASCII decimal digits; none of these is modelled.
- WeekdayNumber (ArchiveSubmitter.WeekdayNumber): matches `Mon` to `Sun` exactly. `strptime` matches `%a` ignoring case, so `mon` or `MON` parses in the source and not here.
- MonthNumber (ArchiveSubmitter.MonthNumber): matches `Jan` to `Dec` exactly. `strptime` matches `%b` ignoring case, so `JUL` parses in the source and not here.
- OrgAccepts (ArchiveSubmitter.OrgAccepts): the CDX timestamp is parsed as exactly 14 ASCII digits. `strptime`'s more lenient field widths and its acceptance of non-ASCII decimal digits are not modelled.
- The weighted pick of a favourite author is a parameter, constrained only to choose a candidate.
- The `service` argument of `update_submission_status` is never stored, so the model leaves it out.
- The first-time eligibility filters are stated as they are written. `ArchiveSubmitter.EligibleOnlyWithoutRow` shows that on the states the program reaches they admit only URLs without a row. This is an observation, not a finding.

reprocess_metadata.py:

- The metadata fetch is a parameter, because the `extract_metadata(page_url, session=...)` it calls, with collections, albums and tags, is not the one in indafoto.py.
- `ReprocessMetadata.VisitAllCounts`: the failure count is stated as a lower bound, because a fetch failure is also counted as failed.
- Negative `--batch-size` and `--concurrent-sessions` are not modelled: both are natural numbers here. A negative step gives an empty `range`, and a negative pool size gives an empty pool that fails with `IndexError`.
- On a raise (a batch size of 0 or no sessions) the summary, the session list and the batch count are not promised, because the source logs no summary then.

verify_downloads.py:

- `verify_jpeg` is the parameter `isJpeg`, because PIL is a foreign library.
- The summary's `i`, which is unbound when there are no images, is not modelled.

sync_manager.py, export_files.py, import_files.py, analyze_sync.py:

- The export-list id, a SHA-256 of the current time, is a parameter.
- A file's digest is a parameter of the import directory.
- The model's `sync_export_files` has the `error_message` column the updates write. As written it does not (see Findings), so every status update raises, and so does every query that selects the column. The members below are stated on the corrected table; the as-written halves are `SyncManager.AsWrittenImportRollsBack`, `ExportFiles.AsWrittenExportFails` and `ImportFiles.AsWrittenVerifyFails`.
- UpdateStatusCounted (SyncManager.UpdateStatusCounted): states the update on the corrected table. As written the UPDATE raises, the transaction is rolled back, and the exception propagates.
- UpdateFileStatus (SyncManager.Manager.UpdateFileStatus): writes `error_message`, which the as-written table lacks; as written it raises and changes nothing.
- ExportEntry (ExportFiles.ExportEntry): records each outcome on the corrected table. As written every path ends in a raising update, so nothing is recorded; the copy, when reached, stays.
- ExportEntryCompletes (ExportFiles.ExportEntryCompletes): is about the corrected table. As written no entry is ever completed.
- ExportAll (ExportFiles.ExportAll): loops over the corrected `ExportEntry`. As written the first entry with a prefix raises out of the loop.
- ExportAllBound (ExportFiles.ExportAllBound): holds for the corrected loop. As written the loop ends with false at the first entry with a prefix.
- PrepareExportResult (ExportFiles.PrepareExportResult): is about the corrected run. As written `prepare_export` returns true only for a list without pending entries; `ExportFiles.AsWrittenExportFails` states what it does otherwise.
- UpdateExportStatus (ExportFiles.FileExporter.UpdateExportStatus): writes `error_message`; as written the UPDATE raises and changes nothing.
- ExportOne (ExportFiles.FileExporter.ExportOne): is proved against the corrected `ExportEntry`. As written it copies the file, when it gets that far, and then raises.
- PrepareExportFiles (ExportFiles.FileExporter.PrepareExportFiles): is proved against the corrected `PrepareExport`; the code as written is `PrepareExportAsWritten`, which returns false after at most one copy.
- VerifyEntry (ImportFiles.VerifyEntry): records each outcome on the corrected table. As written the status update raises.
- VerifyAll (ImportFiles.VerifyAll): loops over the corrected `VerifyEntry`; the code as written is `VerifyAllAsWritten`.
- VerifyAllIff (ImportFiles.VerifyAllIff): is about the corrected dry run. As written the dry run fails for every list with an entry that has a prefix (`AsWrittenVerifyFails`).
- VerifyEntryStatus (ImportFiles.VerifyEntryStatus): is about the corrected table. As written the status update raises and nothing is recorded.
- VerifyFile (ImportFiles.FileImporter.VerifyFile): is proved against the corrected `VerifyEntry`; as written it raises out of the dry run.
- VerifyImportFiles (ImportFiles.FileImporter.VerifyImportFiles): is proved against the corrected `VerifyAll`; as written it returns false for every list with an entry that has a prefix.
- UpdateFileStatus (ImportFiles.FileImporter.UpdateFileStatus): writes `error_message`; as written the UPDATE raises and changes nothing.
- FailedOf (ImportFiles.FailedOf): reads `error_message` from the corrected table. As written the SELECT raises and `get_failed_imports` returns `[]`.
- FailedOfIff (ImportFiles.FailedOfIff): is about the corrected table. As written the result is always `[]`.
- GetFailedImports (ImportFiles.FileImporter.GetFailedImports): is proved against the corrected `FailedOf`; as written it always returns `[]`.
- DetailsAreListed (AnalyzeSync.DetailsAreListed): is about the corrected table. As written the SELECT of `error_message` raises and `get_export_list_details` returns `[]`.
- GetExportListDetails (AnalyzeSync.SyncAnalyzer.GetExportListDetails): is stated on the corrected table; as written it always returns `[]`.
- JudgeMoves (SyncManager.JudgeMoves): finds the imported file by substring containment of `_<key>.`. `Path.glob(f"*_{key}.*")` reads `*`, `?` and `[...]` in a key as wildcards, so a URL key that holds them (a query string's `?`, say) can match other names or miss its own file. The model agrees with the glob for keys without these characters, such as every hash.
- JudgeMoves (SyncManager.JudgeMoves): builds the target as the string `images/` + column + `/` + name. `Path("images") / value / name` normalises the join: an empty value gives `images/<name>`, a repeated or trailing `/` and a `.` segment collapse, and an absolute value such as `/x` replaces the `images` prefix. The model is exact only for a non-empty author or licence that holds no `/` and is not `.`; for other values the stored `local_path` and the move target differ from the source's.
- ProcessFile (SyncManager.Manager.ProcessFile): moves files to `Judge`'s target, so it has JudgeMoves's gap for empty, `/`-bearing, `.`-segment and absolute column values.
- SweepIff (SyncManager.SweepIff): deletes temporary files by the same substring test, with the same gap for keys that hold `*`, `?` or `[`.
- UnlinkMatches (SyncManager.Manager.UnlinkMatches): deletes by the same substring test, with the same gap for glob metacharacters.
- Verifies (ImportFiles.Verifies): counts matches by the same substring test, with the same gap for glob metacharacters in a key.
- ExportNameMatchesImport (ExportFiles.ExportNameMatchesImport): shows that the export name contains the importer's pattern as a substring. When the key holds `[`, the real glob reads a character class there and may not match the exported name.
- `COUNT`/`SUM` over no rows returns `NULL` sums. The model keeps them as `None` in `ListStatsOf` and `VerifyImportAsWritten`.
- A metadata row whose author is NULL raises in `Path("images") / None`. It is modelled as the failure with that message.
- `mkdir` and `rename` failures beyond a missing row are not modelled.
- AnalyzeRemoteDb (SyncManager.Manager.AnalyzeRemoteDb): is proved against the corrected `Analyze` of the Findings row for sync_manager.py:117-119. The code as written is `AnalyzeAsWritten`, which reports every remote url as missing.
- AnalyzeRemoteDb (AnalyzeSync.SyncAnalyzer.AnalyzeRemoteDb): calls the manager's method, so it too uses the corrected `Analyze`.
- ProcessFile (SyncManager.Manager.ProcessFile): judges with the author column, as the code's comment intends, not with `metadata[6]` (the licence, Findings row for sync_manager.py:264); it records the status in the corrected table that has `error_message`. The code as written is `ProcessImportedAsWritten`.
- ProcessImportedFiles (SyncManager.Manager.ProcessImportedFiles): loops over `ProcessFile`, so it has the same two corrections.
- CleanupSyncFiles (SyncManager.Manager.CleanupSyncFiles): is proved against the corrected `Cleanup` of the Findings row for sync_manager.py:378-379; the code as written is `CleanupAsWritten`, which raises on the first row.
- ImportFilesRun (ImportFiles.FileImporter.ImportFilesRun): runs the corrected processing and clean-up, so its result is the corrected `Import`; the code as written is `ImportAsWritten`, about which `ImportFiles.AsWrittenImportReportsFailure` and `ImportFiles.AsWrittenCleanupFailsImport` state what it does.

sync/src/sync_manager.py:

- Authors containing `/`, or empty, are not modelled, because path joining would then change the directory structure.
- Failures of `mkdir` or `shutil.move` are not modelled.
- ProcessSyncedImage (SyncIngest.Manager.ProcessSyncedImage): is proved against `Process`, which shards with the corrected `Shard` of the Findings row for sync/src/sync_manager.py:88-91, not with `ShardAsWritten`.
- Process (SyncIngest.Process): uses the corrected `Shard`; `AsWrittenShardStaysZero` shows what the as-written rule does.
- Appending the same tag, album or collection to an image twice writes one association row. The session reads an object appended twice to a collection as one addition, and the query of the next loop step flushes the first append. `SyncIngest.Links` models this as one row per distinct id.
- The I/O of `calculate_file_hash` is a parameter: the digest of the synced file and of the moved file.
- Album and collection dictionaries with keys other than the four columns, which `Album(**album_data)` would reject, are not modelled.
- Exception texts are fixed strings: the `IntegrityError` text is modelled by its first line only; the `KeyError` texts are exact.
- `sync_date` (the clock) is left out. Image ids are positions plus one; tag, album and collection ids come from one shared counter, not one per table.

optimize_workers.py:

- Speeds and success rates are exact reals, not floats. The metrics of a test are an oracle, because they are timed disk-size measurements.
- JSON load and save failures, and non-integer keys in the loaded file, are not modelled.
- FindTestPage (OptimizeWorkers.WorkerOptimizer.FindTestPage): the search loop terminates only when some later page has a new image. The method requires such a page (a ghost `target`) and says nothing otherwise.
- TestWorkerCount (OptimizeWorkers.WorkerOptimizer.TestWorkerCount): calls `FindTestPage`, so it carries the same ghost `target` requires; without a later page with a new image the source loops forever and the model says nothing.
- `optimize_workers.py:213-231`: a best count of `0` is treated as none, as `if best_worker_count:` does.
- The `if not metrics` skip never fires, because the metrics dictionary is never empty. It is not modelled.
- `run_optimization` and `main` are not modelled.
- `LIKE '%<id>%'` is modelled as substring containment. Its `_` and `%` wildcards inside the id are not.

## Findings

| source | as written | input that shows it | evidently intended | confidence | as-written member | corrected member |
|---|---|---|---|---|---|---|
| indafoto.py:86-87 | counts the regular files directly in the author directory, but every image is saved in a numbered subdirectory, so the count is always 0 | any author with 1000 saved images: all of them are in `<author>/0` | shard number = images of the author div 1000 (`FILES_PER_DIR`) | high, not executed | Indafoto.ImageDirectoryAsWritten, Indafoto.AsWrittenShardIsZero, Indafoto.AsWrittenShardOverflows | Indafoto.ImageDirectory, Indafoto.ShardsStayBounded |
| license_crawler.py:156 | re-raises an HTTP error when the message text contains any listed code | a 404 on page 25, whose URL ends `page_offset=500` | re-raise only when the status code is listed | high, not executed | LicenseCrawler.AsWrittenReraisesNotFound, LicenseCrawler.AsWrittenReraisesMention | LicenseCrawler.CatchHttpError, LicenseCrawler.NotFoundSkipsPage, LicenseCrawler.RaisesOnlyOnListedCode |
| author_details_scraper.py:415-417 | `OR error IS NOT NULL` subsumes `error IS NOT NULL AND retry_count < 3` | an author with an error and retry count 3 | authors that failed 3 times are not selected again | high, not executed | AuthorDetails.AsWrittenIgnoresRetryLimit, AuthorDetails.ExhaustedAuthorPicked | AuthorDetails.AuthorsToProcessSpec |
| sync_manager.py:117-119 | three `fetchall()` calls on one cursor, so the second and third return nothing | a local image with URL `u` and a remote image with URL `u`: `u` is reported missing | local URLs and page URLs read from the same query | high, not executed | SyncManager.AsWrittenAllUrlsMissing, SyncManager.AsWrittenReportsKnownUrl | SyncManager.MissingUrls |
| sync_manager.py:264, sync_manager.py:313 | `metadata[6]`, commented as the author, is the seventh column of `images` | any import whose metadata row has a licence: the file moves to `images/<licence>/` | the row's `author` column | medium, not executed | SyncManager.SixthColumnIsLicense | SyncManager.JudgeMoves |
| sync_manager.py:68-79, sync_manager.py:336-340 | the updates set `error_message`, which `sync_export_files` does not have | any list with an entry not yet completed: the first status update raises and the import rolls back; the exporter and the dry run stop with false at the first entry with a prefix | the table has an `error_message` column | high, not executed | SyncManager.AsWrittenImportRollsBack, ImportFiles.AsWrittenImportReportsFailure, ExportFiles.AsWrittenExportFails, ImportFiles.AsWrittenVerifyFails | SyncManager.ProcessEntryRecords, SyncManager.ProcessImportedKeeps, ExportFiles.ExportEntryCompletes, ImportFiles.VerifyAllIff |
| sync_manager.py:378-379 | calls `startswith` on each fetched row, which is a tuple | a non-empty list whose entries are all completed: processing succeeds, cleanup raises, and `import_files` returns False | take `export_path` out of the row | high, not executed | SyncManager.AsWrittenCleanupFails, ImportFiles.AsWrittenCleanupFailsImport | SyncManager.CleanupSweeps, ImportFiles.ImportResult |
| import_files.py:147-165 | `SUM` over no rows is NULL, and the aggregate row always exists, so the zeros fallback never applies | a list id with no entries: `completed` and `failed` are `None` | zeros for an empty list | high, not executed | ImportFiles.AsWrittenEmptyListHasNoCounts | ImportFiles.VerifyImportBounds |
| sync/src/sync_manager.py:88-91 | `glob('*')` counts the shard directories, not the files | an author whose only entry is the directory `0`: every image goes to `0` | shard = author's files div 1000 | high, not executed | SyncIngest.AsWrittenShardStaysZero | SyncIngest.MoveKeepsShardsBounded, SyncIngest.ProcessKeepsShards |
