# SEC form 4 downloader, modelled in Dafny

This project models the downloader of SECForm4Analysis (`downloader/main.go`).
The downloader fetches the EDGAR daily index page of one quarter and picks the
links to the quarter's daily *master files*. It reads each master file through a
disk cache and parses its `CIK|Company Name|Form Type|Date Filed|File Name` lines
into `DailyFilingsRow` records. It then keeps the form 4 and 4/A filings (insider
trading reports). For each of them it reads the filing document through the same
cache, cuts out the embedded `<XML>` payload, and asks an XML query for the
issuer's name.

The model is purely functional:

- Strings are `seq<char>`. Go's `strings.Split`, `Index`, `Join`, `ReplaceAll`,
  `HasPrefix` and `TrimSpace` are defined with Go's semantics.
  - `Split` is left to right and non-overlapping.
  - `TrimSpace` uses the full `unicode.IsSpace` set.
  - `fmt.Sprintf("%d")` is also defined.
- The network is a function from URL to the sequence of attempts a request would
  meet. The filesystem is a map from path to content, plus two predicates saying
  whether writing or reading a path succeeds.
- The HTML parser (goquery) is a function from page text to its anchors. The XML
  parser and query (xmlquery) are a function from payload to what they report.

| file | module | models |
|---|---|---|
| `results.dfy` | `Results` | `Option` and `Result` |
| `seqs.dfy` | `Seqs` | order-preserving `Filter` (`lo.Filter`) |
| `go_strings.dfy` | `GoStrings` | the Go string functions the downloader calls |
| `master_index.dfy` | `MasterIndex` | `parseDailyMasterFile` and accession-number normalisation |
| `form_filter.dfy` | `FormFilter` | the form 4 / 4/A filter in `main` |
| `xml_region.dfy` | `XmlRegion` | the `<XML>` … `</XML>` isolation in `main` |
| `fetcher.dfy` | `Fetcher` | `DownloadSECFile`: retries, status ladder, body decoding |
| `cache.dfy` | `Cache` | the read-through disk cache and the form 4 cache path |
| `loops.dfy` | `Loops` | the loop shape shared by the master-file loop and the filing loop |
| `period.dfy` | `Period` | `GetFilingsForYearQuarter`: link selection, master-file paths, concatenation |
| `pipeline.dfy` | `Pipeline` | `main`: the filter and the per-filing loop |

Three behaviours of the code that a reader might not expect, all modelled as written:

- An index line with a trailing `|` splits into six parts, so it is skipped rather than parsed.
- A 429 response is returned as `ErrRateLimited` at once. Only transport errors are retried.
- Accession normalisation is not idempotent in general: `.-txt.txt` normalises to `.txt`, and `.txt` normalises to the empty text.

Three Go crashes are modelled as error values.

- **Short master file.** `rows[7:]` on a master file of fewer than seven lines becomes `TooFewLines`. `parseDailyMasterFile` itself requires seven lines.
- **Nil response.** After six transport failures, `resp.StatusCode` dereferences a nil `resp` (downloader/main.go:141-154). `Fetcher.DownloadAsWritten` models that crash. Every download in the pipeline uses the corrected `Fetcher.DownloadSECFile`, which returns `ErrTransport` instead. This covers the index page in `Period.GetFilingsForYearQuarter` (downloader/main.go:227) and every cached lookup through `Cache.Download`: master files (downloader/main.go:257) and filings (downloader/main.go:67). The crash is reported under Findings.
- **Missing quarter marker.** Indexing the split of a link that lacks `QTR<q>/` becomes `NoQuarterInLink`. `Period.GetFilingsForYearQuarter` proves this error cannot arise for links taken from the quarter's own page.

## Model

| member | source | states |
|---|---|---|
| MasterIndex.ParseDailyMasterFile | downloader/main.go:189-224 | needs at least seven lines, as `rows[7:]` does; yields at most one row per line after the preamble; every row is well formed (no field holds `\|`, accession derived from the file name) and free of line breaks |
| MasterIndex.HeaderIgnored | downloader/main.go:191-193 | the seven preamble lines are dropped whatever they say, and the rest of the file is parsed line by line |
| MasterIndex.ParseLine | downloader/main.go:197-220 | a line yields a row only when the row is well formed and its five fields joined by `\|` give back the line |
| MasterIndex.ParseLineIff | downloader/main.go:197-220 | a line yields row `r` exactly when `r` is well formed and the line is its five fields joined by `\|`, so the fields are the parts verbatim and a CIK keeps its leading zeros |
| MasterIndex.ParseLineSound | downloader/main.go:201-220 | a parsed row is well formed and renders back to its line |
| MasterIndex.ParseLineComplete | downloader/main.go:201-220 | the line of a well-formed row parses to that row |
| MasterIndex.ParseLineIffFourPipes | downloader/main.go:197-205 | a line yields a row exactly when it holds four `\|` characters, so an empty line never does |
| MasterIndex.WrongFieldCountSkipped | downloader/main.go:201-205 | a line of `\|`-free fields whose count is not five yields no row |
| MasterIndex.TrailingPipeSkipped | downloader/main.go:201-205 | five fields with a trailing `\|` give six parts and are skipped |
| MasterIndex.FiveFieldLine | downloader/main.go:201-220 | five `\|`-free fields yield the row holding them, with the accession number of the fifth |
| MasterIndex.ParseLines | downloader/main.go:197-223 | the rows of a run of lines are at most one per line and all well formed |
| MasterIndex.ParseLinesConcat | downloader/main.go:197-223 | lines are parsed independently and in order: the rows of `a + b` are those of `a` followed by those of `b` |
| MasterIndex.ParseLinesSingle | downloader/main.go:197-223 | a single line contributes its row or nothing |
| MasterIndex.RenderParse | downloader/main.go:189-224 | round trip: a preamble plus the rendered lines of well-formed rows parses back to exactly those rows, in order |
| MasterIndex.RenderedLinesParse | downloader/main.go:197-223 | round trip on the lines alone |
| MasterIndex.FileStem | downloader/main.go:207 | the text before the first `.txt` holds no `.txt` |
| MasterIndex.LastSegment | downloader/main.go:208-209 | the last `/`-segment holds no `/` |
| MasterIndex.Dehyphen | downloader/main.go:210 | `ReplaceAll(s, "-", "")` leaves no hyphen |
| MasterIndex.DehyphenFilters | downloader/main.go:210 | `ReplaceAll(s, "-", "")` is the characters of `s` other than `-`, in order |
| MasterIndex.AccessionNumber | downloader/main.go:207-210 | the accession number never holds `-` or `/` |
| MasterIndex.StemAt | downloader/main.go:207 | the stem is the file name up to the first occurrence of `.txt`, or all of it when there is none |
| MasterIndex.LastSegmentAt | downloader/main.go:208-209 | the last segment of a path starts just after its last `/`, or is the whole path when there is none |
| MasterIndex.AccessionOfSpan | downloader/main.go:207-210 | for every file name, the accession number is its characters from just after the last `/` before the first `.txt`, up to that `.txt` (or the end), with the hyphens dropped |
| MasterIndex.AccessionOfSegments | downloader/main.go:207-210 | for `seg/…/seg.txt` with dot-free segments it is the hyphen-free last segment |
| MasterIndex.AccessionOfEdgarPath | downloader/main.go:207-210 | for `d1/d2/d3/p1-p2-p3.txt` it is `p1 + p2 + p3` |
| MasterIndex.AccessionExample | downloader/main.go:207-210 | `edgar/data/320193/0000320193-22-000050.txt` gives `000032019322000050` |
| MasterIndex.AccessionIdempotent | downloader/main.go:207-210 | normalising again changes nothing when no `.txt` is left after the first pass |
| MasterIndex.AccessionNotIdempotentInGeneral | downloader/main.go:207-210 | `.-txt.txt` normalises to `.txt`, which normalises to the empty text |
| MasterIndex.HyphenCanFormSuffix | downloader/main.go:207-210 | a stem `a-b` whose halves spell `.txt` normalises to `.txt`, because the hyphen is removed after the suffix is cut |
| MasterIndex.DehyphenJoin | downloader/main.go:210 | hyphen-joined hyphen-free pieces lose exactly the joining hyphens |
| FormFilter.FilterForm4 | downloader/main.go:49-51 | the result is a subsequence of the input; every kept row is form `4` or `4/A`; every such row is kept as often as it occurs |
| FormFilter.IsForm4 | downloader/main.go:50 | a kept form type starts with `4`, and is either `4` alone or `4` followed by `/A` |
| FormFilter.FilterForm4Membership | downloader/main.go:49-51 | a row is kept exactly when it is listed and is form `4` or `4/A` |
| FormFilter.FilterForm4Concat | downloader/main.go:49-51 | the filter distributes over concatenation |
| FormFilter.FilterForm4Idempotent | downloader/main.go:49-51 | filtering twice is filtering once |
| FormFilter.OtherFormsDropped | downloader/main.go:49-51 | a row of any other form is dropped wherever it stands |
| FormFilter.FilterForm4Example | downloader/main.go:49-51 | of forms `4`, `4/A`, `3`, `5` the first two are kept, in order |
| XmlRegion.IsolateSucceedsIffWellDelimited | downloader/main.go:91-102 | isolation succeeds exactly when `<XML>` occurs once and the text after it holds `</XML>` once |
| XmlRegion.Isolate | downloader/main.go:91-102 | a payload that is cut out holds neither `<XML>` nor `</XML>` |
| XmlRegion.IsolateFrames | downloader/main.go:91-102 | on success the content is `pre + <XML> + body + </XML> + post`, and the body holds neither marker |
| XmlRegion.IsolateFindsFrame | downloader/main.go:91-102 | conversely, a content framed that way isolates to that body |
| XmlRegion.TwoOpeningMarkersSkipped | downloader/main.go:91-95 | two `<XML>` markers make the filing be skipped |
| XmlRegion.NoOpeningMarkerSkipped | downloader/main.go:91-95 | no `<XML>` marker makes the filing be skipped |
| Fetcher.ClassifyStatus | downloader/main.go:154-166 | 404, 429, 403 and any other code above 299 are told apart in that order; exactly the codes up to 299 proceed |
| Fetcher.Interpret | downloader/main.go:154-183 | content is returned only for a status up to 299 whose body decoded to it; every status above 299 is its ladder's error |
| Fetcher.DownloadSECFile | downloader/main.go:141-186 | the download reports a transport error exactly when all six attempts fail in transport |
| Fetcher.FirstResponse | downloader/main.go:141-152 | the attempt that decides a download is the first one among the six that gets a response, every earlier one having failed in transport; there is none exactly when all six fail in transport |
| Fetcher.DownloadAsWritten | downloader/main.go:141-166 | the source crashes exactly when all six attempts fail in transport |
| Fetcher.CorrectedAgreesWhenNoPanic | downloader/main.go:141-186 | whenever the source does not crash, the corrected download returns what it does |
| Fetcher.AllTransportFailuresPanic | downloader/main.go:141-154 | six transport failures crash the source and give `ErrTransport` in the corrected download |
| Fetcher.TransportFailuresRetried | downloader/main.go:142-152 | after fewer than six transport failures the first response decides the download |
| Fetcher.RateLimitNotRetried | downloader/main.go:142-159 | a 429 response gives `ErrRateLimited` without a retry |
| Fetcher.ResponsesNotRetried | downloader/main.go:142-166 | any response ends the retry loop |
| Fetcher.OnlySixAttempts | downloader/main.go:150 | only the first six attempts matter: one try and five retries |
| Fetcher.ContentOnlyFromSuccess | downloader/main.go:154-186 | returned content always comes from an attempt with status up to 299 whose body decoded to it |
| Cache.ReadThrough | downloader/main.go:254-276 | a hit returns the stored content without a download; a miss downloads once, stores the content under the path and returns it; stored entries never change; a failed lookup leaves the disk alone; the lookup fails exactly when the read, the download or the write fails |
| Cache.SecondLookupHits | downloader/main.go:64-86 | when the path is readable, looking up a path just filled is a hit with the same content and no download; without that proviso the second read can fail as at downloader/main.go:83-86, which `Cache.ReadThrough` covers |
| Cache.LookupAllExtends | downloader/main.go:250-279 | a run of lookups never changes a stored entry |
| Cache.LookupAll | downloader/main.go:250-279 | a successful run of lookups returns one content per requested path |
| Cache.LookupAllStores | downloader/main.go:250-279 | after a successful run every requested path holds the content returned for it |
| Cache.LookupAllKeys | downloader/main.go:250-279 | a successful run adds exactly the requested paths that were missing |
| Cache.DownloadsAreMissingPaths | downloader/main.go:250-279 | a successful run downloads once per distinct path that was missing and never otherwise |
| Cache.Form4PathInjective | downloader/main.go:64 | distinct underscore-free CIKs or distinct accession numbers give distinct form 4 paths |
| Cache.Form4Path | downloader/main.go:64 | the path is 15 characters longer than the CIK and the accession number together, and both can be read back from it at fixed offsets |
| Cache.Form4PathCollision | downloader/main.go:64 | CIK `1_2` with accession `3` and CIK `1` with accession `2_3` share a path |
| Loops.Then | downloader/main.go:277-278 | appending a run's results succeeds exactly when both parts do, concatenating them in order; a first failure is kept |
| Loops.LoopAppend | downloader/main.go:250-279 | looping over `xs + ys` is looping over `xs` and then over `ys` on the disk left behind |
| Loops.LoopExtends | downloader/main.go:250-279 | a loop of steps that keep stored entries keeps them |
| Loops.LoopLooksUp | downloader/main.go:250-279 | a successful loop of cache steps is a successful run of lookups with the same disk and downloads |
| Loops.LoopDecided | downloader/main.go:59-120 | a successful loop gives one result per item, in order, each decided by the final disk's content under the item's path |
| Period.QuarterMarker | downloader/main.go:254 | `QTR<q>/` starts with its only `Q` |
| Period.IndexUrl | downloader/main.go:28 | the index URL lies under the daily-index base and ends with `QTR<q>/`, with no `Q` before that marker |
| Period.IsMasterText | downloader/main.go:241 | an accepted anchor text has `master.` right after its leading white space |
| Period.YearPartHasNoQ | downloader/main.go:28 | the index URL up to the quarter marker holds no `Q` |
| Period.SelectLinks | downloader/main.go:240-244 | at most one link per anchor |
| Period.SelectLinksMembership | downloader/main.go:240-244 | a URL is selected exactly when some anchor with an `href` and an accepted text maps to it |
| Period.SelectLinksFilters | downloader/main.go:240-244 | the links are the accepted anchors in page order, each `href` appended to the base |
| Period.SelectLinksConcat | downloader/main.go:240-244 | links are selected anchor by anchor |
| Period.PaddedTextSelected | downloader/main.go:241 | text `master.…` padded with white space is accepted; an anchor without `href` is not |
| Period.MasterPath | downloader/main.go:254 | a link has a cache path exactly when it contains `QTR<q>/` |
| Period.MasterPathOfLink | downloader/main.go:242-254 | a link built from the quarter's index URL is cached under `masterfiles/` plus its `href` up to any later marker |
| Period.SelectedLinksHavePaths | downloader/main.go:240-254 | every link selected from the quarter's page has a cache path |
| Period.OneFile | downloader/main.go:251-278 | a pass keeps stored entries, downloads at most once, and fails with `NoQuarterInLink` when the link lacks the marker |
| Period.OneFileFilings | downloader/main.go:251-278 | a successful pass is a successful lookup of the link's path, and its filings are the parse of the file now on disk |
| Period.ResolveFiles | downloader/main.go:250-279 | the loop over master files never changes a stored entry |
| Period.ResolveFilesAppend | downloader/main.go:250-281 | the period's filings are each file's filings concatenated in link order, and the first failure ends the loop with no filings |
| Period.GatheringDownloadsMissingFiles | downloader/main.go:250-279 | a successful loop downloads once per distinct missing master-file path |
| Period.LinksWithPathsFindMarker | downloader/main.go:250-254 | links that all have a path never fail for lack of one |
| Period.GetFilingsForYearQuarter | downloader/main.go:226-282 | the index page is downloaded uncached, and its failure leaves the disk unchanged; stored entries never change; a missing quarter marker can never be the error |
| Pipeline.Dispose | downloader/main.go:91-118 | no payload means skip; a parse failure is fatal; a query error or no issuer means skip; otherwise the issuer's name is reported |
| Pipeline.FilingUrl | downloader/main.go:67 | the filing URL lies under `https://www.sec.gov/Archives/`, and what follows is exactly the file name from the index |
| Pipeline.OneFiling | downloader/main.go:59-120 | a pass keeps stored entries and downloads at most once |
| Pipeline.OneFilingDecided | downloader/main.go:63-120 | a successful pass is a lookup of `form4_xml/<cik>_<acc>.xml`, and its disposition is decided by the document stored there |
| Pipeline.ProcessFilings | downloader/main.go:59-120 | the filing loop never changes a stored entry |
| Pipeline.ProcessFilingsDecided | downloader/main.go:59-120 | a loop that finishes gives one disposition per filing, in order, decided by the document cached under the filing's path |
| Pipeline.ProcessFilingsDownloads | downloader/main.go:59-86 | a loop that finishes downloads once per distinct missing document path |
| Pipeline.ProcessFilingsAppend | downloader/main.go:59-120 | filings are handled in order, and a fatal error ends the loop |
| Pipeline.RunPeriod | downloader/main.go:40-120 | the index page is always fetched; a failure to gather filings is fatal before any filing is handled; stored entries never change |
| Pipeline.RunDownloader | downloader/main.go:40-42 | the same for 2022 Q2, the period `main` asks for |
| Pipeline.RunPeriodCoversForm4 | downloader/main.go:42-120 | a finished run gives exactly one disposition to each form 4 or 4/A filing of the period, in index order, each decided by its cached document |
| GoStrings.Split | downloader/main.go:191 | the pieces join back to the input and none contains the separator |
| GoStrings.Index | downloader/main.go:191 | the result is the first position where the separator occurs, or -1 exactly when it does not occur |
| GoStrings.SplitHead | downloader/main.go:207 | the first piece of a split runs up to the first occurrence of the separator |
| GoStrings.SplitLast | downloader/main.go:208-209 | the last piece of a split on a character starts after its last copy |
| GoStrings.SplitJoin | downloader/main.go:201 | for a border-free separator, splitting a join of separator-free pieces gives the pieces back |
| GoStrings.SplitTwoIffOnce | downloader/main.go:91-97 | a border-free separator splits into two pieces exactly when it occurs once |
| GoStrings.SplitCharCount | downloader/main.go:201-202 | a one-character separator gives one more piece than its occurrences |
| GoStrings.ReplaceAllDeletes | downloader/main.go:210 | replacing a character with nothing keeps every other character, in order |
| GoStrings.ReplaceAll | downloader/main.go:210 | a text holding no occurrence of the target is left unchanged |
| GoStrings.HasPrefix | downloader/main.go:241 | true exactly when the string is the prefix followed by some rest |
| GoStrings.TrimSpace | downloader/main.go:241 | the result is a slice of the input with only white space outside it and non-space ends |
| GoStrings.TrimSpaceAround | downloader/main.go:241 | trimming `spaces + word + spaces` gives the word when its ends are not space |
| GoStrings.FormatIntValue | downloader/main.go:242 | `%d` formatting reads back to the number, so distinct numbers format differently |
| GoStrings.FormatInt | downloader/main.go:227 | `%d` formatting gives only a minus sign and decimal digits |
| Seqs.FilterIsSubsequence | downloader/main.go:49-51 | filtering yields a subsequence |
| Seqs.FilterKeepsAll | downloader/main.go:49-51 | filtering keeps each wanted element as often as it occurs |

## Left out

- Request construction, headers, the random User-Agent, the 30-second timeout and the HTTP client (downloader/main.go:128-140). These are network I/O. A request is a function from URL to the attempts it meets. When `http.NewRequestWithContext` fails on a malformed URL, the source returns that error before any attempt (downloader/main.go:131-135). No download in the model fails that way: every URL the downloader builds is assumed well formed.
- A transport failure that still carries a response. Go's client returns one alongside a redirect-policy error, which makes downloader/main.go:154-171 read that response's status or return the error. In the model a transport failure never has a response.
- The rate limiter and the 100 ms back-off delay (downloader/main.go:26, 143, 150). They only affect timing. Only the retry count is modelled.
- gzip decompression and `ioutil.ReadAll` (downloader/main.go:173-183). They are library calls and appear as the outcomes `Decoded`, `GzipFailure` and `ReadFailure`.
- goquery parsing and `s.Text()` (downloader/main.go:233-240). These are a foreign library, modelled as a function from the page to its anchors.
- xmlquery parsing and the issuer query (downloader/main.go:104-118). These are a foreign library, modelled as a function from the payload to its outcome.
- `os.Stat`, `ReadFile` and `WriteFile`. The filesystem is a map. A path absent from the map is what `os.Stat` reports as missing. Any other path is read, so a `Stat` error other than "not exist" leads to a read as in the source.
- A failed `WriteFile` that leaves a partial file on disk. The model leaves the disk unchanged on a write failure.
- The filesystem and network oracles are fixed functions of the path and the URL. Repeating a request meets the same attempts.
- Logging, `spew.Dump`, the unused `csvData` header and the `Parsed i/n` progress line (downloader/main.go:46-57, 120). They have no effect on results.
- Contents are `string` (`seq<char>`), not bytes. Every separator the code uses is ASCII. Invalid UTF-8 is not modelled.
- `log.Fatal` ends the process. In the model it is an `Err` value carrying the reason.
- Period.SelectLinks: the anchors are whatever the HTML parser returns. How goquery walks the document and computes `Text()` is not part of this model.

## Findings

| source | as written | input that shows it | evidently intended | confidence | as-written member | corrected member |
|---|---|---|---|---|---|---|
| downloader/main.go:141-154 | when all six attempts fail in transport, `resp` is still nil and `resp.StatusCode` dereferences it, crashing the program | every attempt a transport failure (`Fetcher.AllTransportFailuresPanic`) | return the retry loop's error, which the callers check | high, not executed | Fetcher.DownloadAsWritten | Fetcher.DownloadSECFile |
