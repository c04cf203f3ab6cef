# Form 4 ingestion, modelled in Dafny

This project models the filing-ingestion half of an insider-trading
scraper for SEC Form 4 filings. The modelled pipeline runs in five steps:

1. Select filing URLs from the EDGAR "current Form 4" Atom feed. An entry
   is kept when its title mentions the issuer and its link points into
   the archives. The earlier variant also drops entries whose readable update time is not
   today.
2. Admit only the URLs not yet seen today, against two day-scoped files:
   the seen URLs and their timestamps.
3. Fetch each admitted filing and cut out its XML payload. Extract the
   fields with a first-occurrence tag lookup and build a record. Skip
   filings whose amounts are not numbers.
4. Filter the records by the trading criteria: minimum value, officer or
   director role, purchase, and excluded transaction codes.
5. Separately, walk the EDGAR daily master indexes from `today - days_back`
   to `today` and collect the form `4` rows of each index.

Modules, one per concern:

| file | module | models |
|---|---|---|
| `wrappers.dfy` | `Wrappers` | `Option` and `Result`. An exception that escapes a function is an `Err`. |
| `text.dfy` | `Text` | The Python string operations the code uses: `find`, `in`, `startswith`/`endswith`, `strip` (Unicode white space), `split`, `replace` and slicing with clamped indices. |
| `numbers.dfy` | `Numbers` | Decimal digits and the subset of `float()` the payloads need. |
| `calendar.dfy` | `Calendar` | Proleptic Gregorian dates: next and previous day, `timedelta` steps, quarters and `%Y%m%d`. |
| `subsequences.dfy` | `Subsequences` | Order-preserving subsequences. |
| `dedup.dfy` | `Dedup` | The admission of unseen URLs and the daily files. |
| `payload.dfy` | `Form4Payload` | URL rewrite, XML section, `extract_tag`, record building, and the unpacking loop. |
| `eligibility.dfy` | `Eligibility` | The four checks of `filter_filings` and its loop. |
| `atom.dfy` | `AtomFeed` | The entry loop of `fetch_recent_form4`, with and without the same-day check. |
| `formparser.dfy` | `FormParser` | The class `Form4Parser` of `FormParser.py`. |
| `form4_atom_test.dfy` | `Form4AtomTest` | The module-level variant in `tests/Form4test-atom.py` and its script run. |
| `form4_index.dfy` | `Form4Index` | `get_form4_filings` of `Form4test.py`. |

Every loop of the source is a `method` with a loop. Each such method's
`ensures` ties its result to a back-recursive specification function, and
the lemmas state what the source promises about that function. Outside
effects are parameters:

- The network is a function from URL to response.
- The feed file is a `Feed` value.
- The outcome of each file operation is a `FileIo` flag.
- `today` is a date argument.

Three behaviours of the code are worth stating up front:

- **Role flags are strings.** The filter keeps the extracted texts of
  `isOfficer` and `isDirector`. It skips a filing only when both texts are
  `false` or `0`, so a missing flag (`N/A`) never excludes a filing.
- **An unreadable daily file returns the batch.** When the stored URL file
  exists but cannot be read, the update returns the whole batch unchanged
  and leaves both files alone.
- **No positive-amount check.** Nothing checks that the shares or the price
  of a filing is positive.

## Model

| member | source | states |
|---|---|---|
| Text.Find | FormParser.py:206-207 | `str.find`: -1 exactly when the pattern does not occur, otherwise the first index where it occurs |
| Text.Strip | FormParser.py:217 | `str.strip`: the result starts and ends with non-white-space (or is empty) and is no longer than the input |
| Text.StripSurrounded | FormParser.py:217 | stripping white space around a stripped text gives back that text |
| Text.SplitJoin | Form4test.py:42 | `split` on `\|` inverts joining with `\|` when no field contains the separator |
| Text.JoinSplit | Form4test.py:42 | joining the fields of a `split` restores the line |
| Text.ReplaceSuffix | FormParser.py:193-194 | `replace` of a pattern that occurs only as the suffix substitutes exactly that suffix |
| Text.PySlice | FormParser.py:208 | slicing with Python's index rules: in-range indices give the ordinary slice; a negative start counts from the end, so the `-1` of a failed `find` starts at the last character; the result is never longer than the text |
| Numbers.ParseFloat | FormParser.py:229-230 | `float()`: a text that is a plain run of digits once stripped, leading zeros allowed, reads as its decimal value; a text without a single digit is no number (`ValueError`) |
| Numbers.ParseFloatNatText | FormParser.py:229-230 | `float(str(n)) == n`: the decimal text of a natural number, without sign, point or leading zeros, reads back as that number |
| Calendar.NextDay | Form4test.py:56 | the next day is a valid date after the current one |
| Calendar.NextDayIsImmediate | Form4test.py:56 | no valid date lies strictly between a date and its next day, so stepping by one day skips no date |
| Calendar.PrevDay | Form4test.py:14 | the previous day is a valid date before the current one, and its next day is the current one |
| Calendar.ForwardBackward | Form4test.py:14-17 | walking forward `n` days from `today - n` days arrives at `today` |
| Calendar.WalkReachesToday | Form4test.py:17 | the `k`-th day from `today - days_back` is not after today exactly when `k <= days_back` |
| Calendar.ForwardIsLater | Form4test.py:14-17 | a start date after today (negative `days_back`) is strictly after it, so the loop runs zero times |
| Calendar.Quarter | Form4test.py:19 | the quarter is in 1..4 and contains the month |
| Calendar.CompactDateDigits | Form4test.py:20 | `%Y%m%d` is eight digits whose value is year·10000 + month·100 + day |
| Dedup.AdmitNew | FormParser.py:140-147 | the dedup loop returns the admitted URLs and timestamps, and the stored lists become the old lists followed by exactly those |
| Dedup.AdmittedIsFirstUnseen | FormParser.py:140-147 | a pair is admitted exactly when its URL is neither stored nor earlier in the batch: first occurrences of unseen URLs, in batch order |
| Dedup.AdmittedFresh | FormParser.py:141 | every admitted URL was absent from the stored list, and no URL is admitted twice |
| Dedup.AdmittedSubsequence | FormParser.py:140-147 | the admitted pairs are an order-preserving subsequence of the batch, with their timestamps |
| Dedup.AdmittedKnown | FormParser.py:145 | after admission, the stored URLs are exactly the old stored URLs and the batch's URLs |
| Dedup.AllKnownAdmitsNothing | FormParser.py:141-142 | a batch of stored URLs admits nothing |
| Dedup.AdmitTwiceAdmitsNothing | FormParser.py:140-147 | admitting the same batch a second time returns empty lists |
| Dedup.AdmittedUrlFromBatch | FormParser.py:144 | every admitted URL comes from the batch |
| Dedup.Zip | FormParser.py:140 | `zip` pairs equal positions and stops at the shorter list |
| FormParser.Form4Parser.FetchRecentForm4 | FormParser.py:71-111 | a missing or unparsable feed gives two empty lists; otherwise the loop fails exactly when some entry raises, and returns the URLs and timestamps of the kept entries in feed order |
| FormParser.Form4Parser.UpdateDailyUrls | FormParser.py:125-173 | with both files readable: the admitted pairs, with each file extended by them when its write succeeds; with the URL file present but unreadable: the batch, files unchanged; with no URL file: both files created from the whole batch, and an error when either creation fails |
| FormParser.Form4Parser.FilterFilings | FormParser.py:282-304 | the result is the eligible filings under the given minimum and codes |
| Form4Payload.FetchUrlOfIndexPage | FormParser.py:193-194 | a URL whose only `-index.htm` is its suffix is fetched with that suffix replaced by `.txt` |
| Form4Payload.FetchUrlChangesOnlyIndexPages | FormParser.py:193-196 | a URL is fetched unchanged exactly when it does not end in `-index.htm`; every index page URL is rewritten |
| Form4Payload.XmlPayloadOfWrappedDocument | FormParser.py:205-211 | for a document with an `<XML>` section, the payload runs from the XML declaration through `</XML>` |
| Form4Payload.ExtractTag | FormParser.py:213-223 | a missing opening or closing tag gives `N/A` |
| Form4Payload.ExtractPlainElement | FormParser.py:213-222 | the first element with plain text gives that text stripped |
| Form4Payload.ExtractValueElement | FormParser.py:213-221 | a field whose text starts, after white space, with `<value>v</value>` gives `v` stripped, whatever follows the value in the field (a footnote reference, say) |
| Form4Payload.BuildFiling | FormParser.py:225-250 | a record exists exactly when both the shares and the price extract to numbers; it carries those numbers and the URL and timestamp it was fetched for |
| Form4Payload.PurchasedOnlyWhenAcquired | FormParser.py:234 | a filing is a purchase only when its payload holds the opening and closing `transactionAcquiredDisposedCode` tags |
| Form4Payload.AcquiredElementIsPurchase | FormParser.py:234 | a payload whose first `transactionAcquiredDisposedCode` field holds `<value>A</value>`, with anything after it, is a purchase |
| Form4Payload.NotAvailableIsNoNumber | FormParser.py:223 | `float("N/A")` fails |
| Form4Payload.MissingAmountNoFiling | FormParser.py:229-230 | a payload without a shares or a price element yields no filing |
| Form4Payload.ParsedFilingsAppend | FormParser.py:190-256 | parsing two batches in turn gives the filings of each, concatenated |
| Form4Payload.ParseOne | FormParser.py:192-239 | a parsed filing carries the URL and the timestamp it was fetched for |
| Form4Payload.ParsedFilingsInBatchOrder | FormParser.py:190-256 | the filings come from the batch in batch order, at most one filing per pair of the batch, so never more filings than pairs |
| Form4Payload.ParsedFilingFromBatch | FormParser.py:238 | every filing's source URL is one of the input URLs |
| Form4Payload.UnpackUrls | FormParser.py:175-256 | the unpacking loop returns the parsed filings of the zipped batch; an empty batch gives none, and a failed fetch or number skips only that URL |
| Eligibility.IsEligible | FormParser.py:293-304 | a filing that passes is a purchase outside the excluded codes, is not marked `false`/`0` as both officer and director, and reaches the minimum value when one is set |
| Eligibility.EligibleMembers | FormParser.py:293-304 | a filing is kept exactly when it is an input filing that passes all four checks |
| Eligibility.EligibleSubsequence | FormParser.py:293-304 | the kept filings are an order-preserving subsequence of the input, never more of them |
| Eligibility.AllEligibleKeepsAll | FormParser.py:293-304 | when every filing passes, all are kept in order |
| Eligibility.NoneEligibleKeepsNone | FormParser.py:288-304 | when no filing passes (for example, no input), nothing is kept |
| Eligibility.MissingRoleDoesNotExclude | FormParser.py:298 | a missing role flag (`N/A`) never excludes a filing: only the value, purchase and code checks remain |
| Eligibility.ValueCheckOnlyNarrows | tests/Form4test-atom.py:293-295 | adding the value check only removes filings: the strict output is a subsequence of the lenient one |
| Eligibility.ValueCheckIrrelevant | tests/Form4test-atom.py:293-295 | when every filing reaches the minimum, both filters agree |
| Eligibility.KeepEligible | FormParser.py:293-304 | the filter loop returns exactly the eligible filings |
| AtomFeed.SelectOne | FormParser.py:95-111 | one entry raises exactly when its timestamp is unreadable or its title is missing (after the date check); otherwise it contributes its pair exactly when it is kept |
| AtomFeed.SelectedIsAccepted | FormParser.py:95-111 | the loop succeeds exactly when no entry raises, and then yields the pairs of the kept entries in feed order |
| AtomFeed.ErrorPersists | FormParser.py:96-101 | once an entry raises, later entries change nothing |
| AtomFeed.AcceptedComeFromKeptEntries | FormParser.py:102-111 | every selected pair is the URL and timestamp of a kept entry, never more pairs than entries |
| AtomFeed.AcceptedAreArchiveLinks | FormParser.py:109 | every selected URL contains `Archives` |
| AtomFeed.SelectedUrlIsArchiveLink | FormParser.py:106-110 | a selected URL, looked up by value, contains `Archives` |
| AtomFeed.VariantIsSameDaySelection | tests/Form4test-atom.py:87-103 | the variant's selection is the main selection applied to the entries dated today or whose timestamp cannot be read |
| AtomFeed.SelectEntries | FormParser.py:92-111 | the entry loop's two lists are the URLs and timestamps of the selection, so they have equal length |
| Form4AtomTest.FetchRecentForm4 | tests/Form4test-atom.py:63-115 | a missing or unparsable feed gives empty lists; otherwise, among the entries dated today or whose timestamp cannot be read, the loop fails exactly when one raises, and returns the kept ones' URLs and timestamps |
| Form4AtomTest.VariantUpdate | tests/Form4test-atom.py:117-168 | every failure, and a first run, returns the batch itself; when the URL file exists it still exists afterwards, and then the timestamps file exists afterwards exactly when it did before |
| Form4AtomTest.UpdateDailyUrls | tests/Form4test-atom.py:117-168 | with both files readable, the same admission as the class version; on any failure, including a failed creation, the batch itself; with no URL file, the batch becomes the stored list without in-batch dedup; the returned lists and both files are those of `VariantUpdate` |
| Form4AtomTest.FilterFilings | tests/Form4test-atom.py:278-302 | the result is the filings passing the role, purchase and code checks, with the value ignored; it contains the strict filter's output |
| Form4AtomTest.RunOnce | tests/Form4test-atom.py:336-340 | a run fails exactly when an entry dated today, or one whose timestamp cannot be read, raises, and then leaves the files alone; otherwise the files are updated with today's selected pairs as `VariantUpdate` says, and the result is exactly the filings of the pairs the update returns that pass the default checks, each from an `Archives` link |
| Form4Index.IndexUrl | Form4test.py:18-21 | the index URL starts with the daily-index base followed by `<year>/QTR<quarter>/master.` and ends in `.idx`, and for a four-digit year the eight characters before `.idx` are the date as `%Y%m%d` |
| Form4Index.IndexUrlDeterminesDate | Form4test.py:19-21 | different days request different index URLs |
| Form4Index.ParseLine | Form4test.py:42-53 | a row fails only with the unpacking error; a record's URL is under `https://www.sec.gov/Archives/`; a line without `\|` (a blank or preamble line) gives nothing |
| Form4Index.ParseJoinedLine | Form4test.py:42-53 | a row written as fields joined by `\|`, with white space around, parses to: nothing below five fields, an unpacking error above five, a record for form `4` (fields copied, URL under the archives), nothing for other forms |
| Form4Index.RowRecordsOkIff | Form4test.py:42-45 | parsing the rows fails exactly when some row has more than five fields |
| Form4Index.RowRecordsUrls | Form4test.py:46-53 | at most one record per row, each URL under `https://www.sec.gov/Archives/` |
| Form4Index.FirstHeader | Form4test.py:37-41 | the found line is the first one starting with the header; no line before it does |
| Form4Index.PreambleIgnored | Form4test.py:35-41 | whatever the row parser, no line up to and including the first header produces a record |
| Form4Index.ParseIndexLines | Form4test.py:35-53 | the line loop, given the row parser, yields the records of the rows after the first header, or the first row error |
| Form4Index.IndexRecordsUrls | Form4test.py:35-53 | every record of a parsed index, with or without a header, has a URL under the archives |
| Form4Index.DayRecords | Form4test.py:22-53 | every record of one day, from the plain index or the `.gz` copy, has a URL under the archives |
| Form4Index.MissingDayIsEmpty | Form4test.py:22-29 | when neither the plain index nor the `.gz` copy answers 200, the day gives no records and no error |
| Form4Index.PlainIndexSuffices | Form4test.py:22-34 | a plain index answered with 200 is the day's answer, whatever the server would say about the `.gz` copy |
| Form4Index.MissingDayContinues | Form4test.py:26-29 | a day without an index leaves the records collected so far unchanged and the walk goes on |
| Form4Index.IndexOfDay | Form4test.py:18-34 | one day's records: the plain index, else the `.gz` copy, else nothing for that day |
| Form4Index.Days | Form4test.py:13-17 | the loop visits `days_back + 1` days, none when `days_back` is negative |
| Form4Index.DaysAreConsecutive | Form4test.py:13-17 | the visited days run from `today - days_back` to `today`, one day apart, none after today |
| Form4Index.CollectedUrls | Form4test.py:46-53 | every collected record's URL is under the archives |
| Form4Index.GetForm4Filings | Form4test.py:12-56 | the records of every day from `today - days_back` through `today`, in date order, or the first error; a start date before year 1 is an overflow error |

## Left out

- Network access, the headless browser that saves the feed, gzip decoding and writing the CSV file are not modelled. The network is a function argument, the feed file is a `Feed` value, and an index response is already split into lines.
- The sleeps with random jitter and all `print` logging are not modelled.
- JSON serialisation is not modelled. Timestamps stored in the daily file are re-read as strings by the source. The model keeps them as `Timestamp` values, because nothing compares them.
- `os.remove` of the feed file is not modelled. Before the download (FormParser.py:37 and tests/Form4test-atom.py:28) it sits outside any `try`, so its failure propagates out of the fetch; after the loop (FormParser.py:117-121) its failure is only logged.
- The merge of `daily_filings` (FormParser.py:264 and tests/Form4test-atom.py:260) and the filtered-filings merge (FormParser.py:319 and tests/Form4test-atom.py:317) are not modelled. Neither changes what the function returns: the first replaces the list with `None` before writing, and the second nests the new list as one element.
- Form4AtomTest.UpdateDailyUrls and FormParser.Form4Parser.UpdateDailyUrls: a failed file operation leaves that file unchanged or not created. Two real outcomes are not distinguished. A creation can open the file and then fail while writing. An overwrite opens the file with `"w"` (FormParser.py:149 and 154, tests/Form4test-atom.py:144 and 149), which empties it before `json.dump` can fail, so that file is left empty or partly written rather than unchanged.
- The driver methods `update_filtered` and `update_unfiltered` of `Form4Parser` (FormParser.py:364-377) are not modelled. Each only chains `fetch_recent_form4`, `update_daily_urls`, `unpack_urls` and, in the first, `filter_filings`, and each of those is modelled. The file writes these drivers reach, at the end of `unpack_urls` and `filter_filings` (FormParser.py:266-280 and 321-335), are not modelled either. They do not change what those methods return. The variant's driver is modelled by Form4AtomTest.RunOnce.
- The `except` branch of `filter_filings` is not modelled. With typed filings, nothing in the loop body can raise.
- Form4Payload.BuildFiling: `float()` is modelled over exact decimals with ASCII digits (signs, point, exponent). Infinity, NaN, underscores and the non-ASCII Unicode decimal digits that Python's `float()` also accepts are rejected, and IEEE rounding of `shares * price` is not modelled.
- The variant's same-day check compares the entry's own calendar date with the `today` argument. The time-zone conversion of `datetime.today()` is not modelled.
- The `"N/A"` fallback for a timestamp is not modelled. `fromisoformat` either returns a value or raises, so that fallback cannot be reached.
- Form4Index.GetForm4Filings requires a valid `today` with a year between 1 and 9998. Stepping past the last representable date in the loop is not modelled.
- Calendar.CompactDateDigits: `%Y` is modelled as a year zero-padded to four digits. For years below 1000, Python's `strftime` output depends on the platform.
- Form4Index.GetForm4Filings: the CSV output written after the loop (Form4test.py:57-64) is not modelled.
- The class `Form4Parser` holds only its two daily files. Paths, `today`, `fetch_delay` and the browser settings are construction details without logic.
- `clear_forms`, ExecutionHandler.py, core.py, main.py and the broker tests are not part of this model.
