# Form 8-K checker, modelled in Dafny

`form_8k_checker.py` runs as a periodic job. Each run does four things:

- It walks the SEC "latest filings" listing, 100 filings per page.
- It keeps every pair of adjacent table rows whose second row announces a
  "Current report" with item 1.05.
- It renders each kept pair as a Markdown table row
  `|company|YYYY-MM-DD HH:MM:SS|[link](https://www.sec.gov<href>)|`.
- It merges those rows into the rows already stored in a Markdown file on
  GitHub, under a fixed heading, and uploads the result.

This project models that core and proves what it does. Each module follows
one part of the script:

| module | file | models |
|---|---|---|
| `Wrappers` | wrappers.dfy | `Option` and `Result` |
| `Text` | text.dfy | the `str` operations the script relies on: `<`, `in`, `count`, `replace`, `split`, `join`, `splitlines`, `strip`, `str(int)` |
| `Timestamp` | timestamp.dfy | `strptime('%Y-%m-%d%H:%M:%S')` followed by `strftime('%Y-%m-%d %H:%M:%S')`, and how the result compares as a string |
| `FilingRow` | filing_row.dfy | `get_filing_info`, with the HTML lookups given as inputs, and the third column of a row as the merge reads it |
| `Merge` | merge.dfy | `get_final_string`, as a method with a loop proved against the function `Merged` that specifies it |
| `Listing` | listing.dfy | `get_sec_url`, and the pair-selection, rendering and page loops of `get_8ks` as methods, each proved against a function |
| `StoredFile` | stored_file.dfy | `HEADING`, the write framing of `update_github_file`, and the heading slice of `get_exisiting_entries` |
| `Pipeline` | pipeline.dfy | `main()`: scrape, read, merge, upload |

The network is replaced by data:

- The SEC session answers from a finite sequence of responses. Each response
  is a reply with a status and a page, a timeout, or another request
  exception.
- A page is its rows, each reduced to its text and its three HTML lookups,
  plus the values of its `<input>` elements.
- The GitHub read is a `FileReply`.
- The time of the run, which `HEADING` holds, is a string parameter.

Every exception that ends the script is an error value:

- `.splitlines()` on the `None` that `get_8ks` returns for a status other
  than 200 becomes `ListingNotLoaded`.
- An AttributeError or ValueError in `get_filing_info` becomes
  `FilingFailure`.
- IndexError in `split('|')[2]` becomes `MergeFailure`.

The main results:

- **The merge.** It keeps every stored row, in order, behind the longest
  prefix of new rows whose timestamps are strictly later. Once a new row is
  not strictly later, no later new row gets in. Merging two newest-first
  lists gives a newest-first list. Merging the same new rows again changes
  nothing.
- **Timestamps.** For canonical timestamps, Python's string order is
  chronological order.
- **Rendered rows.** When the link text and the href hold no `|` and no
  line break, a rendered row is one line ended by `\n`, and its
  `split('|')[2]` is the reformatted timestamp. A `|` in the company name
  would make that field a piece of the name instead. The text `get_8ks`
  returns for a listing of such filings is cut by `splitlines()` into one
  line per kept pair, in document order, so the merge reads the rows
  `get_filing_info` built.
- **The stored file.** `HEADING` holds five line breaks whatever the time.
  A file written by one run is read back by a later run as exactly the rows
  written, when no row holds a line break and the last row is not empty.
- **The page loop.** It requests offsets 0, 100, 200, and so on. It repeats
  an offset after a transport failure. It ends on the first page without a
  "Next 100" control, and returns the rows of all pages in order. A run
  against an unchanged listing writes back the rows it read.

## Model

| member | source | states |
|---|---|---|
| Text.Less | form_8k_checker.py:237 | Python's `<` on strings: lexicographic by code point, a proper prefix first; its contract is in the four `Text.Less…` lemmas below and `Timestamp.CanonicalOrderIsChronological` |
| Text.LessIrreflexive | form_8k_checker.py:237 | no string is `>` itself, so a row at exactly the cutoff time is not admitted |
| Text.LessAsymmetric | form_8k_checker.py:237 | `a < b` and `b < a` never both hold |
| Text.LessTransitive | form_8k_checker.py:237 | Python's string `<` is transitive |
| Text.LessTotal | form_8k_checker.py:237 | any two strings are equal or ordered one way or the other |
| Text.Contains | form_8k_checker.py:159-161 | Python's `sub in s`; its contract is `Text.ContainsAt` |
| Text.ContainsAt | form_8k_checker.py:159-161 | `sub in s` holds exactly when `sub` occurs at some index of `s` |
| Text.Count | form_8k_checker.py:212 | `s.count(c)` is at most `len(s)`, and zero exactly when `c` is absent |
| Text.RemoveAll | form_8k_checker.py:208 | `replace('\r', '')` leaves no `\r` |
| Text.RemoveAbsent | form_8k_checker.py:208 | `replace` of an absent character changes nothing |
| Text.Split | form_8k_checker.py:234 | `split(sep)` gives one more part than `sep` occurrences, and no part holds `sep` |
| Text.JoinSplit | form_8k_checker.py:234 | joining the parts of `split(sep)` with `sep` rebuilds the string |
| Text.SplitLines | form_8k_checker.py:209 | no line `splitlines()` returns holds a line break |
| Text.Join | form_8k_checker.py:246 | `sep.join(parts)`; its contract is in `Text.JoinSplit` and `Text.SplitLinesJoin` |
| Text.SplitLinesJoin | form_8k_checker.py:246 | `'\n'.join(lines).splitlines()` gives back break-free lines whose last line is not empty |
| Text.SplitLinesAfterTerminated | form_8k_checker.py:258 | break-free lines, each followed by `\n`, come back from `splitlines()` as those lines, ahead of the lines of any text after them |
| Text.TrimStart | form_8k_checker.py:95 | `lstrip()` drops exactly the leading whitespace: a suffix, all whitespace before it, no whitespace at its start |
| Text.TrimEnd | form_8k_checker.py:95 | `rstrip()` drops exactly the trailing whitespace |
| Text.Strip | form_8k_checker.py:95 | `strip()` is the slice of the input left between its leading and trailing whitespace, and it starts and ends with non-whitespace |
| Text.NatToString | form_8k_checker.py:53 | `str(n)` is decimal digits with a leading zero only for 0 |
| Text.DecimalRoundTrip | form_8k_checker.py:53 | `int(str(n)) == n` |
| Timestamp.Reformat | form_8k_checker.py:108-109 | `strptime` then `strftime` of the time cell, None where `strptime` raises ValueError; its contract is `Timestamp.ReformatCanonical` |
| Timestamp.ReformatCanonical | form_8k_checker.py:108-109 | reformatting succeeds exactly on a valid date and time in the compact layout. The result has the canonical layout and the same six fields, and it is the input with one space put in at index 10 |
| Timestamp.CanonicalIsPlain | form_8k_checker.py:109 | a reformatted timestamp holds no pipe and no line break |
| Timestamp.CanonicalOrderIsChronological | form_8k_checker.py:237 | for canonical timestamps, `a < b` as strings exactly when `a` is earlier (year, then month, day, hour, minute, second) |
| Timestamp.CanonicalFieldsInjective | form_8k_checker.py:109 | two canonical timestamps are equal strings exactly when they name the same time |
| FilingRow.FilerTagAt | form_8k_checker.py:95 | one match of `\([^)]*\) \(Filer\)\s*` at the start of the text; `FilingRow.FilerTagMatch` says that a match is found at every annotation and where it ends, `FilingRow.FilerTagOnlyAtAnnotation` that one is found nowhere else |
| FilingRow.FilerTagOnlyAtAnnotation | form_8k_checker.py:95 | the pattern matches only where the text starts with an annotation: `(`, text without `)`, `)`, then " (Filer)" |
| FilingRow.FilerTagMatch | form_8k_checker.py:95 | at an annotation `(<id>) (Filer)` the pattern matches, and the match runs on over all the whitespace after it |
| FilingRow.RemoveFilerTags | form_8k_checker.py:95 | the `re.sub`: one left-to-right scan that removes each annotation it meets, with the whitespace after it; text joined by a removal is not scanned again (`FilingRow.RemovalIsSinglePass`); `FilingRow.FilerTagThenRest`, `FilingRow.RemoveFilerTagsKeepsPlainPrefix` and `FilingRow.RemoveFilerTagsAvoids` state what it does |
| FilingRow.FilerTagThenRest | form_8k_checker.py:95 | an annotation followed by any text is removed with the whitespace after it, and the substitution goes on with the rest |
| FilingRow.RemovalIsSinglePass | form_8k_checker.py:95 | for `(x) (y) (Filer)(Filer)` the one pass removes `(y) (Filer)` and leaves `(x) (Filer)`, which is itself a match: the result can still hold an annotation |
| FilingRow.RemoveFilerTagsAvoids | form_8k_checker.py:95 | the substitution only deletes: a character absent from the input is absent from the result |
| FilingRow.FilerTagRemoved | form_8k_checker.py:95 | the case of `FilingRow.FilerTagThenRest` that the company column meets: an annotation followed only by whitespace leaves nothing |
| FilingRow.RemoveFilerTagsKeepsPlainPrefix | form_8k_checker.py:95 | text at none of whose indices the scan finds a match passes through the substitution unchanged, whatever follows it |
| FilingRow.NoOpenNoTag | form_8k_checker.py:95 | text without `(` has no index at which a match starts |
| FilingRow.CompanyName | form_8k_checker.py:94-95 | the company column: annotations removed, then `strip()`; its contract is in `FilingRow.CompanyNameOfFilerLink` and `FilingRow.CompanyNameAvoids` |
| FilingRow.CompanyNameOfFilerLink | form_8k_checker.py:94-95 | for link text `<name>(<id>) (Filer)` and trailing whitespace, where no match starts at any index of `<name>`, the company column is `<name>.strip()` |
| FilingRow.CompanyNameKeepsOwnParentheses | form_8k_checker.py:94-95 | a parenthesised part of the name that " (Filer)" does not follow stays: "Foo (DE) Inc (0001234567) (Filer)" gives "Foo (DE) Inc" |
| FilingRow.CompanyNamePlain | form_8k_checker.py:94-95 | the company column holds no line break when the link text holds none |
| FilingRow.CompanyNameAvoids | form_8k_checker.py:94-95 | the company column holds no character the link text does not: removing annotations and stripping only delete |
| FilingRow.GetFilingInfo | form_8k_checker.py:89-116 | `get_filing_info` with the three HTML lookups given, failing in the order the script looks them up; its contract is in `FilingRow.GetFilingInfoSucceeds` and `FilingRow.FilingTimestampField` |
| FilingRow.GetFilingInfoSucceeds | form_8k_checker.py:89-116 | a row is produced exactly when the first link, the time cell and the `[html]` link are all found and the time is valid. An invalid time is reported with its text |
| FilingRow.TimestampField | form_8k_checker.py:234 | the third pipe-separated field of a row exists exactly when the row holds at least two pipes, and the field holds no pipe |
| FilingRow.TableRow | form_8k_checker.py:116 | the company, timestamp and link cells, each behind a pipe, then a closing pipe and a line break; its contract is in `FilingRow.TableRowFields` |
| FilingRow.TableRowFields | form_8k_checker.py:116 | splitting a rendered row at its pipes gives `["", company, timestamp, link, "\n"]` |
| FilingRow.TableRowTimestamp | form_8k_checker.py:116 | the timestamp column of a rendered row is the timestamp it was rendered with |
| FilingRow.FilingTimestampField | form_8k_checker.py:101-116 | when the link text and the href hold no pipe, a filing's row carries the reformatted timestamp as the third pipe-separated field |
| FilingRow.LinkCell | form_8k_checker.py:113 | `[link](https://www.sec.gov<href>)`; its contract is in `FilingRow.LinkCellPlain` |
| FilingRow.LinkCellPlain | form_8k_checker.py:113 | the link column holds no pipe when the href holds none |
| FilingRow.LinkCellNoBreak | form_8k_checker.py:113 | the link column holds no line break when the href holds none |
| FilingRow.FilingRowIsOneLine | form_8k_checker.py:89-116 | when the link text and the href hold no pipe and no line break, a row that renders is one break-free line followed by `\n`, and its third pipe-separated field is the reformatted time cell |
| Merge.Merged | form_8k_checker.py:226-246 | the list `get_final_string` joins, or the IndexError; its contract is in the `Merge.Merge…` lemmas below |
| Merge.ScanFrom | form_8k_checker.py:235-240 | the scan stops at the first row that is not strictly later than the cutoff, or fails at the first row without a timestamp column. Every row before that point is strictly later |
| Merge.GetFinalString | form_8k_checker.py:226-246 | the loop's result is `'\n'.join` of `Merged`, or the same IndexError |
| Merge.MergeKeepsOldRowsAfterNewerPrefix | form_8k_checker.py:233-241 | with stored rows, the result is a prefix of the new rows followed by all stored rows in order. The prefix rows are strictly later than the newest stored row. No new row after the first one that is not strictly later gets in |
| Merge.MergeWithoutOldRows | form_8k_checker.py:242-244 | with no stored rows (None or empty), the result is the new rows unchanged |
| Merge.MergeFailsOnlyOnMissingColumn | form_8k_checker.py:234-237 | the merge fails only on the newest stored row or on a new row, and only when that row lacks a timestamp column |
| Merge.MergeSucceedsOnRowsWithTimestamps | form_8k_checker.py:234-237 | rows that all carry a timestamp column never make the merge fail |
| Merge.MergeKeepsNewestFirst | form_8k_checker.py:233-241 | merging two newest-first lists succeeds and gives a newest-first list |
| Merge.MergeIdempotent | form_8k_checker.py:233-244 | merging the same new rows into a merge result gives that result back |
| Merge.MergeStopsAtEqualTimestamp | form_8k_checker.py:235-240 | a new row at exactly the stored time ends the scan, and whatever follows it is dropped |
| Merge.MergeBoundaryExample | form_8k_checker.py:233-241 | stored row at 2024-01-02 10:00:00; new rows at 2024-01-03 09:00:00, 2024-01-02 10:00:00 and any third: the result is the first new row, then the stored row |
| Listing.SecUrl | form_8k_checker.py:48-54 | `get_sec_url(index)`; its contract is in `Listing.SecUrlCarriesIndex` and `Listing.SecUrlInjective` |
| Listing.SecUrlCarriesIndex | form_8k_checker.py:48-54 | the start offset can be read back from the URL, as the digits after `start=` up to the next `&` |
| Listing.SecUrlInjective | form_8k_checker.py:48-54 | distinct offsets give distinct URLs |
| Listing.HasNextPage | form_8k_checker.py:169 | the page has an `<input>` whose value is the next-page label; used by `Listing.CrawlEnds` and `Listing.CrawlOfListing` |
| Listing.NextLabelNamesPageSize | form_8k_checker.py:169 | the next-page label is `f'Next {FILINGS_PER_PAGE}'` |
| Listing.Announces | form_8k_checker.py:158-161 | the row text holds "Current report" and the item code; `Listing.SelectPairs` keeps pairs by it |
| Listing.PairsWhere | form_8k_checker.py:157-162 | the pairs the `zip` loop keeps under a row test; its contract is `Listing.PairsAreKeptRowsWithPredecessor` |
| Listing.RowsWhereExactly | form_8k_checker.py:157-162 | exactly the rows after the first that pass the test are listed, in increasing order |
| Listing.PairsAreKeptRowsWithPredecessor | form_8k_checker.py:157-162 | the kept pairs are exactly the qualifying rows, each with the row just before it, in document order |
| Listing.QualifyingPairs | form_8k_checker.py:155-162 | the pairs of one page the `zip` loop keeps; its contract is in `Listing.PairsAreKeptRowsWithPredecessor` and `Listing.SelectPairs` |
| Listing.SelectPairs | form_8k_checker.py:155-162 | the `zip` loop keeps the pairs whose second row holds "Current report" and the item code |
| Listing.Rendered | form_8k_checker.py:164-166 | `get_filing_info` of each kept pair, in order, one result per pair |
| Listing.Collect | form_8k_checker.py:165-166 | `relevant_filings += row` over the rendered rows; its contract is in `Listing.CollectSucceedsOnRows`, `Listing.CollectReportsFirstFailure` and `Listing.CollectKeepsFirstFailure` |
| Listing.RenderAll | form_8k_checker.py:164-166 | the rows of one page's kept pairs, or the first failure; `Listing.RenderPairs` is proved against it and `Listing.RenderedRowsReadBack` reads it back |
| Listing.CollectSucceedsOnRows | form_8k_checker.py:165-166 | accumulating the rendered rows succeeds exactly when every pair renders, and then gives their concatenation in order |
| Listing.CollectReportsFirstFailure | form_8k_checker.py:165-166 | a failed accumulation reports the first failing pair, and every pair before it rendered |
| Listing.CollectKeepsFirstFailure | form_8k_checker.py:165-166 | once a prefix fails, the whole accumulation fails the same way |
| Listing.RenderPairs | form_8k_checker.py:164-166 | the rendering loop gives the concatenated rows of the page, or the first failure |
| Listing.LinesCarryStamps | form_8k_checker.py:164-166 | when every kept pair of a page renders and is plain (no pipe, no line break in the link text or href), each row is its line and `\n`, the line breaks nowhere, and its third field is its filing's reformatted timestamp |
| Listing.RenderedRowsReadBack | form_8k_checker.py:164-166 | the same rows concatenated, then any text, come back from `splitlines()` as those lines in order, ahead of the lines of the text |
| Listing.ProcessPage | form_8k_checker.py:152-166 | what one loaded page adds: the rows of its qualifying pairs, or the first failure; `Listing.RenderPairs` and `Listing.SelectPairs` compute it |
| Listing.CrawlFrom | form_8k_checker.py:121-187 | the page loop from an offset; its contract is in `Listing.CrawlOffsets`, `Listing.CrawlEnds`, `Listing.CrawlGathersPageText`, `Listing.CrawlIgnoresTransportFailures` and `Listing.CrawlOfListing` |
| Listing.Get8KsSpec | form_8k_checker.py:119-189 | `get_8ks()` as the crawl from offset 0 with nothing gathered; `Listing.Get8Ks` is proved against it |
| Listing.CrawlOffsets | form_8k_checker.py:121-187 | one request per response consumed, the first at offset 0. The offset grows by 100 only after a fully processed page, and stays put after a timeout or request exception |
| Listing.CrawlEnds | form_8k_checker.py:126-187 | the loop runs out of responses exactly when it would go on after every one. Otherwise it ends on the last response consumed: a status other than 200, a row that does not render, or a page without "Next 100" |
| Listing.CrawlGathersPageText | form_8k_checker.py:122-189 | a finished crawl returns the rows of every page it processed, in page order |
| Listing.CrawlIgnoresTransportFailures | form_8k_checker.py:175-187 | timeouts and request exceptions change only the number of requests, never the outcome |
| Listing.CrawlOfListing | form_8k_checker.py:121-189 | a listing of N pages served without failures takes exactly N requests at offsets 0, 100, …, 100(N-1), and returns the rows of all N pages |
| Listing.PagesReadBack | form_8k_checker.py:164-166 | over pages that all render and whose kept pairs are plain, the gathered text, then any text, comes back from `splitlines()` as one line per kept pair, page after page |
| Listing.ListingRowsReadBack | form_8k_checker.py:121-189 | `get_8ks()` on a listing of such pages succeeds, and `splitlines()` of its text gives one line per kept pair, in document order: the line is that pair's `get_filing_info` row without its `\n`, and its third field is the pair's reformatted timestamp |
| Listing.Loop | form_8k_checker.py:126-187 | the `while True` loop, one response per step; its contract is `Listing.LoopIsCrawl` |
| Listing.LoopIsCrawl | form_8k_checker.py:126-187 | stepping through the `while True` loop one response at a time gives the crawl's outcome and requests |
| Listing.Get8Ks | form_8k_checker.py:119-189 | `get_8ks()` ends with the crawl's outcome and requests exactly the crawl's offsets, each through `get_sec_url` |
| StoredFile.Heading | form_8k_checker.py:25-30 | `HEADING`: the five heading lines, each ended by a line break; its contract is in `StoredFile.HeadingLineCount` |
| StoredFile.FileContent | form_8k_checker.py:61-62 | `full_content`: `HEADING` then the joined rows; `StoredFile.StoredRowsRoundTrip` reads it back |
| StoredFile.ExistingEntries | form_8k_checker.py:208-212 | the rows `get_exisiting_entries` finds in a file; `StoredFile.StoredRowsRoundTrip` is its contract |
| StoredFile.HeadingLinesPlain | form_8k_checker.py:25-30 | no line of `HEADING` breaks, whatever the time of the run |
| StoredFile.HeadingLineCount | form_8k_checker.py:25-30 | `HEADING.count('\n')` is 5 for any canonical time of the run |
| StoredFile.RowsAfterHeading | form_8k_checker.py:208-212 | after any break-free heading lines each ending in `\n`, `splitlines()` finds exactly the joined rows |
| StoredFile.StoredRowsRoundTrip | form_8k_checker.py:208-212 | the content `HEADING + '\n'.join(rows)` written by one run is read back by a later run as `rows`, when no row breaks a line and the last row is not empty |
| Pipeline.GetExistingEntries | form_8k_checker.py:196-223 | the stored rows when the file request gives status 200, None otherwise; used by `Pipeline.RunWithoutStoredFile` and `Pipeline.RunKeepsStoredRows` |
| Pipeline.RunRows | form_8k_checker.py:258-271 | the rows a run writes once `get_8ks()` has ended; its contract is in `Pipeline.RunKeepsStoredRows` and `Pipeline.RerunAddsNothing` |
| Pipeline.Upload | form_8k_checker.py:258-276 | the text a run uploads, or the exception that stops it; its contract is in `Pipeline.RunFailures` and `Pipeline.RunWithoutStoredFile` |
| Pipeline.Run | form_8k_checker.py:249-276 | `main()`, with the listing answering from the responses; `Pipeline.CheckAndUpdate` is proved against it |
| Pipeline.CheckAndUpdate | form_8k_checker.py:249-276 | `main()` uploads `HEADING` plus the merged rows, or stops on the first exception |
| Pipeline.RunFailures | form_8k_checker.py:254-258 | a run uploads exactly when the listing is read to the end and the merge succeeds. A listing status other than 200 stops it on `.splitlines()` of None |
| Pipeline.RunWithoutStoredFile | form_8k_checker.py:216-223 | when the file cannot be read, the upload is `HEADING` and the new rows alone |
| Pipeline.RunKeepsStoredRows | form_8k_checker.py:263-271 | against a file an earlier run wrote, the rows uploaded are a prefix of the new rows followed by every stored row |
| Pipeline.RerunAddsNothing | form_8k_checker.py:249-276 | a second run on the same listing text reads back the rows the first run wrote and uploads them unchanged |

## Left out

- HTTP and GitHub traffic are left out: the session, `requests.get` and
  `requests.put`, the headers, the timeouts, and the status the PUT returns.
  So are the ETag `sha`, the commit message, the base64 encoding of the
  payload, logging, and the token read from the environment. They are I/O.
  The model's inputs are what the requests return, and the model's output is
  the text that would be uploaded.
- BeautifulSoup is left out. Each `<tr>` is its text plus the results of
  the three lookups `get_filing_info` makes, and each page is its rows plus
  its `<input>` values. Generic HTML parsing is not modelled.
- `datetime.now()` in `HEADING` is the parameter `lastChecked`.
- Listing.Get8Ks: the script retries a failing page forever. The model reads
  a finite sequence of responses and ends with `OutOfResponses` when they
  run out.
- Timestamp.Reformat: `strptime` is more lenient than the model. It also
  accepts fields that are not zero-padded (for example `2024-1-02...`), a
  day written as a space and a digit, and non-ASCII decimal digits wherever
  its pattern uses `\d`: all of `%Y`, the second digit of a two-digit
  `%d`, and for `%H`, `%M` and `%S` the second digit of a two-digit field or
  a lone one-digit field. The model refuses such text.
- Timestamp.Reformat: `strftime('%Y')` on Linux writes years 1 to 999
  without zero padding. The model writes four digits.
- FilingRow.GetFilingInfo: an `[html]` link without an `href` attribute
  makes the script write the text `None` into the link. Here the lookup
  gives a string or nothing.
- `TESTING` and its item code "5.02" are left out; `ITEM` is "1.05".
- The counters `page` and `entries_on_current_page` are only logged or never
  read, so they are not modelled.
- Pipeline.RerunAddsNothing needs the first new row to carry a timestamp
  column and the last row written to be non-empty. Without these, the
  script raises IndexError, or `splitlines()` drops an empty final line.

The script's behaviour on failures, kept as written:

- A timeout or request exception on a listing page is retried at the same
  offset. It does not end the run.
- A status other than 200 makes `get_8ks` return None, and `main` then fails
  on `.splitlines()` (`ListingNotLoaded`). The run uploads nothing, but
  through an exception, not a reported failure.
- Any GitHub read other than status 200, including a request exception, is
  treated like a missing file. The upload then holds only the new rows
  (`Pipeline.RunWithoutStoredFile`).
- An empty stored list counts as no stored rows, as in `if old_entries:`.
- Idempotence of the merge holds only when the first new row has a timestamp
  column (`Merge.MergeIdempotent`).
