# Reading-list sync, modelled in Dafny

Two Python scripts keep a static site's readings page up to date. Both take the
items a reading tracker holds. Both sort them by reading progress into three
buckets: "currently reading", "future reads" and "already read". Both then
write a markdown page with TOML front matter and one table per bucket.

- `scripts/sync-reader-api.py` gets its items from the list endpoint of the
  tracker's HTTP API. It walks cursor pagination first for e-books (`epub`),
  then for PDFs (`pdf`). A missing token or any non-200 status aborts the run.
- `scripts/sync_readings.py` gets its items from an external command-line tool.
  When that yields no items, it stops without writing anything.

This project models the pure core of both scripts:

| module | file | models |
|---|---|---|
| `Wrappers` | `wrappers.dfy` | `Option` for an absent key, and `Result` for a raised error |
| `Reader` | `reader.dfy` | raw items, normalised entries, requests, responses, errors, the page size 100 and status 200 |
| `Classifier` | `classifier.dfy` | `categorize_books`. The same function appears in both scripts |
| `Pagination` | `pagination.dfy` | `get_reader_books` over a finite script of endpoint responses |
| `Markdown` | `markdown.dfy` | how a table is written: cells, rows, header, rule. Also a parser that reads a row back |
| `Readings` | `readings.dfy` | `generate_readings_content`. It is modelled twice: as the scripts write it (literal text plus one appended line per entry), and as a three-table layout. The contract of the first states that the two produce the same text |
| `Sync` | `sync.dfy` | `main` of each script, as pure functions that return the page text to be written |

Inputs that the scripts read from the environment become parameters:

- the token is an `Option<string>`;
- the HTTP exchange is a sequence of `Response` values, where response `i`
  answers request `i`;
- the generation timestamp and today's date are strings;
- the display of a percentage (`round(p, 1)` and then Python's float-to-text)
  is a function `showPercent: real -> string`.

Progress ratios are `real`, so the tests against 0 and 0.99 are exact.

Each table row is written the way the scripts write it. A text cell becomes
`" text |"` and a blank cell becomes `" |"`. So `| Dune | Herbert | 50.0% | |`
is the row `[Text("Dune"), Text("Herbert"), Text("50.0%"), Blank]`. A title
that is present but empty gives two spaces, just as the f-string does.

A row reads back as its own cells only when none of its texts contains `|`.
A title containing a pipe adds columns to the page. The scripts do not guard
against this, so the row lemmas state that condition as a precondition.

A title or author containing a line break splits its row across two lines of
the page. The row lemmas still hold then, because a row is read back from the
whole written string, not one line at a time. What a markdown renderer makes
of such a page is not modelled.

## Model

| member | source | states |
|---|---|---|
| `Classifier.Normalize` | scripts/sync-reader-api.py:77-85 | An absent title or author becomes "Unknown"; a present one is copied unchanged. An absent progress reads as 0. The stored percentage is the progress times 100 |
| `Classifier.Classify` | scripts/sync-reader-api.py:87-92 | Future reads exactly when progress is 0. Any progress at or above 0.99 is already read. Any progress strictly between 0 and 0.99 is currently reading |
| `Classifier.ClassifyRule` | scripts/sync-reader-api.py:87-92 | Future reads exactly when progress is 0. Already read exactly when progress is non-zero and at least 0.99. Currently reading exactly when progress is non-zero and below 0.99, so a negative progress lands there too |
| `Classifier.ClassifyBoundaries` | scripts/sync_readings.py:55-60 | The boundary cases: 0 goes to future reads, 0.99 and 1.0 go to already read, 0.989999 goes to currently reading, and an item without `reading_progress` goes to future reads |
| `Classifier.EmptyItemDefaults` | scripts/sync_readings.py:45-53 | An item with no keys becomes "Unknown" by "Unknown" at 0% in future reads |
| `Classifier.Categorize` | scripts/sync-reader-api.py:70-94 | The loop that appends each item's entry to one bucket: the three buckets together hold exactly as many entries as there are items |
| `Classifier.CategorizeIsSelect` | scripts/sync-reader-api.py:76-92 | Each returned bucket is exactly the in-order filter of the items classified into it, normalised |
| `Classifier.SelectPartition` | scripts/sync_readings.py:44-60 | The three in-order filters together have one entry per input item (totality and exclusivity) |
| `Classifier.SelectSound` | scripts/sync_readings.py:49-60 | Every entry of a bucket is the normalised form of some input item classified into that bucket |
| `Classifier.BucketPosition` | scripts/sync-reader-api.py:81-92 | Item `i` appears in its own bucket, at the position equal to the number of earlier items in that bucket |
| `Classifier.OrderPreserved` | scripts/sync_readings.py:44-47 | Of two items in the same bucket, the earlier input item sits at the earlier position |
| `Pagination.FetchCategory` | scripts/sync-reader-api.py:24-44 | One category's walk. On success it makes between 1 and \|pages\| requests. Every page before the last is a 200 with a non-empty cursor, and the last is a 200 without one. The items are the concatenation of those pages' `results`. The first request carries the given cursor when it is present and non-empty, and no cursor otherwise. Each later request carries the previous response's `nextPageCursor` with limit 100. A failure is a non-200 status of this category, or a script that ran out |
| `Pagination.FetchStopsAtLastPage` | scripts/sync-reader-api.py:42-44 | Suppose `k` pages each hand over a non-empty cursor, and then a 200 page has no cursor or an empty one. The walk then succeeds after exactly `k + 1` requests |
| `Pagination.FetchFailsAtStatus` | scripts/sync-reader-api.py:36-37 | A non-200 status after `k` continuing pages fails the walk with that category and that status |
| `Pagination.FetchRunsOut` | scripts/sync-reader-api.py:27-31 | A script in which every page hands over a cursor never ends the walk |
| `Pagination.TwoPageExample` | scripts/sync-reader-api.py:39-43 | Pages `[a, b]` with cursor "X", then `[c]` with cursor "", give `[a, b, c]` from two requests. The first request has no cursor and the second has "X" |
| `Pagination.AllResultsAppend` | scripts/sync-reader-api.py:61 | Collecting page by page equals collecting two runs of pages and concatenating them |
| `Pagination.GetReaderBooks` | scripts/sync-reader-api.py:16-67 | A missing or empty token fails before any request. On success, the items are the concatenation of every page's `results` in request order, with the e-book pages first. Every request has limit 100; the e-book requests come first, then the PDF ones. The first request of each category has no cursor. Every other request carries the previous response's cursor. In each category, every page before the last is a 200 with a non-empty cursor, and the last is a 200 without one. A status error always carries a non-200 status |
| `Pagination.FetchedIsBothWalks` | scripts/sync-reader-api.py:19-67 | The call succeeds exactly when the token is present and both category walks succeed, with the PDF walk starting on the page after the e-book walk's last. It then returns the e-book requests and items followed by the PDF ones |
| `Pagination.EpubFailureFailsCall` | scripts/sync-reader-api.py:36-37 | A failing e-book walk fails the whole call with the same error, before any PDF request |
| `Pagination.WellFormedScriptSucceeds` | scripts/sync-reader-api.py:27-65 | Suppose there are `k` continuing e-book pages, then a last page, then `m` continuing PDF pages, then a last page. The call then succeeds with `k + 1` e-book requests and `k + m + 2` requests in all |
| `Pagination.PdfFailureDiscardsEpubItems` | scripts/sync-reader-api.py:57-58 | A failing PDF page makes the whole call fail with that error, and the e-book items already collected are not returned |
| `Markdown.RowRoundTrip` | scripts/sync-reader-api.py:121 | A written row whose texts contain no pipe reads back as exactly its cells |
| `Markdown.RowPipes` | scripts/sync_readings.py:100 | A written row of `n` pipe-free cells contains exactly `n + 1` pipes |
| `Markdown.HeaderIsRow` | scripts/sync-reader-api.py:116 | The header line is the written row of the column names |
| `Readings.EntryRow` | scripts/sync_readings.py:85 | A data row has as many cells as its table has columns. Title and author come first. The percentage followed by "%" appears only in Currently Reading. Every other cell is blank |
| `Readings.PlaceholderRow` | scripts/sync_readings.py:87-88 | The row of an empty table has the table's column count. Its first cell is the italic message, and every other cell is blank |
| `Readings.BucketTable` | scripts/sync-reader-api.py:120-124 | A non-empty bucket gives one row per entry, in bucket order. An empty bucket gives the placeholder row and nothing else |
| `Readings.Layout` | scripts/sync-reader-api.py:114-154 | There are exactly three tables: Currently Reading, Future Reads, Already Read, in that order. Each is built from its own bucket |
| `Readings.SyncedDescriptionExtends` | scripts/sync-reader-api.py:107 | The API script's description is the plain description, then " (Last synced: ", then the sync date, then ")". The date reads back from between the label and the closing parenthesis |
| `Readings.FrontMatterFields` | scripts/sync-reader-api.py:103-112 | The front matter opens with the line `+++ ` and closes with `+++`. The date follows `date = ` at offset 26, and the description follows `description = "` 35 characters after the date. It is closed by a `"`. Both read back verbatim |
| `Readings.PlaceholderIsNotData` | scripts/sync-reader-api.py:135-139 | No data row equals the placeholder row |
| `Readings.ItemRow` | scripts/sync-reader-api.py:165-171 | Every input item appears as a data row at its rank in the table of its bucket, and that table contains no placeholder |
| `Readings.HeaderWellFormed` | scripts/sync_readings.py:110 | Every header line reads back as its column names and has one more pipe than it has columns |
| `Readings.EntryRowWellFormed` | scripts/sync_readings.py:95-100 | Take an entry whose texts contain no pipe. Its row reads back as its cells and has as many pipes as its table's header (4 columns, or 5 for Already Read) |
| `Readings.EmptyLayout` | scripts/sync-reader-api.py:123-124 | With no entries, each of the three tables holds its placeholder alone |
| `Readings.HalfReadExample` | scripts/sync-reader-api.py:121 | One item "Dune" by "Herbert" at 0.5 gives one Currently Reading row with the displayed 50.0 followed by "%". The other two tables hold their placeholders |
| `Readings.CurrentRowText` | scripts/sync_readings.py:84-85 | The line the script appends for a book in progress is the written form of its row |
| `Readings.FutureRowText` | scripts/sync-reader-api.py:136 | The line the script appends for a book in the queue is the written form of its row |
| `Readings.AlreadyRowText` | scripts/sync-reader-api.py:151 | The line the script appends for a finished book is the written form of its row |
| `Readings.PlaceholderText` | scripts/sync_readings.py:102-103 | The literal placeholder line of each empty table is the written form of its placeholder row |
| `Readings.OpeningText` | scripts/sync_readings.py:78-82 | The literal heading, header line and rule of each table are what the layout writes |
| `Readings.SectionText` | scripts/sync_readings.py:99-103 | A section as the script writes it is the layout's table written out |
| `Readings.GenerateReadingsContent` | scripts/sync-reader-api.py:97-156 | The script's page text equals the front matter, a blank line, and the three layout tables joined by horizontal rules |
| `Sync.SyncReaderApi` | scripts/sync-reader-api.py:159-177 | A missing token fails. The run fails exactly when the fetch fails, and with the same error. Otherwise the written page is the layout of the classified items under the description with the sync date |
| `Sync.SyncReadings` | scripts/sync_readings.py:126-141 | No page is written exactly when the item list is empty. Otherwise the page is the layout of the classified items under the description without a sync date |
| `Sync.ApiWritesEmptyPage` | scripts/sync-reader-api.py:161-174 | The API script has no soft stop: with zero items it still writes the page of three empty tables |

## Left out

- The HTTP call (`requests.get`) and JSON decoding. The endpoint is a scripted
  sequence of responses. The script sends another request for as long as the
  endpoint hands over a non-empty cursor. A finite script that runs out while
  cursors keep coming ends the walk with the model-only error
  `ResponsesExhausted`.
- `fetch_reader_books` in `sync_readings.py`. It runs an external tool with a
  30-second timeout and picks a JSON object out of the tool's output with a
  regular expression. It yields `[]` on any failure. `Sync.SyncReadings` takes
  its result as the item list.
- Reading `READER_API_TOKEN` from the environment. The token is a parameter.
- `datetime.now()` and `strftime`. The timestamp and date are parameters.
- `round(progress * 100, 1)` and Python's formatting of floats. Entries keep
  `progress * 100` as an exact real, and the renderer takes the display
  function as a parameter. Binary floating point is not modelled. A JSON
  `0.99` parses to the same double as the script's literal, so 0.99 itself is
  already read in both. The model and the script part ways only where parsing
  to a double changes the value:
  - A decimal that rounds to the double 0.99, such as `0.98999999999999999`,
    is already read in the script but currently reading in the model.
  - A non-zero decimal that underflows to 0.0, such as `1e-400`, is a future
    read in the script but currently reading in the model.
  - `NaN` and `Infinity`, which Python's `json` accepts, have no counterpart
    among the reals.
- JSON values of the wrong type, such as a `null` title or a string progress.
  A present key is assumed to hold a string (title, author) or a number
  (progress).
- `print` output and the file write. A raised `RuntimeError` becomes a `Failure`. The `Sync`
  functions return the text that would be written, or the error or `None`
  that prevents the write.
- Pagination.GetReaderBooks: its failure contract names only the status that
  the error carries. `Pagination.FetchFailsAtStatus` gives the page that causes
  it, for one category at a time.
