# Paper harvester core, modelled in Dafny

This project models the core of a small paper-harvesting service and proves
properties of the model. The service crawls Nature's research-article listing
and a list of Nature Portfolio RSS feeds, normalises what it finds into
`Paper` records, upserts them into a SQLite `papers` table keyed by URL, and
serves filtered, ordered, windowed searches over that table. A scheduler runs
the crawl periodically, on a simple `*/N` cron interval, and can also run a
single on-demand job.

The modules follow the program's files:

| file | module | models |
|---|---|---|
| `wrappers.dfy` | `Wrappers` | `Option` and `Result` |
| `builtins.dfy` | `Builtins` | the Python and SQLite primitives the core relies on: slicing with negative bounds, `in` on strings, ASCII `lower`, `str.replace`, `", ".join`, `split()[0]`, `strip`, `int` on a signed decimal, and code-point string order |
| `paper.dfy` | `Papers` | `app/models/paper.py`: the `Paper` record, `to_dict`, and what a fetcher hands back |
| `storage.dfy` | `Storage` | `app/services/storage.py`: the table and its invariants, `upsert_papers`, `search_papers`, `get_storage` |
| `nature.dfy` | `NatureListing` | `app/crawler/nature.py`: `fetch_latest` and `_fetch_detail` |
| `nature_rss.dfy` | `NatureRss` | `app/crawler/nature_rss.py`: `fetch_latest` and `_fetch_detail` |
| `scheduler.dfy` | `Scheduling` | `app/services/scheduler.py`: the cron interpreter, the sliced sleep, `start`, `run_once`, `run_once_async`, the background job, `status` |

How the model stands in for the outside world:

- **The table.** `Storage.PaperTable` is a class. It holds the rows as a
  sequence in id order, plus the next auto-increment id. Its methods are
  proved against the functions `ApplyBatch` and `SearchSpec`. Every
  property of the table is proved about those two functions.
- **Storage faults.** A write that fails for one record of a batch is given
  as the oracle `faultAt`: the index of the failing record, if any. This is
  how a `NOT NULL` violation or an I/O error appears. As with SQLite's
  `with conn:`, such a failure rolls back the whole batch.
- **The crawlers' inputs.** What BeautifulSoup extracts from a page becomes
  a record of optional strings:
  - a `Card` for each listing card;
  - an `Item` for each RSS item.
- **Network responses.** Each listing, feed and detail request comes with a
  response value that may be a failure.
- **Parsers.** `fromisoformat`, `strptime` and `urlparse(...).netloc` are
  function parameters that return an option. `None` stands for "raised".
- **The scheduler.**
  - The stop event is a sequence of observations.
  - The clocks (`CURRENT_TIMESTAMP` and `datetime.utcnow()`) are a `Clock`
    parameter.
  - Threads become a sequential model. A background job is a call of
    `RunJob` after a successful `TriggerAsync`. On-demand runs are also
    modelled as a trace of trigger and complete events.

Behaviour worth knowing, all as the code does it:

- `run_once` asks the Nature crawler for `fetch_search`, a method it does not
  define. The `AttributeError` is swallowed, so the Nature site contributes
  nothing to a scheduled run. `Scheduling.NatureSearchOutcome` is `Raised`,
  and `Scheduling.RunBatchIsRssOnly` states the result.
- `app/__init__.py:11` defaults `STORAGE_BACKEND` to `"mysql"`, but
  `get_storage` rejects every backend except `"sqlite"`. With that default,
  every run fails before fetching. `Config.storageBackend` is `None` only when
  the key is absent; `get_storage` then falls back to `"sqlite"`.
- `upsert_papers` validates nothing, and it reports `len(papers)`, counting
  duplicate urls. The RSS crawler skips items whose title or link is empty.
  The Nature crawler skips only cards that have no title link at all.
- `search_papers` passes a negative `limit` straight to SQLite, where it means
  "no limit". A negative `offset` means 0. So `count <= limit` holds only for
  `limit >= 0`.
- The cron interpreter reads the step with Python's `int`, which accepts a
  sign. `"*/-5 * * * *"` therefore gives -300 seconds, and the loop then
  sleeps nothing between runs. This is covered by `Scheduling.CronNegativeStep`
  and by `Scheduling.SleepSliced`'s `Max(interval, 0)`.

## Model

| member | source | states |
|---|---|---|
| Papers.ToDict | app/models/paper.py:18-21 | the dictionary has exactly the nine field names as keys, and `published_at` is the ISO text of the date when present and `None` when absent |
| Papers.NineFields | app/models/paper.py:8-16 | the record has exactly nine fields |
| Papers.ToDictRoundTrip | app/models/paper.py:18-21 | reading the dictionary back gives the same `Paper`: every field is copied unchanged, and the record itself is a value that `to_dict` cannot modify |
| Papers.FromDictOnlyToDict | app/models/paper.py:18-21 | any dictionary that reads back as a `Paper` is exactly that paper's `to_dict`, so the serialisation is injective |
| Builtins.PyPrefix | app/crawler/nature.py:26 | `s[:n]` is a prefix of `s`: of length `min(n, len(s))` for `n >= 0` and `max(0, len(s)+n)` for negative `n` |
| Builtins.PyInt | app/services/scheduler.py:51 | `int` accepts exactly a digit run with an optional sign; the digit run reads as its decimal value, negated after a "-" |
| Builtins.IntTextRoundTrip | app/services/scheduler.py:51 | `int(str(n)) == n` for every integer `n` (CPython's digit limit aside, see Left out) |
| Builtins.ContainsIff | app/services/storage.py:84-87 | substring search finds a match exactly when the pattern occurs at some position |
| Builtins.RemovePrefixOnce | app/crawler/nature_rss.py:69 | removing every "https://doi.org/" from the prefix followed by a DOI that holds no such text gives the DOI |
| Builtins.JoinOccurs | app/services/storage.py:71 | every author name occurs in the `", "`-joined text |
| Builtins.TakeTokenOf | app/services/scheduler.py:49 | a run of non-space characters followed by whitespace, or by nothing, is read back as the first field |
| Builtins.DigitsRoundTrip | app/services/scheduler.py:51 | the decimal text of a natural number reads back as that number |
| Builtins.StrLessTransitive | app/services/storage.py:92 | text order is transitive (with StrLessIrreflexive and StrLessTotal: a strict total order on text) |
| Builtins.StrLessTotal | app/services/storage.py:92 | any two different texts are ordered one way or the other |
| Builtins.EmptyIsLeast | app/services/storage.py:92 | the empty text comes before any other text, so NULL dates sort last when the order is descending |
| Storage.NewRow | app/services/storage.py:53-75 | an inserted row carries the paper's fields in their stored form, under the given id and creation time |
| Storage.Overwrite | app/services/storage.py:55-63 | a conflict overwrites title, doi, source, date, authors, abstract, journal and extras, and keeps id, url and created_at |
| Storage.IndexOfUrl | app/services/storage.py:11 | the lookup by url finds a row holding that url, or reports that none does |
| Storage.IndexOfUrlUnique | app/services/storage.py:11 | with unique urls, the row found for a url is the one that holds it |
| Storage.ApplyOneInvariant | app/services/storage.py:53-63 | one upsert keeps the schema invariants (one row per url, ids increasing and below the next id) and never lowers the next id |
| Storage.LookupApplyOne | app/services/storage.py:53-63 | after one upsert, the paper's url holds the overwritten row when it was stored and a new row with the next id otherwise; every other url is unchanged |
| Storage.ApplyBatchInvariant | app/services/storage.py:50-76 | any sequence of upserts keeps at most one row per url and ids in insertion order |
| Storage.UpsertLeavesOthers | app/services/storage.py:50-76 | a batch leaves every url it does not mention unchanged |
| Storage.UpsertLastWins | app/services/storage.py:50-76 | the last record with a url in the batch is what the table holds for it; a previously stored url keeps its id and created_at, and a new url gets an id above every id stored before, created now |
| Storage.StoredStays | app/services/storage.py:55-63 | a stored url stays stored across a batch with the same id and creation time |
| Storage.NewStaysNew | app/services/storage.py:53-54 | a url that was not stored is afterwards absent, or held by a row created now whose id is above every earlier id |
| Storage.UpsertIdempotent | app/services/storage.py:55-63 | upserting the same record twice adds no second row and leaves that record stored |
| Storage.FilterRowsMembers | app/services/storage.py:84-90 | the filter keeps exactly the rows where the query, if non-empty, occurs case-insensitively in title, abstract or authors, and the source, if given and non-empty, matches exactly |
| Storage.FilterKeepsIdOrder | app/services/storage.py:84-90 | filtering keeps rows in id order |
| Storage.PrecedesIrreflexive | app/services/storage.py:92 | no row comes before itself in result order |
| Storage.PrecedesTransitive | app/services/storage.py:92 | result order is transitive |
| Storage.PrecedesTotal | app/services/storage.py:92 | any two rows with different ids are ordered |
| Storage.PrecedesAsymmetric | app/services/storage.py:92 | result order never holds both ways |
| Storage.NullDatesLast | app/services/storage.py:91-92 | a row with a non-empty date comes before a row whose date is NULL |
| Storage.TiesByRecency | app/services/storage.py:92 | among equal dates, the more recently inserted row (higher id) comes first |
| Storage.InsertRowSorted | app/services/storage.py:92 | inserting a row whose id is new into an ordered sequence keeps it ordered and adds exactly that row (the multiset part is also `InsertRowMultiset`) |
| Storage.InsertRowMultiset | app/services/storage.py:92 | inserting a row adds exactly that row and loses none |
| Storage.SortRowsCorrect | app/services/storage.py:92 | the ordering step is a permutation that leaves the rows in result order |
| Storage.WindowStart | app/services/storage.py:92-93 | the window starts at 0 for a non-positive offset, at `offset` when it is within the rows, and at the end past them |
| Storage.Window | app/services/storage.py:92-93 | the window is a contiguous run of the ordered rows starting at the offset: `min(limit, rows left)` of them for `limit >= 0`, and all the rest for a negative limit |
| Storage.WindowSound | app/services/storage.py:92-93 | a window of ordered rows is ordered and holds only those rows; with no limit and no offset it is all of them |
| Storage.SearchSound | app/services/storage.py:80-99 | every result is a stored row passing the filters, the results are in result order, and with no window every matching row appears exactly once |
| Storage.SearchFindsAuthor | app/services/storage.py:84-87 | a query that occurs (ignoring ASCII case) in one author's name finds the paper through the joined authors column |
| Storage.PaperTable.constructor | app/services/storage.py:41-43 | a new table is empty and its next id is 1 |
| Storage.PaperTable.UpsertPapers | app/services/storage.py:45-78 | an empty batch returns 0 and leaves the table untouched; a faulting batch raises and rolls back completely; otherwise the new table is the records applied in batch order and the result is `len(papers)`, duplicates included |
| Storage.PaperTable.WriteOne | app/services/storage.py:51-76 | one statement execution turns the table into the one-paper upsert of it, keeping the schema invariants |
| Storage.PaperTable.SearchPapers | app/services/storage.py:80-99 | the items are the filter, order and window applied to the table; `count` is the number of items, at most `limit` when it is non-negative; `offset` and `limit` are echoed back |
| Storage.SelectRows | app/services/storage.py:82-90 | the rows kept are exactly the filtered rows, in table order |
| Storage.TakeWindow | app/services/storage.py:92-98 | the items collected are exactly the window of the ordered rows |
| Storage.GetStorage | app/services/storage.py:102-106 | the backend is accepted exactly when it is `"sqlite"` or unset, and otherwise rejected as not implemented |
| NatureListing.AbsoluteUrl | app/crawler/nature.py:36 | an href starting with "http" is kept as it is; every url starts with "http" and ends with the href |
| NatureListing.AbsoluteUrlIdempotent | app/crawler/nature.py:36 | absolutising a url a second time changes nothing |
| NatureListing.RelativeUrlUnderBase | app/crawler/nature.py:36 | a relative href becomes the base url followed by the href |
| NatureListing.DoiFromIdentifier | app/crawler/nature.py:74-80 | a DOI is found only when the identifier is "doi:" followed by it |
| NatureListing.DoiRoundTrip | app/crawler/nature.py:79-80 | "doi:" followed by `d` yields `d`; an identifier without the prefix yields none |
| NatureListing.FetchDetail | app/crawler/nature.py:65-83 | a failed request yields (None, None); a page yields its abstract and the DOI from its identifier |
| NatureListing.FetchLatest | app/crawler/nature.py:20-63 | a failed listing request raises; otherwise the papers are those of the first `max_items` cards, in card order, with cards lacking a title link skipped |
| NatureListing.CardsPapersCount | app/crawler/nature.py:26-29 | exactly one paper per card with a title link, so never more papers than cards |
| NatureListing.CardsPapersAppend | app/crawler/nature.py:26-62 | cards are handled independently and in order |
| NatureListing.CardsPapersShape | app/crawler/nature.py:31-61 | every paper has source "nature", journal "Nature", no extras, an absolute url taken from one of the cards, and no empty author list |
| NatureListing.FetchLatestBound | app/crawler/nature.py:26 | at most `max_items` papers come back for a non-negative bound |
| NatureRss.StripDoiPrefixRoundTrip | app/crawler/nature_rss.py:69 | the DOI is the anchor text with the "https://doi.org/" prefix removed |
| NatureRss.FetchDetail | app/crawler/nature_rss.py:57-72 | an empty link or a failed request yields (None, None); a page yields its abstract, and a DOI exactly when the page has a DOI anchor, that anchor's text with every "https://doi.org/" removed |
| NatureRss.FetchDetailDoiLink | app/crawler/nature_rss.py:57-72 | a page whose DOI anchor is a doi.org link to `doi` yields exactly `doi` |
| NatureRss.ReadFeedItems | app/crawler/nature_rss.py:29-52 | the papers of one feed's first `max_items` items, in document order, up to the first item that raises; which items yield a paper and which end the feed is stated by `ItemEmitted`, `ItemSkipped`, `ItemAbortsIff` and `ItemsPapersCount` |
| NatureRss.ItemEmitted | app/crawler/nature_rss.py:39-52 | an item with a non-empty title and link whose link parses yields its paper (title, link, detail DOI and abstract, "nature-portfolio", parsed date, no authors, the netloc as journal, `{"feed": f}`) ahead of the later items' papers |
| NatureRss.ItemSkipped | app/crawler/nature_rss.py:41 | an item missing its title or link yields no paper, and the loop goes on with the next item |
| NatureRss.ItemAbortsIff | app/crawler/nature_rss.py:39 | an item ends its feed exactly when its non-empty link makes `urlparse` raise |
| NatureRss.ItemsPapersCount | app/crawler/nature_rss.py:30-52 | when no item raises, a feed yields exactly one paper per item with a non-empty title and link |
| NatureRss.ReadFeed | app/crawler/nature_rss.py:25-54 | one feed adds nothing when its request fails, and otherwise its items' papers |
| NatureRss.FetchLatest | app/crawler/nature_rss.py:22-55 | the feeds' papers concatenated in feed order, each feed read fail-soft |
| NatureRss.FeedsPapersAppend | app/crawler/nature_rss.py:24 | feeds are crawled independently and in the order given |
| NatureRss.FailedFeedIsolated | app/crawler/nature_rss.py:25-54 | a feed whose request fails contributes nothing, and the others are crawled as if it were absent |
| NatureRss.AbortKeepsEarlier | app/crawler/nature_rss.py:25-54 | an item that raises drops itself and the rest of its feed, and keeps the papers already appended |
| NatureRss.ItemsPapersBound | app/crawler/nature_rss.py:30-52 | a feed yields at most one paper per item |
| NatureRss.FeedsPapersBound | app/crawler/nature_rss.py:29 | the crawl yields at most `len(feeds) * max_items` papers |
| NatureRss.ItemsPapersShape | app/crawler/nature_rss.py:39-52 | every paper has a non-empty title and url, source "nature-portfolio", no authors, the link's netloc as journal, and `{"feed": f}` as extras |
| NatureRss.FeedsPapersShape | app/crawler/nature_rss.py:24-52 | every paper of the crawl has that shape for one of the configured feeds |
| Scheduling.CronToInterval | app/services/scheduler.py:46-54 | the interval is a whole number of minutes, and 30 minutes when the expression has no field at all |
| Scheduling.CronEveryMinutes | app/services/scheduler.py:49-51 | "*/N" followed by the other fields (or by nothing) gives `N * 60`, for every integer `N` (CPython's digit limit aside, see Left out) |
| Scheduling.CronStep | app/services/scheduler.py:49-51 | every "*/" field whose step `int` reads as `n`, in any spelling it accepts, gives `n * 60` |
| Scheduling.CronQuarterHour | app/services/scheduler.py:49-51 | "*/15 * * * *" gives 900 |
| Scheduling.CronDefaultSchedule | app/services/scheduler.py:23 | the default schedule "*/30 * * * *" gives 1800 |
| Scheduling.CronBlankFallback | app/services/scheduler.py:48-54 | an empty or blank expression gives 1800 |
| Scheduling.CronFixedMinuteFallback | app/services/scheduler.py:50-54 | every expression whose first field does not start with "*/" gives 1800 |
| Scheduling.CronNonNumericFallback | app/services/scheduler.py:51-54 | every "*/" field whose step `int` refuses gives 1800 |
| Scheduling.CronNegativeStep | app/services/scheduler.py:51 | a negative step is taken as written |
| Scheduling.SlicesShape | app/services/scheduler.py:40-44 | a full interval is slept in steps of 1 to 5 seconds that add up to the interval, `ceil(interval / 5)` of them, and none when the interval is not positive |
| Scheduling.SleepSliced | app/services/scheduler.py:40-44 | the steps taken begin the full schedule, each at most 5 seconds; `slept` never exceeds the interval; no step follows a seen stop signal; the loop ends early only on a stop signal; without one it sleeps exactly `max(interval, 0)` |
| Scheduling.SingleFlight | app/services/scheduler.py:84-94 | over any trace of triggers and completions, the jobs started and not yet finished number one when the flag is set and zero when it is clear, so on-demand jobs never overlap |
| Scheduling.SingleFlightExample | app/services/scheduler.py:84-97 | triggers, trigger, complete, trigger are answered started, refused, started |
| Scheduling.TruthyFeedsMembers | app/services/scheduler.py:68 | the feeds used are exactly the configured non-empty ones |
| Scheduling.FetcherFaultIsolation | app/services/scheduler.py:62-73 | a fetcher that raises leaves the other's papers as the batch, and without feeds the RSS crawler contributes nothing |
| Scheduling.RunBatchIsRssOnly | app/services/scheduler.py:62-73 | a run's batch is exactly the RSS results, and empty without a configured feed |
| Scheduling.Scheduler.constructor | app/services/scheduler.py:13-23 | no thread, no run recorded, a count of 0, the flag clear, and the interval read from the configured schedule (default "*/30 * * * *") |
| Scheduling.Scheduler.Start | app/services/scheduler.py:25-30 | nothing changes when the thread is alive; otherwise the stop event is cleared and the loop starts |
| Scheduling.Scheduler.RunOnce | app/services/scheduler.py:56-77 | a rejected backend raises before anything is fetched; a raising upsert leaves the table and `status()` as they were; otherwise the batch is upserted, and only then are the time and upsert's count recorded in `status()` and returned |
| Scheduling.Scheduler.TriggerAsync | app/services/scheduler.py:79-97 | a refusal returns False and changes nothing while a job runs; otherwise the flag is set and the call returns True |
| Scheduling.Scheduler.RunJob | app/services/scheduler.py:89-94 | the flag is clear afterwards, whether the run returned or raised; the run's result, table and `status()` are as for `run_once`, the thread and stop event untouched |
| Scheduling.Scheduler.RunLoopPass | app/services/scheduler.py:32-44 | a rejected backend or a raising upsert is survived and leaves the table and `status()` as they were; a successful run records its time and count; then the interval is slept in steps of at most 5 seconds, no step after the stop event is seen, ending early only when it is seen |
| Scheduling.Scheduler.Status | app/services/scheduler.py:99-105 | reports the scheduler's fields; that they are the last successful run's time and count is stated by `RunOnce`, `RunJob` and `RunLoopPass` in terms of `Status()` |

## Left out

- Threads, the lock and the event: the model is sequential. Interleavings of a
  background job with another `run_once` are not modelled. The flag's single
  flight is proved over traces of trigger and complete events.
- `time.sleep`, `datetime.utcnow()` and SQLite's `CURRENT_TIMESTAMP`: the sleeps
  are the steps returned, and the times arrive as a `Clock` parameter. One
  `CURRENT_TIMESTAMP` value serves the whole batch, although SQLite evaluates it
  per statement, so rows written in one batch could get different `created_at`.
- The outer `while not stop_event.is_set()` of `_run_loop`. The model is one pass
  (`RunLoopPass`), and the unbounded repetition is not modelled.
- A thread that dies: `threadAlive` only changes through `Start`.
- The stop event: the source never sets it, so a stop can only come from
  outside. The model's observations of it are the `stopChecks` parameter,
  which is not tied to the `stopSignalled` field that `Start` clears.
- HTTP requests and HTML/XML parsing: each page is an input record of the
  strings the selectors extract, and each request is a response that may be a
  failure.
- `datetime.fromisoformat`, `datetime.strptime` and `urlparse(...).netloc`: these
  are function parameters, and `None` means the call raised.
- `NatureListing.FetchLatest`: `get_text(strip=True)` on titles and author names
  is taken as already applied to the extracted strings.
- The SQLite engine:
  - the table is in memory;
  - `LIKE` wildcards (`%`, `_`) inside a query are treated as literal
    characters;
  - case folding is ASCII only, as SQLite's `LIKE` does by default.
- `Storage.Row`: `str(extras)` is stored as the extras map itself. The Python
  repr text is not modelled.
- Exact id values: the model gives a new row the next id and claims only that
  ids increase. An overwrite through `ON CONFLICT` does not consume an id here,
  and SQLite's sequence gaps are not modelled.
- `init_db` and connection failures: every failure inside the batch transaction
  is the single `faultAt` oracle, and schema creation cannot fail.
  `Storage.PaperTable.SearchPapers` has no error path: a failing `get_db` or
  query is not modelled.
- `Builtins.PyInt`: underscores between digits, non-ASCII digits and
  surrounding whitespace are not accepted, though Python's `int` accepts
  them. The cron field never contains whitespace. Since 3.11 (and 3.10.7)
  CPython's `int` and `str` also raise `ValueError` past 4300 decimal digits by
  default, so a step of more than 4300 digits falls back to 1800 there. The
  model has no digit limit, as older interpreters do not, and
  `Scheduling.CronEveryMinutes` and `Builtins.IntTextRoundTrip` hold for every
  integer only in that digit-unlimited reading.
- `MAX_ITEMS_PER_RUN` and `USER_AGENT`: `run_once`'s RSS result is a parameter,
  and the crawler's own model takes `max_items`. `app/__init__.py` already
  converts `MAX_ITEMS_PER_RUN` to an integer.
- `Scheduling.Scheduler.RunOnce`: the RSS crawler's outcome is an input rather
  than a call of `NatureRss.FetchLatest`. That crawler never raises, because
  every failure is caught per feed.
- `get_scheduler`, the Flask routes, the app factory, `wsgi.py` and the
  manual crawler script: these are process and HTTP plumbing outside the core.
