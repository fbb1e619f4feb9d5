# Zhihu hot-list crawler: a verified model of its crawl loop

The Zhihu crawler polls the Zhihu hot list and stores each entry in MySQL. Each
pass of its `watch` loop goes through these steps:

1. It opens a row in the `crawl` table (`begin_crawl`).
2. It fetches the board (`get_board`), optionally cut to its first `top` entries.
3. For each entry it waits, fetches the question's detail (`get_question`) and
   inserts one row into `record` (`add_entry`). A failure of one entry's fetch
   or insert is logged and does not stop the pass.
4. It stamps the crawl row's `end` (`end_crawl`).
5. It sleeps until one interval after the pass began.

The model has six modules:

- `Common`: Python's `None` and the exceptions the crawler meets (`common.dfy`).
- `Qid`: `getQid` and the question URL that `get_question` rebuilds from an id,
  with Python's `int()` and `str()` on decimal strings (`qid.dfy`).
- `Store`: the two tables as rows, the four statements the crawler issues, the
  schema checks that can reject a statement, `query()`'s argument
  normalisation, and a `Store` class whose `crawls` and `records` fields each
  committed statement updates in place (`store.dfy`).
- `Cycle`: a value-level reference for one pass (`CrawlSpec`, `CycleSpec`), for
  a run of passes (`Cycles`) and for `watch` (`WatchSpec`) (`cycle.dfy`). Things
  from outside are inputs of a pass: the clock, the board, each question
  request, and the outcome of each database write.
- `Crawler`: the `ZhihuCrawler` class, whose methods do the steps one statement
  at a time (`crawler.dfy`). Each method is proved equal to the reference:
  `query`, `create_table`, `begin_crawl`, `end_crawl`, `add_entry`, the loop
  body, the loop over the entries, one pass, and `watch` with its loop over passes.
- `Properties`: what the reference promises, proved as lemmas (`properties.dfy`).
  - One `add_entry` call per entry, in board order, with `ranking = idx`.
  - Failures stay with their own entry.
  - The crawl row's `end` is set exactly when the pass got through.
  - A failed board leaves no records and no `end`.
  - Only a raising inter-cycle sleep ends the loop.
  - Earlier rows are never changed.

Where the code and its description disagree, the model follows the code:

- The sleep keys are `interval_between_question` and `interval_between_board`
  (`zhihu.py:110`, `zhihu.py:138`).
- The inter-cycle length is not clamped. When a pass took longer than the
  interval, the length is negative and `time.sleep` raises `ValueError`. That
  exception is outside every handler, so it ends `watch`.
- `getQid` returns `0` for a URL outside the question prefix, never `None`. So
  `watch`'s `item["qid"] is None` test (`zhihu.py:119`) never matches a board
  entry. Such an entry reaches `get_question(0)`, and its record gets zeros
  and `'skip'` rather than NULLs. The model keeps `qid` as an optional value so
  that the dead branch is modelled too. `UnparsedUrlGetsSkipDetail` states the
  consequence.
- The tables' `qid INT NOT NULL` column and the `CrawlAssociationFK` foreign
  key (`zhihu.py:158`, `zhihu.py:173`) are modelled in `Accepts`. In practice
  neither rejects an insert that `watch` makes:
  - A failed `begin_crawl` raises out of the `try` body (`query` re-raises at
    `zhihu.py:79`), so no `add_entry` runs with `crawl_id` still `None`
    (`CycleBeginFailure`). Each insert therefore references the crawl row that
    the same pass just opened.
  - `get_board` always stores an int in `qid`, so the NOT NULL check can only
    fire on the `None` branch, which is never taken.
  - `CycleRecords` states the result: a row is written exactly when its query
    commits and its `qid` is present.
- `begin_crawl` passes its begin time as a bare value. `query()` wraps only a
  truthy scalar, so a begin time of exactly `0` reaches `execute` unwrapped
  (`StatementArgsMatchPlaceholders`).

## Model

| member | source | states |
|---|---|---|
| Qid.GetQid | Zhihu_crawler/zhihu.py:26-31 | a URL whose first 31 characters are the question prefix gives `int()` of the rest, including its `ValueError`; every other string, including one shorter than the prefix, gives 0 |
| Qid.Head | Zhihu_crawler/zhihu.py:27 | `url[0:31]` is the first min(31, len) characters and a prefix of the URL |
| Qid.Tail | Zhihu_crawler/zhihu.py:29 | `url[31:]` is the rest after position 31, empty for a shorter URL |
| Qid.ParseInt | Zhihu_crawler/zhihu.py:29 | `int()` succeeds exactly on an optional sign followed by at least one ASCII digit; otherwise it raises `ValueError` (no digit-count limit, see below) |
| Qid.NatToString | Zhihu_crawler/zhihu.py:334 | `str()` of a natural is a non-empty digit string with no leading zero except for 0 itself |
| Qid.IntToString | Zhihu_crawler/zhihu.py:334 | `str()` of an int is non-empty |
| Qid.QuestionUrl | Zhihu_crawler/zhihu.py:334 | get_question's URL starts with the 31-character question prefix and is longer than it |
| Qid.DigitsRoundTrip | Zhihu_crawler/zhihu.py:334 | the digits of `str(n)` denote n |
| Qid.ParseIntRoundTrip | Zhihu_crawler/zhihu.py:29 | `int(str(i)) == i` for every integer |
| Qid.GetQidRoundTrip | Zhihu_crawler/zhihu.py:26-29 | getQid of get_question's URL for any id gives back that id |
| Qid.GetQidShortUrl | Zhihu_crawler/zhihu.py:27-31 | a URL shorter than the prefix gives the sentinel 0 |
| Qid.GetQidSentinelAmbiguous | Zhihu_crawler/zhihu.py:30-31 | question 0 and an unparsed URL both give 0 |
| Qid.GetQidBarePrefix | Zhihu_crawler/zhihu.py:28-29 | the bare prefix makes `int('')` raise `ValueError` |
| Store.SetEnd | Zhihu_crawler/zhihu.py:200 | `UPDATE crawl SET end = e WHERE id = id` changes `end` on the matching rows only |
| Store.Apply | Zhihu_crawler/zhihu.py:188-237 | a committed statement keeps both tables well formed (ids 1, 2, ... and the foreign key), keeps every existing record, and keeps each crawl row's id and begin time |
| Store.CrawlExistsAnywhere | Zhihu_crawler/zhihu.py:173 | on rows numbered from 1, the foreign-key test holds exactly when some crawl row carries the id |
| Store.LastRowId | Zhihu_crawler/zhihu.py:191 | the cursor's lastrowid is the id of the row just inserted (crawl or record), and 0 for a statement that inserts nothing |
| Store.NormalizeArgs | Zhihu_crawler/zhihu.py:65-66 | tuples and lists pass unchanged, a truthy scalar becomes a 1-tuple, a falsy scalar passes unchanged, and no truthy scalar is left |
| Store.NormalizeArgsIdempotent | Zhihu_crawler/zhihu.py:65-66 | normalising twice is normalising once |
| Store.Accepts | Zhihu_crawler/zhihu.py:158-173 | the schema rejects a record whose `qid` is NULL or whose `crawl_id` names no crawl row; it rejects no other statement |
| Store.WellFormed | Zhihu_crawler/zhihu.py:145-177 | both tables number their rows 1, 2, ... and every record's `crawl_id` names a crawl row |
| Store.StatementArgs | Zhihu_crawler/zhihu.py:188-237 | the `args` each helper passes: none for create_table, the bare begin time, `(end, id)`, and add_entry's 13-tuple |
| Store.ArgsToRecord | Zhihu_crawler/zhihu.py:217-218 | reading 13 parameters back in the INSERT's column order; any row it reads is one whose add_entry args are exactly those parameters |
| Store.InsertArgsRoundTrip | Zhihu_crawler/zhihu.py:217-236 | for every record, add_entry's normalised 13-tuple read back in the INSERT's column order gives that same record, so every value lands in its own column |
| Store.StatementArgsMatchPlaceholders | Zhihu_crawler/zhihu.py:188-237 | after normalisation, the args of end_crawl, add_entry and a non-zero begin_crawl are a tuple with one value per `%s`; a begin time of 0 stays a bare scalar |
| Store.Store.constructor | Zhihu_crawler/zhihu.py:145-179 | a fresh database has both tables empty |
| Store.Store.Run | Zhihu_crawler/zhihu.py:67-79 | a statement the schema accepts, with execute and commit succeeding, updates the tables and yields its lastrowid; any failure leaves the tables unchanged and raises |
| Cycle.BoardEntry | Zhihu_crawler/zhihu.py:278-286 | get_board's entry carries the link and `qid = getQid(link)`; a `ValueError` from getQid escapes |
| Cycle.GetQuestion | Zhihu_crawler/zhihu.py:324-336 | id 0 gives the zeros-and-'skip' detail without a request; any other id gives the fetched detail or raises |
| Cycle.RequestFor | Zhihu_crawler/zhihu.py:334-336 | a page is requested exactly for an entry with a non-zero qid, and it is that question's URL |
| Cycle.ItemDetail | Zhihu_crawler/zhihu.py:111-128 | a None qid gives the all-None detail; qid 0 gives the 'skip' detail; any other qid gives the fetched detail, or the all-None detail when the fetch raised |
| Cycle.SleepDuration | Zhihu_crawler/zhihu.py:47 | the length is `config[key] + delta`; a missing key raises `KeyError` |
| Cycle.CyclePause | Zhihu_crawler/zhihu.py:138 | the inter-cycle length ends one interval after the pass began; it is non-negative, so `time.sleep` accepts it, exactly when the pass took at most the interval |
| Cycle.Truncate | Zhihu_crawler/zhihu.py:105-106 | `if top: board[:top]` keeps a prefix: all entries for None or 0, min(top, n) for a positive top, n + top (at least 0) for a negative one |
| Cycle.SleepAccepts | Zhihu_crawler/zhihu.py:49 | `time.sleep` returns for a non-negative length and raises `ValueError` for a negative one |
| Cycle.RecordOf | Zhihu_crawler/zhihu.py:222-236 | one add_entry call's row: qid, title, heat, excerpt and url from the board entry; created, visitCount, followerCount, answerCount, raw and hit_at from the detail; the crawl id and ranking idx (column order via `Store.InsertArgsRoundTrip`) |
| Cycle.Calls | Zhihu_crawler/zhihu.py:109-132 | one add_entry call per entry, the i-th with ranking i, the crawl id and that entry's detail |
| Cycle.FetchedUrls | Zhihu_crawler/zhihu.py:119-123 | a pass requests at most one page per entry; `FetchedUrlsFromRequests` and `FetchedUrlsComplete` pin down which |
| Cycle.AddEntries | Zhihu_crawler/zhihu.py:131-134 | the calls, each in its own transaction, keep the tables well formed and leave the crawl table unchanged |
| Cycle.CrawlSpec | Zhihu_crawler/zhihu.py:91-135 | the `try` body keeps the tables well formed |
| Cycle.CycleSpec | Zhihu_crawler/zhihu.py:89-138 | a whole pass keeps the tables well formed |
| Cycle.Continues | Zhihu_crawler/zhihu.py:138 | watch goes on after a pass exactly when its inter-cycle sleep has a configured key and a non-negative length |
| Cycle.Cycles | Zhihu_crawler/zhihu.py:89-138 | a run of passes keeps the tables well formed and reports at most one pass per input |
| Cycle.WatchSpec | Zhihu_crawler/zhihu.py:88-138 | watch keeps the tables well formed |
| Crawler.ZhihuCrawler.constructor | Zhihu_crawler/zhihu.py:33-36 | the crawler holds the loaded settings and its database |
| Crawler.ZhihuCrawler.Query | Zhihu_crawler/zhihu.py:51-79 | execute and commit come first, and only then is `op` applied (lastrowid); a failure leaves the tables unchanged and is re-raised |
| Crawler.ZhihuCrawler.CreateTable | Zhihu_crawler/zhihu.py:140-180 | the schema statement changes no row and raises when its query fails |
| Crawler.ZhihuCrawler.BeginCrawl | Zhihu_crawler/zhihu.py:182-191 | on success it appends the crawl row (next id, begin time, no end) and returns its id; on failure nothing changes and it raises |
| Crawler.ZhihuCrawler.EndCrawl | Zhihu_crawler/zhihu.py:193-202 | on success it sets `end` on the crawl row with that id; on failure nothing changes and it raises |
| Crawler.ZhihuCrawler.AddEntry | Zhihu_crawler/zhihu.py:206-237 | it inserts the record of the entry and detail when the query commits and the schema accepts it; otherwise nothing changes and it raises |
| Crawler.ZhihuCrawler.ProcessEntry | Zhihu_crawler/zhihu.py:111-134 | one loop body makes the add_entry call with the entry's detail, requests the entry's page if any, and writes or drops that one row |
| Crawler.ZhihuCrawler.ProcessEntries | Zhihu_crawler/zhihu.py:109-134 | the loop completes exactly when there are no entries or the per-entry wait is accepted; it then makes exactly `Calls`, writes `AddEntries`, requests `FetchedUrls` and waits the configured length before each entry |
| Crawler.ZhihuCrawler.CrawlOnce | Zhihu_crawler/zhihu.py:91-135 | the `try` body leaves the tables and reports progress exactly as `CrawlSpec` |
| Crawler.ZhihuCrawler.Cycle | Zhihu_crawler/zhihu.py:89-138 | one pass of `while True`, including the swallowed exception and the inter-cycle length, is exactly `CycleSpec` |
| Crawler.ZhihuCrawler.Watch | Zhihu_crawler/zhihu.py:81-138 | create_table followed by passes until an inter-cycle sleep raises is exactly `WatchSpec` |
| Properties.AddEntriesLast | Zhihu_crawler/zhihu.py:131-134 | one more call appends its row exactly when its insert commits and the schema accepts it |
| Properties.AddEntriesKeepsRows | Zhihu_crawler/zhihu.py:131-134 | the calls never change or drop an existing record |
| Properties.AddEntriesSound | Zhihu_crawler/zhihu.py:131-134 | every added row belongs to a call whose insert landed, holds that call's columns, and comes in increasing ranking order |
| Properties.AddEntriesComplete | Zhihu_crawler/zhihu.py:131-134 | every call whose insert landed has its row among those added |
| Properties.AddEntriesWritten | Zhihu_crawler/zhihu.py:109-134 | old rows are kept, then exactly the landed calls follow, in ranking order, each with its columns |
| Properties.AddEntriesAllPersisted | Zhihu_crawler/zhihu.py:109-134 | when every insert lands, there is exactly one row per call, in order |
| Properties.CycleReachedShape | Zhihu_crawler/zhihu.py:91-135 | a pass that reached its entries opens crawl row n+1, makes `Calls` over the cut board, writes `AddEntries`, and sets `end` exactly when end_crawl commits |
| Properties.CycleRecords | Zhihu_crawler/zhihu.py:109-134 | one call per entry of the cut board, in order, with ranking i and the crawl's id; the records added are the calls whose insert committed with a qid, in ranking order; each entry's outcome decides only its own row |
| Properties.CallsAllWritten | Zhihu_crawler/zhihu.py:109-134 | when every entry has a qid and every insert commits, the calls add one record per entry, in board order |
| Properties.CycleWritesEveryEntry | Zhihu_crawler/zhihu.py:109-135 | under the same conditions a pass writes exactly N records; record i holds entry i, its detail and ranking i |
| Properties.CycleCrawlRow | Zhihu_crawler/zhihu.py:92-137 | earlier crawl rows are kept; a row is added exactly when begin_crawl committed, and its `end` is set exactly when the pass got through its entries and end_crawl committed; exactly then the pass reports no abort |
| Properties.CycleBeginFailure | Zhihu_crawler/zhihu.py:91-137 | a failed begin_crawl leaves both tables unchanged, makes no add_entry call and requests no page |
| Properties.CycleBoardFailure | Zhihu_crawler/zhihu.py:96-101 | a failed get_board leaves the crawl row without `end`, writes no record and requests no page; the loop goes on exactly when the inter-cycle sleep returns |
| Properties.FetchedUrlsFromRequests | Zhihu_crawler/zhihu.py:119-123 | every page requested is the request of one of the entries |
| Properties.FetchedUrlsComplete | Zhihu_crawler/zhihu.py:119-123 | every entry with a present, non-zero qid has its question page among those requested |
| Properties.FetchedUrlsOfEntries | Zhihu_crawler/zhihu.py:119-123 | every page requested is the question URL of some entry whose qid is present and not 0 |
| Properties.FetchedUrlsAreQuestions | Zhihu_crawler/zhihu.py:334-336 | every page requested parses back through getQid to a non-zero id whose URL it is; the sentinel is never requested |
| Properties.CycleWaits | Zhihu_crawler/zhihu.py:110 | before each of the N entries the pass waits the configured length, which is non-negative |
| Properties.UnparsedUrlGetsSkipDetail | Zhihu_crawler/zhihu.py:119-123 | an entry from a link outside the question prefix has qid 0, not None; it requests no page, and its record gets zeros and 'skip' instead of the all-None detail |
| Properties.CycleKeepsRecords | Zhihu_crawler/zhihu.py:131-137 | a pass never changes or drops an earlier record |
| Properties.CyclesKeepRows | Zhihu_crawler/zhihu.py:89-138 | over any run of passes, earlier crawl rows and records survive unchanged |
| Properties.CyclesStopOnlyOnSleep | Zhihu_crawler/zhihu.py:136-138 | every pass but the last went on, and a run shorter than its inputs ended on an inter-cycle sleep that raised |
| Properties.CyclesRunEveryPass | Zhihu_crawler/zhihu.py:136-138 | when every pass fits in the interval, the loop runs every pass, whatever failed inside them |
| Properties.ScenarioBoardEntries | Zhihu_crawler/zhihu.py:278-286 | get_board turns a question link into its id and a special-page link into the sentinel 0 |
| Properties.TwoEntryScenarioRows | Zhihu_crawler/zhihu.py:109-135 | two entries, a failed fetch and the sentinel: both rows are written, ranked 0 and 1, the first with the all-None detail and the second with 'skip'; the crawl row gets its end |
| Properties.TwoEntryScenarioRequests | Zhihu_crawler/zhihu.py:119-138 | the same pass requests only the first question and then sleeps for the rest of the interval |

## Left out

- Qid.ParseInt: Python's `int()` also accepts surrounding whitespace, `_` between digits and non-ASCII decimal digits. The model treats those strings as `ValueError`.
- Qid.ParseInt: CPython's integer-string conversion limit (4300 digits by default since 3.11 and 3.10.7) is not modelled. Over the limit, `int(url[31:])` at line 29 raises `ValueError` and `str(qid)` at line 334 raises too. The model parses and prints numbers of any length.
- Cycle.GetQuestion: the HTTP request, the HTML and JSON scraping and the cookie headers of `get_question` (past line 334) and of `get_board` are not modelled. Each is an input of the pass: a detail or a failure for each question, and a list of entries or a failure for the board.
- Cycle.SkipDetail: `hit_at` is the float `0.0` in the source and the integer 0 here. All timestamps (`time.time()`, `begin`, `end`, `hit_at`) are integers.
- Store.Store.Run: the pymysql connection, the cursor, the SQL text and its `%s` formatting are not modelled, only each statement's effect on the rows. Execute and commit are one outcome per statement, an input.
- Store.Apply: `AUTO_INCREMENT` gaps after a failed insert are not modelled; ids are the row's position plus one. Of the schema's checks only `qid NOT NULL` and the foreign key are modelled. VARCHAR lengths and the character set are not.
- Crawler.ZhihuCrawler.Query: the `_last_executed` log line and every other log message are not modelled.
- Crawler.ZhihuCrawler.constructor: loading the settings file and setting up the logger are I/O. The settings are the constructor's `config` map.
- Cycle.SleepDuration: `time.sleep` is modelled only as accepting or rejecting the computed length, not as blocking.
- Crawler.ZhihuCrawler.Watch: the `while True` loop is modelled as one pass per element of a finite input sequence.
- Cycle.CrawlSpec: the info log after get_board (line 104) would raise on an entry whose title is not a string. That cannot happen here, because `Entry.title` is a string.
- Cycle.ItemDetail: the info log at line 130 is in the `else:` clause of the inner `try`, so the `except` at line 124 does not catch it. It would raise on a detail whose `raw` is truthy but has no length, and that would abort the whole pass at line 136. That cannot happen here, because `Detail.raw` is a string or None.
- WebVPN_crawler/webvpn.py is not part of this model. It is browser automation with floating-point averages.
