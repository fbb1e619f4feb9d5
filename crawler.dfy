/** The crawler object: its settings, the database it writes through query(),
    the persistence helpers, one pass of the watch loop and the loop itself,
    each proved equal to the reference in module Cycle. */
module Crawler {
  import opened Common
  import opened Qid
  import opened Store
  import opened Cycle

  /** The `op` argument of query(): none, or `lambda x: x.lastrowid`. */
  datatype Op = NoOp | LastRowIdOp

  class ZhihuCrawler {
    /** settings["config"]: the named wait lengths. */
    const config: map<string, int>
    /** The database the connections of query() reach. */
    const db: Store

    constructor (config: map<string, int>, db: Store)
      ensures this.config == config && this.db == db
    {
      this.config := config;
      this.db := db;
    }

    /** query(): executes one statement and commits it, and only then applies
        `op` to the cursor; a failure in execute or commit leaves the tables
        as they were and is re-raised. */
    method Query(stmt: Statement, outcome: DbOutcome, op: Op) returns (r: Result<Option<nat>>)
      requires db.Valid()
      modifies db
      ensures db.Valid()
      ensures outcome == Committed && Accepts(old(db.Contents()), stmt) ==>
                && db.Contents() == Apply(old(db.Contents()), stmt)
                && r == Ok(if op == LastRowIdOp then Some(LastRowId(old(db.Contents()), stmt)) else None)
      ensures !(outcome == Committed && Accepts(old(db.Contents()), stmt)) ==>
                db.Contents() == old(db.Contents()) && r == Err(DatabaseError)
    {
      var executed := db.Run(stmt, outcome);
      match executed
      case Err(e) =>
        r := Err(e);
      case Ok(rowId) =>
        r := Ok(if op == LastRowIdOp then Some(rowId) else None);
    }

    /** create_table: the schema statement; the tables already exist in the model. */
    method CreateTable(outcome: DbOutcome) returns (r: Outcome)
      requires db.Valid()
      modifies db
      ensures db.Valid() && db.Contents() == old(db.Contents())
      ensures r == (if outcome == Committed then Pass else Fail(DatabaseError))
    {
      var q := Query(CreateTables, outcome, NoOp);
      r := if q.Ok? then Pass else Fail(q.error);
    }

    /** begin_crawl: inserts a crawl row with the begin time and no end, and
        returns its id. */
    method BeginCrawl(beginTime: int, outcome: DbOutcome) returns (r: Result<nat>)
      requires db.Valid()
      modifies db
      ensures db.Valid()
      ensures outcome == Committed ==>
                && db.crawls == old(db.crawls) + [Crawl(|old(db.crawls)| + 1, beginTime, None)]
                && db.records == old(db.records)
                && r == Ok(|old(db.crawls)| + 1)
      ensures outcome != Committed ==> db.Contents() == old(db.Contents()) && r == Err(DatabaseError)
    {
      var q := Query(InsertCrawl(beginTime), outcome, LastRowIdOp);
      if q.Ok? {
        r := Ok(q.value.value);
      } else {
        r := Err(q.error);
      }
    }

    /** end_crawl: sets `end` on the crawl row with the given id. */
    method EndCrawl(crawlId: nat, endTime: int, outcome: DbOutcome) returns (r: Outcome)
      requires db.Valid()
      modifies db
      ensures db.Valid()
      ensures outcome == Committed ==>
                db.Contents() == Apply(old(db.Contents()), UpdateCrawlEnd(endTime, crawlId)) && r == Pass
      ensures outcome != Committed ==> db.Contents() == old(db.Contents()) && r == Fail(DatabaseError)
    {
      var q := Query(UpdateCrawlEnd(endTime, crawlId), outcome, NoOp);
      r := if q.Ok? then Pass else Fail(q.error);
    }

    /** add_entry: inserts the record of one board entry and its detail. */
    method AddEntry(crawlId: nat, idx: nat, item: Entry, detail: Detail, outcome: DbOutcome) returns (r: Outcome)
      requires db.Valid()
      modifies db
      ensures db.Valid()
      ensures var stmt := InsertRecord(RecordOf(AddEntryCall(crawlId, idx, item, detail)));
              if outcome == Committed && Accepts(old(db.Contents()), stmt) then
                db.Contents() == Apply(old(db.Contents()), stmt) && r == Pass
              else
                db.Contents() == old(db.Contents()) && r == Fail(DatabaseError)
    {
      var q := Query(InsertRecord(RecordOf(AddEntryCall(crawlId, idx, item, detail))), outcome, NoOp);
      r := if q.Ok? then Pass else Fail(q.error);
    }

    /** The body of watch's `for idx, item in enumerate(board_entries)` for one
        entry, after its wait: the all-None detail, replaced by get_question's
        result unless qid is None or get_question raised, then add_entry,
        whose exception is caught and logged. */
    method ProcessEntry(crawlId: nat, idx: nat, item: Entry, fetch: DetailFetch, write: DbOutcome)
      returns (call: AddEntryCall, request: Option<string>)
      requires db.Valid()
      modifies db
      ensures db.Valid()
      ensures call == AddEntryCall(crawlId, idx, item, ItemDetail(item, fetch))
      ensures request == RequestFor(item)
      ensures var stmt := InsertRecord(RecordOf(call));
              db.Contents() == if write == Committed && Accepts(old(db.Contents()), stmt)
                               then Apply(old(db.Contents()), stmt) else old(db.Contents())
    {
      var detail := NullDetail;
      request := None;
      if item.qid.None? {
        // an unparsed URL is only logged
      } else {
        var qid := item.qid.value;
        if qid != 0 {
          request := Some(QuestionUrl(qid));
        }
        var got := GetQuestion(qid, fetch);
        if got.Ok? {
          detail := got.value;
        }
      }
      call := AddEntryCall(crawlId, idx, item, detail);
      var added := AddEntry(crawlId, idx, item, detail, write);
    }

    /** watch's `for` loop over the (possibly cut) board: the wait before each
        entry, whose exception leaves the loop, then the entry's processing. */
    method ProcessEntries(crawlId: nat, entries: seq<Entry>, inp: CycleInputs)
      returns (completed: bool, calls: seq<AddEntryCall>, fetches: seq<string>, waits: seq<int>)
      requires db.Valid()
      modifies db
      ensures db.Valid()
      ensures completed <==> entries == [] || ItemWaitAccepted(config)
      ensures !completed ==> db.Contents() == old(db.Contents()) && calls == [] && fetches == [] && waits == []
      ensures completed ==>
                && calls == Calls(crawlId, entries, inp.fetch)
                && db.Contents() == AddEntries(old(db.Contents()), calls, inp.write)
                && fetches == FetchedUrls(entries)
                && waits == (if entries == [] then [] else Repeat(config[ItemSleepKey], |entries|))
    {
      ghost var start := db.Contents();
      calls, fetches, waits := [], [], [];
      var idx := 0;
      while idx < |entries|
        invariant 0 <= idx <= |entries|
        invariant db.Valid()
        invariant idx > 0 ==> ItemWaitAccepted(config)
        invariant calls == Calls(crawlId, entries, inp.fetch)[..idx]
        invariant db.Contents() == AddEntries(start, calls, inp.write)
        invariant fetches == FetchedUrls(entries[..idx])
        invariant waits == if idx == 0 then [] else Repeat(config[ItemSleepKey], idx)
      {
        var wait := SleepDuration(config, ItemSleepKey, 0);
        if !(wait.Ok? && SleepAccepts(wait.value)) {
          return false, [], [], [];
        }
        waits := waits + [wait.value];
        ghost var before := calls;
        var call, request := ProcessEntry(crawlId, idx, entries[idx], inp.fetch(idx), inp.write(idx));
        AddEntriesSnoc(start, before, call, inp.write);
        FetchedUrlsSnoc(entries, idx);
        CallsSnoc(crawlId, entries, inp.fetch, idx);
        calls := calls + [call];
        if request.Some? {
          fetches := fetches + [request.value];
        }
        idx := idx + 1;
      }
      assert entries[..idx] == entries;
      completed := true;
    }

    /** The `try` body of one watch pass: begin_crawl, get_board, the optional
        cut to `top`, the loop over the entries, then end_crawl. An exception
        from begin_crawl, get_board, a wait or end_crawl leaves the body. */
    method CrawlOnce(top: Option<int>, inp: CycleInputs) returns (p: Progress)
      requires db.Valid()
      modifies db
      ensures db.Valid()
      ensures (db.Contents(), p) == CrawlSpec(old(db.Contents()), config, top, inp)
    {
      var begun := BeginCrawl(inp.beginTime, inp.beginWrite);
      if begun.Err? {
        return Progress(None, Some(AbortedAtBegin), [], [], []);
      }
      var crawlId := begun.value;
      if inp.board.BoardFailed? {
        return Progress(Some(crawlId), Some(AbortedAtBoard), [], [], []);
      }
      var entries := Truncate(inp.board.entries, top);
      var completed, calls, fetches, waits := ProcessEntries(crawlId, entries, inp);
      if !completed {
        return Progress(Some(crawlId), Some(AbortedAtWait), [], [], []);
      }
      var ended := EndCrawl(crawlId, inp.endTime, inp.endWrite);
      p := Progress(Some(crawlId), if ended.Fail? then Some(AbortedAtEnd) else None, calls, fetches, waits);
    }

    /** One pass of watch's `while True` body: the `try` body, whose escaping
        exception is logged and swallowed, then the length of the inter-cycle
        sleep, corrected by the time the pass took. */
    method Cycle(top: Option<int>, inp: CycleInputs) returns (rep: CycleReport)
      requires db.Valid()
      modifies db
      ensures db.Valid()
      ensures (db.Contents(), rep) == CycleSpec(old(db.Contents()), config, top, inp)
    {
      var progress := CrawlOnce(top, inp);
      var pause := SleepDuration(config, CycleSleepKey, inp.beginTime - inp.finishTime);
      rep := CycleReport(progress, pause);
    }

    /** watch: create_table, then passes of the loop, one per element of
        `inputs`; a pass whose inter-cycle sleep raises ends watch. */
    method Watch(top: Option<int>, schema: DbOutcome, inputs: seq<CycleInputs>) returns (reports: seq<CycleReport>)
      requires db.Valid()
      modifies db
      ensures db.Valid()
      ensures (db.Contents(), reports) == WatchSpec(old(db.Contents()), config, top, schema, inputs)
    {
      var created := CreateTable(schema);
      if created.Fail? {
        return [];
      }
      ghost var start := db.Contents();
      reports := [];
      var i := 0;
      assert inputs[i..] == inputs;
      assert [] + Cycles(start, config, top, inputs).1 == Cycles(start, config, top, inputs).1;
      while i < |inputs|
        invariant 0 <= i <= |inputs|
        invariant db.Valid()
        invariant Cycles(start, config, top, inputs) == After(reports, Cycles(db.Contents(), config, top, inputs[i..]))
      {
        ghost var here := db.Contents();
        ghost var earlier := reports;
        CyclesFirstPass(here, config, top, inputs[i..]);
        assert inputs[i..][0] == inputs[i];
        assert inputs[i..][1..] == inputs[i + 1..];
        var rep := Cycle(top, inputs[i]);
        reports := reports + [rep];
        if !Continues(rep) {
          return;
        }
        AfterAfter(earlier, [rep], Cycles(db.Contents(), config, top, inputs[i + 1..]));
        i := i + 1;
      }
      assert inputs[i..] == [];
      assert reports + [] == reports;
    }
  }
}
