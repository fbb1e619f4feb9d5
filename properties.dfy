/** What the reference model of watch promises: one add_entry per board entry
    in board order, failures isolated to their entry or their cycle, the
    crawl row's `end` set exactly when the pass got through, and a loop that
    only a raising inter-cycle sleep ends. */
module Properties {
  import opened Common
  import opened Qid
  import opened Store
  import opened Cycle

  /** The i-th call carries ranking i, as enumerate() numbers them. */
  predicate Ranked(calls: seq<AddEntryCall>)
  {
    forall i :: 0 <= i < |calls| ==> calls[i].ranking == i
  }

  /** Whether add_entry's insert for a call lands: its query committed and
      the schema accepts the row. */
  predicate Persisted(t: Tables, c: AddEntryCall, write: nat -> DbOutcome)
  {
    write(c.ranking) == Committed && Accepts(t, InsertRecord(RecordOf(c)))
  }

  /** One more call: its row is appended exactly when its insert lands. */
  lemma AddEntriesLast(t: Tables, calls: seq<AddEntryCall>, write: nat -> DbOutcome)
    requires WellFormed(t) && calls != []
    ensures var before := AddEntries(t, calls[..|calls| - 1], write).records;
            var last := calls[|calls| - 1];
            AddEntries(t, calls, write).records ==
              before + (if Persisted(t, last, write) then [Record(|before| + 1, RecordOf(last))] else [])
  {
    var before := AddEntries(t, calls[..|calls| - 1], write);
    assert before.crawls == t.crawls;
  }

  /** The rows before the calls are left as they were. */
  lemma {:induction false} AddEntriesKeepsRows(t: Tables, calls: seq<AddEntryCall>, write: nat -> DbOutcome)
    requires WellFormed(t)
    ensures var r := AddEntries(t, calls, write).records;
            |r| >= |t.records| && r[..|t.records|] == t.records
  {
    if calls != [] {
      AddEntriesKeepsRows(t, calls[..|calls| - 1], write);
      AddEntriesLast(t, calls, write);
      var before := AddEntries(t, calls[..|calls| - 1], write).records;
      var r := AddEntries(t, calls, write).records;
      assert r[..|t.records|] == before[..|t.records|];
    }
  }

  /** Every row after the old ones is a call whose insert landed, with that
      call's columns, and the rows come in increasing ranking order. */
  predicate SoundRows(t: Tables, calls: seq<AddEntryCall>, write: nat -> DbOutcome, r: seq<Record>)
  {
    && |r| >= |t.records|
    && (forall j :: |t.records| <= j < |r| ==>
          && 0 <= r[j].values.ranking < |calls|
          && r[j].values == RecordOf(calls[r[j].values.ranking])
          && Persisted(t, calls[r[j].values.ranking], write))
    && (forall j, k :: |t.records| <= j < k < |r| ==> r[j].values.ranking < r[k].values.ranking)
  }

  /** The inductive step of AddEntriesSound: one more call, whose row is
      appended exactly when its insert lands. */
  lemma SoundAppend(t: Tables, calls: seq<AddEntryCall>, write: nat -> DbOutcome, before: seq<Record>, r: seq<Record>)
    requires Ranked(calls) && calls != []
    requires SoundRows(t, calls[..|calls| - 1], write, before)
    requires r == before + (if Persisted(t, calls[|calls| - 1], write)
                            then [Record(|before| + 1, RecordOf(calls[|calls| - 1]))] else [])
    ensures SoundRows(t, calls, write, r)
  {
    var n := |calls|;
    var prefix := calls[..n - 1];
    forall j | |t.records| <= j < |r|
      ensures && 0 <= r[j].values.ranking < n
              && r[j].values == RecordOf(calls[r[j].values.ranking])
              && Persisted(t, calls[r[j].values.ranking], write)
              && (j < |before| ==> r[j].values.ranking < n - 1)
    {
      if j < |before| {
        assert r[j] == before[j];
        assert prefix[before[j].values.ranking] == calls[before[j].values.ranking];
      } else {
        assert r[j].values.ranking == calls[n - 1].ranking == n - 1;
      }
    }
    forall j, k | |t.records| <= j < k < |r|
      ensures r[j].values.ranking < r[k].values.ranking
    {
      if k < |before| {
        assert r[j] == before[j] && r[k] == before[k];
      }
    }
  }

  /** Every row the calls add is a call whose insert landed, with that
      call's columns, and the rows come in increasing ranking order. */
  lemma {:induction false} AddEntriesSound(t: Tables, calls: seq<AddEntryCall>, write: nat -> DbOutcome)
    requires WellFormed(t) && Ranked(calls)
    ensures SoundRows(t, calls, write, AddEntries(t, calls, write).records)
  {
    if calls != [] {
      var prefix := calls[..|calls| - 1];
      assert Ranked(prefix);
      AddEntriesSound(t, prefix, write);
      AddEntriesLast(t, calls, write);
      SoundAppend(t, calls, write, AddEntries(t, prefix, write).records, AddEntries(t, calls, write).records);
    }
  }

  /** Every call whose insert landed has its row among those added. */
  lemma {:induction false} AddEntriesComplete(t: Tables, calls: seq<AddEntryCall>, write: nat -> DbOutcome)
    requires WellFormed(t) && Ranked(calls)
    ensures var r := AddEntries(t, calls, write).records;
            forall k :: 0 <= k < |calls| && Persisted(t, calls[k], write) ==>
              exists j :: |t.records| <= j < |r| && r[j].values.ranking == k
  {
    if calls != [] {
      var n := |calls|;
      var prefix := calls[..n - 1];
      assert Ranked(prefix);
      AddEntriesComplete(t, prefix, write);
      AddEntriesKeepsRows(t, prefix, write);
      AddEntriesLast(t, calls, write);
      var before := AddEntries(t, prefix, write).records;
      var r := AddEntries(t, calls, write).records;
      forall k | 0 <= k < n && Persisted(t, calls[k], write)
        ensures exists j :: |t.records| <= j < |r| && r[j].values.ranking == k
      {
        if k < n - 1 {
          assert prefix[k] == calls[k];
          var j :| |t.records| <= j < |before| && before[j].values.ranking == k;
          assert r[j] == before[j];
        } else {
          assert r[|r| - 1].values.ranking == k;
        }
      }
    }
  }

  /** The records the add_entry calls leave behind: the old rows untouched,
      then exactly the calls whose insert landed, in ranking order, each
      holding its call's columns. Whether an entry is written depends on its
      own outcome only. */
  lemma AddEntriesWritten(t: Tables, calls: seq<AddEntryCall>, write: nat -> DbOutcome)
    requires WellFormed(t) && Ranked(calls)
    ensures var r := AddEntries(t, calls, write).records;
            && |r| >= |t.records| && r[..|t.records|] == t.records
            && (forall j :: |t.records| <= j < |r| ==>
                  && 0 <= r[j].values.ranking < |calls|
                  && r[j].values == RecordOf(calls[r[j].values.ranking])
                  && Persisted(t, calls[r[j].values.ranking], write))
            && (forall j, k :: |t.records| <= j < k < |r| ==> r[j].values.ranking < r[k].values.ranking)
            && (forall k :: 0 <= k < |calls| && Persisted(t, calls[k], write) ==>
                  exists j :: |t.records| <= j < |r| && r[j].values.ranking == k)
  {
    AddEntriesKeepsRows(t, calls, write);
    AddEntriesSound(t, calls, write);
    AddEntriesComplete(t, calls, write);
  }

  /** The rows all calls leave when every insert lands: exactly one per
      call, in order, after the old rows. */
  predicate OneRowPerCall(t: Tables, calls: seq<AddEntryCall>, r: seq<Record>)
  {
    && |r| == |t.records| + |calls| && r[..|t.records|] == t.records
    && forall i :: 0 <= i < |calls| ==> r[|t.records| + i] == Record(|t.records| + i + 1, RecordOf(calls[i]))
  }

  /** Appending the last call's row keeps the one-row-per-call layout. */
  lemma AppendCallRow(t: Tables, before: seq<Record>, calls: seq<AddEntryCall>)
    requires calls != [] && OneRowPerCall(t, calls[..|calls| - 1], before)
    ensures OneRowPerCall(t, calls, before + [Record(|before| + 1, RecordOf(calls[|calls| - 1]))])
  {
    var n := |calls|;
    var prefix := calls[..n - 1];
    var r := before + [Record(|before| + 1, RecordOf(calls[n - 1]))];
    assert r[..|t.records|] == before[..|t.records|];
    forall i | 0 <= i < n
      ensures r[|t.records| + i] == Record(|t.records| + i + 1, RecordOf(calls[i]))
    {
      if i < n - 1 {
        assert prefix[i] == calls[i];
      }
    }
  }

  /** The inductive step of AddEntriesAllPersisted: one more landed call. */
  lemma AllPersistedStep(t: Tables, calls: seq<AddEntryCall>, write: nat -> DbOutcome)
    requires WellFormed(t) && calls != []
    requires Persisted(t, calls[|calls| - 1], write)
    requires OneRowPerCall(t, calls[..|calls| - 1], AddEntries(t, calls[..|calls| - 1], write).records)
    ensures OneRowPerCall(t, calls, AddEntries(t, calls, write).records)
  {
    AddEntriesLast(t, calls, write);
    AppendCallRow(t, AddEntries(t, calls[..|calls| - 1], write).records, calls);
  }

  /** When every insert lands, the cycle's records are exactly one per call,
      in order: rankings 0..N-1 with no gap and no duplicate. */
  lemma {:induction false} AddEntriesAllPersisted(t: Tables, calls: seq<AddEntryCall>, write: nat -> DbOutcome)
    requires WellFormed(t)
    requires forall k :: 0 <= k < |calls| ==> Persisted(t, calls[k], write)
    ensures OneRowPerCall(t, calls, AddEntries(t, calls, write).records)
  {
    if calls == [] {
      assert AddEntries(t, calls, write) == t;
    } else {
      var n := |calls|;
      var prefix := calls[..n - 1];
      forall k | 0 <= k < n - 1
        ensures Persisted(t, prefix[k], write)
      {
        assert prefix[k] == calls[k];
      }
      AddEntriesAllPersisted(t, prefix, write);
      AllPersistedStep(t, calls, write);
    }
  }

  /** The shape of a pass that reached its entries: the crawl row opened,
      then the add_entry calls over the cut board, then end_crawl. */
  lemma CycleReachedShape(t: Tables, config: map<string, int>, top: Option<int>, inp: CycleInputs)
    requires WellFormed(t) && inp.beginWrite == Committed && inp.board.Board?
    requires Truncate(inp.board.entries, top) == [] || ItemWaitAccepted(config)
    ensures var t1 := Apply(t, InsertCrawl(inp.beginTime));
            var entries := Truncate(inp.board.entries, top);
            var calls := Calls(|t.crawls| + 1, entries, inp.fetch);
            var t2 := AddEntries(t1, calls, inp.write);
            var out := CycleSpec(t, config, top, inp);
            && t1 == Tables(t.crawls + [Crawl(|t.crawls| + 1, inp.beginTime, None)], t.records)
            && CrawlExists(t1.crawls, |t.crawls| + 1)
            && out.0.records == t2.records
            && out.0.crawls == (if inp.endWrite == Committed then SetEnd(t1.crawls, inp.endTime, |t.crawls| + 1) else t1.crawls)
            && out.1.progress.crawlId == Some(|t.crawls| + 1)
            && out.1.progress.calls == calls
            && out.1.progress.fetches == FetchedUrls(entries)
            && out.1.progress.waits == (if entries == [] then [] else Repeat(config[ItemSleepKey], |entries|))
            && (out.1.progress.abort.None? <==> inp.endWrite == Committed)
  {
    var t1 := Apply(t, InsertCrawl(inp.beginTime));
    assert t1.crawls[|t.crawls|].id == |t.crawls| + 1;
  }

  /** The cycle got past get_board and the first wait, so the loop ran over
      every entry of the cut board. */
  predicate ReachedEntries(config: map<string, int>, top: Option<int>, inp: CycleInputs)
  {
    && inp.beginWrite == Committed
    && inp.board.Board?
    && (Truncate(inp.board.entries, top) == [] || ItemWaitAccepted(config))
  }

  /** One pass's add_entry calls and records: one call per entry of the cut
      board, in board order with ranking idx and the crawl's id; the records
      added are those whose insert committed and whose qid is not None, in
      ranking order, each with its entry's and detail's columns. A failed
      question request or insert for one entry changes nothing for another. */
  lemma CycleRecords(t: Tables, config: map<string, int>, top: Option<int>, inp: CycleInputs)
    requires WellFormed(t) && ReachedEntries(config, top, inp)
    ensures var out := CycleSpec(t, config, top, inp);
            var entries := Truncate(inp.board.entries, top);
            var calls := out.1.progress.calls;
            var r := out.0.records;
            && out.1.progress.crawlId == Some(|t.crawls| + 1)
            && |calls| == |entries|
            && (forall i :: 0 <= i < |calls| ==>
                  calls[i] == AddEntryCall(|t.crawls| + 1, i, entries[i], ItemDetail(entries[i], inp.fetch(i))))
            && |r| >= |t.records| && r[..|t.records|] == t.records
            && (forall j :: |t.records| <= j < |r| ==>
                  && 0 <= r[j].values.ranking < |calls|
                  && r[j].values == RecordOf(calls[r[j].values.ranking])
                  && inp.write(r[j].values.ranking) == Committed
                  && entries[r[j].values.ranking].qid.Some?)
            && (forall j, k :: |t.records| <= j < k < |r| ==> r[j].values.ranking < r[k].values.ranking)
            && (forall k :: 0 <= k < |calls| && inp.write(k) == Committed && entries[k].qid.Some? ==>
                  exists j :: |t.records| <= j < |r| && r[j].values.ranking == k)
  {
    var id := |t.crawls| + 1;
    var t1 := Apply(t, InsertCrawl(inp.beginTime));
    assert t1.crawls[|t.crawls|].id == id;
    assert CrawlExists(t1.crawls, id);
    var entries := Truncate(inp.board.entries, top);
    var calls := Calls(id, entries, inp.fetch);
    assert Ranked(calls);
    forall k | 0 <= k < |calls|
      ensures Persisted(t1, calls[k], inp.write) <==> inp.write(k) == Committed && entries[k].qid.Some?
    {
    }
    AddEntriesWritten(t1, calls, inp.write);
  }

  /** The records after `base` are one per entry, in board order, each with
      the columns add_entry writes for that entry and its ranking. */
  predicate EveryEntryRecorded(base: seq<Record>, crawlId: nat, entries: seq<Entry>, fetch: nat -> DetailFetch, r: seq<Record>)
  {
    && |r| == |base| + |entries|
    && forall i :: 0 <= i < |entries| ==>
         r[|base| + i].values == RecordOf(AddEntryCall(crawlId, i, entries[i], ItemDetail(entries[i], fetch(i))))
  }

  /** When every entry has a qid and every insert commits, the calls over
      `entries` add one record per entry, in board order. */
  lemma CallsAllWritten(t: Tables, crawlId: nat, entries: seq<Entry>, fetch: nat -> DetailFetch, write: nat -> DbOutcome)
    requires WellFormed(t) && CrawlExists(t.crawls, crawlId)
    requires forall k :: 0 <= k < |entries| ==> write(k) == Committed && entries[k].qid.Some?
    ensures EveryEntryRecorded(t.records, crawlId, entries, fetch, AddEntries(t, Calls(crawlId, entries, fetch), write).records)
  {
    var calls := Calls(crawlId, entries, fetch);
    forall k | 0 <= k < |calls|
      ensures Persisted(t, calls[k], write)
    {
      assert calls[k].ranking == k && RecordOf(calls[k]).qid == entries[k].qid;
    }
    AddEntriesAllPersisted(t, calls, write);
  }

  /** The ordinary pass: all writes commit and every entry
      has a qid, so the pass writes exactly N records, ranked 0..N-1. */
  lemma CycleWritesEveryEntry(t: Tables, config: map<string, int>, top: Option<int>, inp: CycleInputs)
    requires WellFormed(t) && ReachedEntries(config, top, inp)
    requires forall k :: 0 <= k < |Truncate(inp.board.entries, top)| ==>
               inp.write(k) == Committed && Truncate(inp.board.entries, top)[k].qid.Some?
    ensures EveryEntryRecorded(t.records, |t.crawls| + 1, Truncate(inp.board.entries, top), inp.fetch,
                               CycleSpec(t, config, top, inp).0.records)
  {
    CycleReachedShape(t, config, top, inp);
    CallsAllWritten(Apply(t, InsertCrawl(inp.beginTime)), |t.crawls| + 1, Truncate(inp.board.entries, top), inp.fetch, inp.write);
  }

  /** The crawl row of a pass: earlier rows are left exactly as they were,
      a row is added exactly when begin_crawl committed, with the begin time,
      and its `end` is set to end_crawl's time exactly when the pass got
      through every entry and end_crawl committed; otherwise it stays NULL.
      The pass reports no abort in exactly that case. */
  lemma CycleCrawlRow(t: Tables, config: map<string, int>, top: Option<int>, inp: CycleInputs)
    requires WellFormed(t)
    ensures var out := CycleSpec(t, config, top, inp);
            && |out.0.crawls| == |t.crawls| + (if inp.beginWrite == Committed then 1 else 0)
            && out.0.crawls[..|t.crawls|] == t.crawls
            && (inp.beginWrite == Committed ==>
                  out.0.crawls[|t.crawls|] ==
                    Crawl(|t.crawls| + 1, inp.beginTime,
                          if ReachedEntries(config, top, inp) && inp.endWrite == Committed
                          then Some(inp.endTime) else None))
            && (out.1.progress.abort.None? <==> ReachedEntries(config, top, inp) && inp.endWrite == Committed)
  {
    var out := CycleSpec(t, config, top, inp);
    if inp.beginWrite == Committed {
      var id := |t.crawls| + 1;
      var t1 := Apply(t, InsertCrawl(inp.beginTime));
      if inp.board.Board? && ReachedEntries(config, top, inp) {
        var calls := Calls(id, Truncate(inp.board.entries, top), inp.fetch);
        var t2 := AddEntries(t1, calls, inp.write);
        assert t2.crawls == t1.crawls;
        if inp.endWrite == Committed {
          assert out.0.crawls == SetEnd(t1.crawls, inp.endTime, id);
          assert forall i :: 0 <= i < |t.crawls| ==> out.0.crawls[i] == t.crawls[i];
        }
      }
    }
  }

  /** A failed begin_crawl raises out of the `try` body before get_board:
      the pass makes no add_entry call, requests no page and leaves both
      tables as they were, so no insert ever runs with crawl_id None. */
  lemma CycleBeginFailure(t: Tables, config: map<string, int>, top: Option<int>, inp: CycleInputs)
    requires WellFormed(t) && inp.beginWrite != Committed
    ensures var out := CycleSpec(t, config, top, inp);
            && out.0 == t
            && out.1.progress == Progress(None, Some(AbortedAtBegin), [], [], [])
  {
  }

  /** A failed get_board: the crawl row stays without `end`, no record is
      written, no question is requested, and the loop goes on exactly when
      the inter-cycle sleep returns. */
  lemma CycleBoardFailure(t: Tables, config: map<string, int>, top: Option<int>, inp: CycleInputs)
    requires WellFormed(t) && inp.beginWrite == Committed && inp.board.BoardFailed?
    ensures var out := CycleSpec(t, config, top, inp);
            && out.0 == Tables(t.crawls + [Crawl(|t.crawls| + 1, inp.beginTime, None)], t.records)
            && out.1.progress == Progress(Some(|t.crawls| + 1), Some(AbortedAtBoard), [], [], [])
            && (Continues(out.1) <==> CycleSleepKey in config &&
                                      inp.finishTime - inp.beginTime <= config[CycleSleepKey])
  {
  }

  /** Each page requested is the request of one of the entries. */
  lemma {:induction false} FetchedUrlsFromRequests(entries: seq<Entry>)
    ensures var urls := FetchedUrls(entries);
            forall j :: 0 <= j < |urls| ==>
              exists k :: 0 <= k < |entries| && RequestFor(entries[k]) == Some(urls[j])
  {
    if entries != [] {
      var prefix := entries[..|entries| - 1];
      FetchedUrlsFromRequests(prefix);
      var urls := FetchedUrls(entries);
      forall j | 0 <= j < |urls|
        ensures exists k :: 0 <= k < |entries| && RequestFor(entries[k]) == Some(urls[j])
      {
        assert urls == FetchedUrls(prefix) + (if RequestFor(entries[|entries| - 1]).Some? then [RequestFor(entries[|entries| - 1]).value] else []);
        if j < |FetchedUrls(prefix)| {
          assert urls[j] == FetchedUrls(prefix)[j];
          var k :| 0 <= k < |prefix| && RequestFor(prefix[k]) == Some(FetchedUrls(prefix)[j]);
          assert entries[k] == prefix[k];
        } else {
          assert RequestFor(entries[|entries| - 1]) == Some(urls[j]);
        }
      }
    }
  }

  /** A page get_question requests: the question URL of a non-zero id that
      getQid reads back. */
  predicate QuestionRequest(url: string)
  {
    GetQid(url).Ok? && GetQid(url).value != 0 && url == QuestionUrl(GetQid(url).value)
  }

  /** `url` is get_question's page for the entry: its qid is present and not
      the sentinel, and the URL is built from it. */
  predicate QuestionPageOf(e: Entry, url: string)
  {
    e.qid.Some? && e.qid.value != 0 && url == QuestionUrl(e.qid.value)
  }

  /** Each page requested is the question URL of one entry's non-zero id. */
  lemma FetchedUrlsOfEntries(entries: seq<Entry>)
    ensures var urls := FetchedUrls(entries);
            forall j :: 0 <= j < |urls| ==> exists k :: 0 <= k < |entries| && QuestionPageOf(entries[k], urls[j])
  {
    var urls := FetchedUrls(entries);
    FetchedUrlsFromRequests(entries);
    forall j | 0 <= j < |urls|
      ensures exists k :: 0 <= k < |entries| && QuestionPageOf(entries[k], urls[j])
    {
      var k :| 0 <= k < |entries| && RequestFor(entries[k]) == Some(urls[j]);
      assert QuestionPageOf(entries[k], urls[j]);
    }
  }

  /** Every entry with a present, non-zero qid has its question page in `urls`. */
  predicate AllRequested(entries: seq<Entry>, urls: seq<string>)
  {
    forall k :: 0 <= k < |entries| && RequestFor(entries[k]).Some? ==> RequestFor(entries[k]).value in urls
  }

  /** The inductive step of FetchedUrlsComplete: one more entry and its request. */
  lemma AllRequestedStep(prefix: seq<Entry>, last: Entry, before: seq<string>)
    requires AllRequested(prefix, before)
    ensures AllRequested(prefix + [last], before + (if RequestFor(last).Some? then [RequestFor(last).value] else []))
  {
    var entries := prefix + [last];
    var added := if RequestFor(last).Some? then [RequestFor(last).value] else [];
    forall k | 0 <= k < |entries| && RequestFor(entries[k]).Some?
      ensures RequestFor(entries[k]).value in before + added
    {
      if k < |prefix| {
        assert entries[k] == prefix[k];
      } else {
        assert entries[k] == last;
      }
    }
  }

  /** Every entry with a non-zero qid has its question page requested. */
  lemma {:induction false} FetchedUrlsComplete(entries: seq<Entry>)
    ensures AllRequested(entries, FetchedUrls(entries))
  {
    if entries != [] {
      var prefix := entries[..|entries| - 1];
      var last := entries[|entries| - 1];
      FetchedUrlsComplete(prefix);
      AllRequestedStep(prefix, last, FetchedUrls(prefix));
      assert prefix + [last] == entries;
    }
  }

  /** Every question page requested is get_question's URL of a non-zero id,
      and that URL parses back to the id: the sentinel is never requested. */
  lemma FetchedUrlsAreQuestions(entries: seq<Entry>)
    ensures var urls := FetchedUrls(entries);
            forall j :: 0 <= j < |urls| ==> QuestionRequest(urls[j])
  {
    var urls := FetchedUrls(entries);
    FetchedUrlsOfEntries(entries);
    forall j | 0 <= j < |urls|
      ensures QuestionRequest(urls[j])
    {
      var k :| 0 <= k < |entries| && QuestionPageOf(entries[k], urls[j]);
      GetQidRoundTrip(entries[k].qid.value);
    }
  }

  /** The wait before each entry uses the configured length unchanged. */
  lemma CycleWaits(t: Tables, config: map<string, int>, top: Option<int>, inp: CycleInputs)
    requires WellFormed(t) && ReachedEntries(config, top, inp)
    ensures var out := CycleSpec(t, config, top, inp);
            var n := |Truncate(inp.board.entries, top)|;
            |out.1.progress.waits| == n &&
            forall i :: 0 <= i < n ==> out.1.progress.waits[i] == config[ItemSleepKey] >= 0
  {
  }

  /** An entry get_board built from a link outside the question prefix has
      qid 0, not None: watch's `is None` test misses it, get_question(0)
      answers it, and its record gets zeros and 'skip' where the all-None
      detail was meant. */
  lemma UnparsedUrlGetsSkipDetail(url: string, heat: string, excerpt: Option<string>, title: string,
                                  fetch: DetailFetch, crawlId: nat, idx: nat)
    requires |url| < |QuestionPrefix| || url[..|QuestionPrefix|] != QuestionPrefix
    ensures var e := BoardEntry(url, heat, excerpt, title);
            && e.Ok? && e.value.qid == Some(0)
            && RequestFor(e.value).None?
            && ItemDetail(e.value, fetch) == SkipDetail != NullDetail
            && var row := RecordOf(AddEntryCall(crawlId, idx, e.value, ItemDetail(e.value, fetch)));
               row.created == Some(0) && row.visitCount == Some(0) && row.raw == Some("skip") && row.hitAt == Some(0)
  {
  }

  /** A pass leaves every record written before it untouched. */
  lemma CycleKeepsRecords(t: Tables, config: map<string, int>, top: Option<int>, inp: CycleInputs)
    requires WellFormed(t)
    ensures var out := CycleSpec(t, config, top, inp);
            |out.0.records| >= |t.records| && out.0.records[..|t.records|] == t.records
  {
    if ReachedEntries(config, top, inp) {
      CycleReachedShape(t, config, top, inp);
      var t1 := Apply(t, InsertCrawl(inp.beginTime));
      AddEntriesKeepsRows(t1, Calls(|t.crawls| + 1, Truncate(inp.board.entries, top), inp.fetch), inp.write);
    }
  }

  /** Over a run of passes every earlier row survives: records are never
      changed or deleted, and no pass touches another pass's crawl row. */
  lemma {:induction false} CyclesKeepRows(t: Tables, config: map<string, int>, top: Option<int>, inputs: seq<CycleInputs>)
    requires WellFormed(t)
    ensures var out := Cycles(t, config, top, inputs).0;
            && |out.crawls| >= |t.crawls| && out.crawls[..|t.crawls|] == t.crawls
            && |out.records| >= |t.records| && out.records[..|t.records|] == t.records
    decreases |inputs|
  {
    if inputs != [] {
      var first := CycleSpec(t, config, top, inputs[0]);
      CycleCrawlRow(t, config, top, inputs[0]);
      CycleKeepsRecords(t, config, top, inputs[0]);
      if Continues(first.1) {
        CyclesKeepRows(first.0, config, top, inputs[1..]);
        var out := Cycles(first.0, config, top, inputs[1..]).0;
        assert out.crawls[..|t.crawls|] == out.crawls[..|first.0.crawls|][..|t.crawls|];
        assert out.records[..|t.records|] == out.records[..|first.0.records|][..|t.records|];
      }
    }
  }

  /** The reports of a run over n inputs that only a raising sleep cut short. */
  predicate StopsOnlyOnSleep(reports: seq<CycleReport>, n: nat)
  {
    && (reports == [] <==> n == 0)
    && (forall k :: 0 <= k < |reports| - 1 ==> Continues(reports[k]))
    && (|reports| < n ==> !Continues(reports[|reports| - 1]))
  }

  /** The inductive step of CyclesStopOnlyOnSleep: a pass that went on, before the rest. */
  lemma StopsOnlyOnSleepStep(first: CycleReport, rest: seq<CycleReport>, n: nat)
    requires Continues(first) && n > 0 && StopsOnlyOnSleep(rest, n - 1)
    ensures StopsOnlyOnSleep([first] + rest, n)
  {
    var reports := [first] + rest;
    forall k | 0 <= k < |reports| - 1
      ensures Continues(reports[k])
    {
      if k > 0 {
        assert reports[k] == rest[k - 1];
      }
    }
    if |reports| < n {
      assert reports[|reports| - 1] == rest[|rest| - 1];
    }
  }

  /** Only the inter-cycle sleep ends the loop: every pass but the last went
      on, and a run shorter than its inputs ended on a sleep that raised. */
  lemma {:induction false} CyclesStopOnlyOnSleep(t: Tables, config: map<string, int>, top: Option<int>, inputs: seq<CycleInputs>)
    requires WellFormed(t)
    ensures StopsOnlyOnSleep(Cycles(t, config, top, inputs).1, |inputs|)
    decreases |inputs|
  {
    if inputs != [] {
      var first := CycleSpec(t, config, top, inputs[0]);
      CyclesFirstPass(t, config, top, inputs);
      if Continues(first.1) {
        CyclesStopOnlyOnSleep(first.0, config, top, inputs[1..]);
        StopsOnlyOnSleepStep(first.1, Cycles(first.0, config, top, inputs[1..]).1, |inputs|);
      }
    }
  }

  /** Failed passes do not stop watch: when every pass finishes within the
      inter-cycle interval, the loop runs every pass, whatever failed inside. */
  lemma {:induction false} CyclesRunEveryPass(t: Tables, config: map<string, int>, top: Option<int>, inputs: seq<CycleInputs>)
    requires WellFormed(t) && CycleSleepKey in config
    requires forall k :: 0 <= k < |inputs| ==> inputs[k].finishTime - inputs[k].beginTime <= config[CycleSleepKey]
    ensures |Cycles(t, config, top, inputs).1| == |inputs|
    decreases |inputs|
  {
    if inputs != [] {
      var first := CycleSpec(t, config, top, inputs[0]);
      assert Continues(first.1);
      CyclesRunEveryPass(first.0, config, top, inputs[1..]);
    }
  }

  /** The board entries of the two-entry scenario below, as get_board
      builds them: a question link, and a link outside the question prefix
      whose qid is the sentinel 0. */
  lemma ScenarioBoardEntries()
    ensures BoardEntry(QuestionUrl(42), "10", None, "A") == Ok(Entry("A", "10", None, QuestionUrl(42), Some(42)))
    ensures BoardEntry("https://www.zhihu.com/special/1", "5", None, "B") ==
              Ok(Entry("B", "5", None, "https://www.zhihu.com/special/1", Some(0)))
  {
    GetQidRoundTrip(42);
    var u := "https://www.zhihu.com/special/1";
    assert u[..|QuestionPrefix|] != QuestionPrefix by {
      assert u[22] == 's' && QuestionPrefix[22] == 'q';
    }
  }

  /** A two-entry board where the question request for the first entry
      fails and the second entry's qid is the sentinel: both rows are
      written, ranked 0 and 1; the first has the all-None detail, the second
      the zeros and 'skip' of get_question(0); the crawl row gets its end
      time. */
  lemma TwoEntryScenarioRows(a: Entry, b: Entry, t: Tables, config: map<string, int>, inp: CycleInputs)
    requires a.qid == Some(42) && b.qid == Some(0)
    requires t == Tables([], []) && config == map[ItemSleepKey := 1, CycleSleepKey := 600]
    requires inp == CycleInputs(100, Committed, Board([a, b]), _ => FetchFailed, _ => Committed, 150, Committed, 160)
    ensures var out := CycleSpec(t, config, None, inp);
            && |out.0.records| == 2
            && out.0.records[0].values == RecordOf(AddEntryCall(1, 0, a, NullDetail))
            && out.0.records[1].values == RecordOf(AddEntryCall(1, 1, b, SkipDetail))
            && out.0.crawls == [Crawl(1, 100, Some(150))]
  {
    assert Truncate([a, b], None) == [a, b];
    assert ReachedEntries(config, None, inp);
    CycleWritesEveryEntry(t, config, None, inp);
    CycleCrawlRow(t, config, None, inp);
    assert ItemDetail(a, FetchFailed) == NullDetail;
    assert ItemDetail(b, FetchFailed) == SkipDetail;
    var r := CycleSpec(t, config, None, inp).0.records;
    assert r[0].values == RecordOf(AddEntryCall(1, 0, a, ItemDetail(a, inp.fetch(0))));
    assert r[1].values == RecordOf(AddEntryCall(1, 1, b, ItemDetail(b, inp.fetch(1))));
  }

  /** The same pass requests only the first question's page, and watch then
      sleeps for the rest of the 600-second interval. */
  lemma TwoEntryScenarioRequests(a: Entry, b: Entry, t: Tables, config: map<string, int>, inp: CycleInputs)
    requires a.qid == Some(42) && b.qid == Some(0)
    requires t == Tables([], []) && config == map[ItemSleepKey := 1, CycleSleepKey := 600]
    requires inp == CycleInputs(100, Committed, Board([a, b]), _ => FetchFailed, _ => Committed, 150, Committed, 160)
    ensures var out := CycleSpec(t, config, None, inp);
            && out.1.progress.fetches == [QuestionUrl(42)]
            && out.1.pause == Ok(540)
  {
    assert Truncate([a, b], None) == [a, b];
    CycleReachedShape(t, config, None, inp);
    assert [a, b][..1] == [a];
    assert [a][..0] == [];
    assert FetchedUrls([a, b]) == FetchedUrls([a]);
  }
}
