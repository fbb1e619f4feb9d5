/** A value-level reference for what one pass of watch's `while True` body
    does to the store, and for a run of several passes. The board, the
    question pages, the database writes and the clock are inputs: each is the
    outcome the corresponding call produced in that pass. */
module Cycle {
  import opened Common
  import opened Qid
  import opened Store

  /** A board entry as get_board builds it; `qid` is Python's value of
      item["qid"], which watch tests against None. */
  datatype Entry = Entry(title: string, heat: string, excerpt: Option<string>, url: string, qid: Option<int>)

  /** A question-detail dict. The one watch starts from has no `title` key;
      add_entry never reads `title`, so None stands for it. */
  datatype Detail = Detail(
    created: Option<int>,
    followerCount: Option<int>,
    visitCount: Option<int>,
    answerCount: Option<int>,
    title: Option<string>,
    raw: Option<string>,
    hitAt: Option<int>)

  /** The all-None detail watch writes when no detail was obtained. */
  const NullDetail: Detail := Detail(None, None, None, None, None, None, None)

  /** The fixed detail get_question returns for the sentinel id 0. */
  const SkipDetail: Detail := Detail(Some(0), Some(0), Some(0), Some(0), Some("skip"), Some("skip"), Some(0))

  /** The entry get_board builds from one item of the hot list: its link,
      metrics, excerpt and title texts, and getQid of the link; a ValueError
      of getQid escapes get_board. */
  function BoardEntry(url: string, heat: string, excerpt: Option<string>, title: string): (r: Result<Entry>)
    ensures r.Ok? <==> GetQid(url).Ok?
    ensures r.Ok? ==> r.value.qid == Some(GetQid(url).value) && r.value.url == url
    ensures r.Err? ==> r.error == ValueError
  {
    match GetQid(url)
    case Ok(q) => Ok(Entry(title, heat, excerpt, url, Some(q)))
    case Err(e) => Err(e)
  }

  /** What the request and scraping of one question page produced. */
  datatype DetailFetch = Fetched(detail: Detail) | FetchFailed

  /** What get_board produced. */
  datatype BoardFetch = BoardFailed | Board(entries: seq<Entry>)

  /** get_question: the sentinel 0 is answered with SkipDetail and no request;
      any other id gets the page's detail, or the SourceError its request or
      scraping raised. */
  function GetQuestion(qid: int, fetch: DetailFetch): (r: Result<Detail>)
    ensures qid == 0 ==> r == Ok(SkipDetail)
    ensures qid != 0 && fetch.Fetched? ==> r == Ok(fetch.detail)
    ensures qid != 0 && fetch.FetchFailed? ==> r == Err(SourceError)
  {
    if qid == 0 then Ok(SkipDetail)
    else match fetch
      case Fetched(d) => Ok(d)
      case FetchFailed => Err(SourceError)
  }

  /** The URL of the page get_question requests for an entry, if it requests one. */
  function RequestFor(e: Entry): (r: Option<string>)
    ensures r.Some? <==> e.qid.Some? && e.qid.value != 0
    ensures r.Some? ==> r.value == QuestionUrl(e.qid.value)
  {
    if e.qid.Some? && e.qid.value != 0 then Some(QuestionUrl(e.qid.value)) else None
  }

  /** The detail watch passes to add_entry for one entry: all None for an
      entry whose qid is None or whose get_question raised, otherwise what
      get_question returned. */
  function ItemDetail(e: Entry, fetch: DetailFetch): (d: Detail)
    ensures e.qid.None? ==> d == NullDetail
    ensures e.qid == Some(0) ==> d == SkipDetail
    ensures e.qid.Some? && e.qid.value != 0 ==> d == (if fetch.Fetched? then fetch.detail else NullDetail)
  {
    match e.qid
    case None => NullDetail
    case Some(q) =>
      match GetQuestion(q, fetch)
      case Ok(d) => d
      case Err(_) => NullDetail
  }

  /** The configuration key of the wait before each entry. */
  const ItemSleepKey: string := "interval_between_question"

  /** The configuration key of the wait between cycles. */
  const CycleSleepKey: string := "interval_between_board"

  /** The length `sleep` computes: the configured duration for the key plus
      delta, or the KeyError of a missing key. */
  function SleepDuration(config: map<string, int>, key: string, delta: int): (r: Result<int>)
    ensures r.Ok? <==> key in config
    ensures r.Ok? ==> r.value - delta == config[key]
    ensures r.Err? ==> r.error == KeyError(key)
  {
    if key in config then Ok(config[key] + delta) else Err(KeyError(key))
  }

  /** time.sleep returns for a non-negative length and raises ValueError for
      a negative one. */
  predicate SleepAccepts(d: int) { d >= 0 }

  /** Whether the wait before an entry returns: its key is configured and its
      length is not negative. */
  predicate ItemWaitAccepted(config: map<string, int>)
  {
    ItemSleepKey in config && SleepAccepts(config[ItemSleepKey])
  }

  /** The wait after a cycle that began at beginTime and reached the sleep at
      `now`: the next cycle is due one interval after this one began, whether
      or not that moment has already passed. */
  function CyclePause(config: map<string, int>, beginTime: int, now: int): (r: Result<int>)
    ensures r.Ok? <==> CycleSleepKey in config
    ensures r.Ok? ==> now + r.value == beginTime + config[CycleSleepKey]
    ensures r.Ok? ==> (SleepAccepts(r.value) <==> now - beginTime <= config[CycleSleepKey])
  {
    SleepDuration(config, CycleSleepKey, beginTime - now)
  }

  /** `if top: board_entries = board_entries[:top]`: no cut for None or 0, the
      first `top` entries for a positive top, all but the last -top entries
      for a negative one. */
  function Truncate<T>(entries: seq<T>, top: Option<int>): (r: seq<T>)
    ensures |r| <= |entries| && r == entries[..|r|]
    ensures top.None? || top == Some(0) ==> r == entries
    ensures top.Some? && top.value > 0 ==> |r| == Min(top.value, |entries|)
    ensures top.Some? && top.value < 0 ==> |r| == Max(0, |entries| + top.value)
  {
    if top.None? || top.value == 0 then entries
    else if top.value > 0 then entries[..Min(top.value, |entries|)]
    else entries[..Max(0, |entries| + top.value)]
  }

  /** One call of add_entry: the crawl id, the ranking idx, the board entry
      and the detail dict. */
  datatype AddEntryCall = AddEntryCall(crawlId: nat, ranking: nat, entry: Entry, detail: Detail)

  /** The row add_entry inserts: the five board columns from the entry, the
      six detail columns from the detail dict, the crawl id and the ranking. */
  function RecordOf(c: AddEntryCall): (v: RecordValues)
  {
    RecordValues(
      qid := c.entry.qid,
      crawlId := c.crawlId,
      title := c.entry.title,
      heat := c.entry.heat,
      created := c.detail.created,
      visitCount := c.detail.visitCount,
      followerCount := c.detail.followerCount,
      answerCount := c.detail.answerCount,
      excerpt := c.entry.excerpt,
      raw := c.detail.raw,
      ranking := c.ranking,
      hitAt := c.detail.hitAt,
      url := c.entry.url)
  }

  /** The add_entry calls of a cycle whose board was `entries`: one per entry,
      in board order, the i-th with ranking i. */
  function Calls(crawlId: nat, entries: seq<Entry>, fetch: nat -> DetailFetch): (calls: seq<AddEntryCall>)
    ensures |calls| == |entries|
    ensures forall i :: 0 <= i < |calls| ==>
              calls[i] == AddEntryCall(crawlId, i, entries[i], ItemDetail(entries[i], fetch(i)))
  {
    seq(|entries|, i requires 0 <= i < |entries| =>
      AddEntryCall(crawlId, i, entries[i], ItemDetail(entries[i], fetch(i))))
  }

  /** The question pages a cycle over `entries` requests, in order. */
  function FetchedUrls(entries: seq<Entry>): (urls: seq<string>)
    ensures |urls| <= |entries|
  {
    if entries == [] then []
    else
      var last := entries[|entries| - 1];
      FetchedUrls(entries[..|entries| - 1]) + (if RequestFor(last).Some? then [RequestFor(last).value] else [])
  }

  /** The tables after the add_entry calls, each an independent transaction
      whose outcome write(ranking) gives; a failed insert changes nothing. */
  function AddEntries(t: Tables, calls: seq<AddEntryCall>, write: nat -> DbOutcome): (r: Tables)
    requires WellFormed(t)
    ensures WellFormed(r) && r.crawls == t.crawls
    decreases |calls|
  {
    if calls == [] then t
    else
      var before := AddEntries(t, calls[..|calls| - 1], write);
      var last := calls[|calls| - 1];
      var stmt := InsertRecord(RecordOf(last));
      if write(last.ranking) == Committed && Accepts(before, stmt) then Apply(before, stmt) else before
  }

  /** The calls over one more entry. */
  lemma CallsSnoc(crawlId: nat, entries: seq<Entry>, fetch: nat -> DetailFetch, idx: nat)
    requires idx < |entries|
    ensures Calls(crawlId, entries, fetch)[..idx + 1] ==
              Calls(crawlId, entries, fetch)[..idx] + [AddEntryCall(crawlId, idx, entries[idx], ItemDetail(entries[idx], fetch(idx)))]
  {
    var calls := Calls(crawlId, entries, fetch);
    assert calls[idx] == AddEntryCall(crawlId, idx, entries[idx], ItemDetail(entries[idx], fetch(idx)));
    assert calls[..idx + 1] == calls[..idx] + [calls[idx]];
  }

  /** FetchedUrls over one more entry. */
  lemma FetchedUrlsSnoc(entries: seq<Entry>, idx: nat)
    requires idx < |entries|
    ensures FetchedUrls(entries[..idx + 1]) ==
              FetchedUrls(entries[..idx]) + (if RequestFor(entries[idx]).Some? then [RequestFor(entries[idx]).value] else [])
  {
    assert entries[..idx + 1][..idx] == entries[..idx];
  }

  /** AddEntries over one more call. */
  lemma AddEntriesSnoc(t: Tables, calls: seq<AddEntryCall>, c: AddEntryCall, write: nat -> DbOutcome)
    requires WellFormed(t)
    ensures var before := AddEntries(t, calls, write);
            var stmt := InsertRecord(RecordOf(c));
            AddEntries(t, calls + [c], write) ==
              if write(c.ranking) == Committed && Accepts(before, stmt) then Apply(before, stmt) else before
  {
    assert (calls + [c])[..|calls|] == calls;
  }

  function Repeat(x: int, n: nat): (s: seq<int>)
    ensures |s| == n && forall i :: 0 <= i < n ==> s[i] == x
  {
    seq(n, _ => x)
  }

  /** Everything a cycle meets from outside: the clock, the outcome of each
      database write, the board, and the outcome of each question request,
      indexed by the entry's ranking. */
  datatype CycleInputs = CycleInputs(
    beginTime: int,           // time.time() when the cycle begins
    beginWrite: DbOutcome,    // begin_crawl's insert
    board: BoardFetch,        // get_board
    fetch: nat -> DetailFetch,  // get_question's request for the entry of each ranking
    write: nat -> DbOutcome,  // add_entry's insert for each ranking
    endTime: int,             // time.time() inside end_crawl
    endWrite: DbOutcome,      // end_crawl's update
    finishTime: int)          // time.time() at the inter-cycle sleep

  /** Where an aborted cycle stopped: the exception that reached the
      cycle-level handler came from begin_crawl, get_board, the wait before the
      first entry, or end_crawl. */
  datatype Abort = AbortedAtBegin | AbortedAtBoard | AbortedAtWait | AbortedAtEnd

  /** What the `try` body of a cycle did: the crawl row it opened, where it
      stopped (None when end_crawl succeeded), the add_entry calls, the
      question pages requested and the waits before the entries. */
  datatype Progress = Progress(
    crawlId: Option<nat>,
    abort: Option<Abort>,
    calls: seq<AddEntryCall>,
    fetches: seq<string>,
    waits: seq<int>)

  /** A whole cycle: the `try` body, then the inter-cycle wait length. */
  datatype CycleReport = CycleReport(progress: Progress, pause: Result<int>)

  /** The `try` body of a cycle (begin_crawl to end_crawl) on the tables t. */
  function CrawlSpec(t: Tables, config: map<string, int>, top: Option<int>, inp: CycleInputs): (out: (Tables, Progress))
    requires WellFormed(t)
    ensures WellFormed(out.0)
  {
    if inp.beginWrite != Committed then (t, Progress(None, Some(AbortedAtBegin), [], [], []))
    else
      var crawlId := LastRowId(t, InsertCrawl(inp.beginTime));
      var t1 := Apply(t, InsertCrawl(inp.beginTime));
      match inp.board
      case BoardFailed => (t1, Progress(Some(crawlId), Some(AbortedAtBoard), [], [], []))
      case Board(all) =>
        var entries := Truncate(all, top);
        if entries != [] && !ItemWaitAccepted(config) then
          (t1, Progress(Some(crawlId), Some(AbortedAtWait), [], [], []))
        else
          var calls := Calls(crawlId, entries, inp.fetch);
          var t2 := AddEntries(t1, calls, inp.write);
          var waits := if entries == [] then [] else Repeat(config[ItemSleepKey], |entries|);
          var fetches := FetchedUrls(entries);
          if inp.endWrite == Committed then
            (Apply(t2, UpdateCrawlEnd(inp.endTime, crawlId)), Progress(Some(crawlId), None, calls, fetches, waits))
          else
            (t2, Progress(Some(crawlId), Some(AbortedAtEnd), calls, fetches, waits))
  }

  /** One pass of watch's `while True` body. */
  function CycleSpec(t: Tables, config: map<string, int>, top: Option<int>, inp: CycleInputs): (out: (Tables, CycleReport))
    requires WellFormed(t)
    ensures WellFormed(out.0)
  {
    var crawled := CrawlSpec(t, config, top, inp);
    (crawled.0, CycleReport(crawled.1, CyclePause(config, inp.beginTime, inp.finishTime)))
  }

  /** Whether watch goes on after a cycle: the inter-cycle sleep is outside
      every handler, so a missing key or a negative length ends watch. */
  predicate Continues(r: CycleReport)
  {
    r.pause.Ok? && SleepAccepts(r.pause.value)
  }

  /** The first |inputs| passes of the loop, or fewer when a sleep raised. */
  function Cycles(t: Tables, config: map<string, int>, top: Option<int>, inputs: seq<CycleInputs>): (out: (Tables, seq<CycleReport>))
    requires WellFormed(t)
    ensures WellFormed(out.0)
    ensures |out.1| <= |inputs|
    decreases |inputs|
  {
    if inputs == [] then (t, [])
    else
      var first := CycleSpec(t, config, top, inputs[0]);
      if !Continues(first.1) then (first.0, [first.1])
      else
        var rest := Cycles(first.0, config, top, inputs[1..]);
        (rest.0, [first.1] + rest.1)
  }

  /** The run `out`, preceded by the reports of earlier passes. */
  function After(earlier: seq<CycleReport>, out: (Tables, seq<CycleReport>)): (r: (Tables, seq<CycleReport>))
  {
    (out.0, earlier + out.1)
  }

  lemma AfterAfter(a: seq<CycleReport>, b: seq<CycleReport>, out: (Tables, seq<CycleReport>))
    ensures After(a, After(b, out)) == After(a + b, out)
  {
    assert a + (b + out.1) == (a + b) + out.1;
  }

  /** Unfolds Cycles by one pass. */
  lemma CyclesFirstPass(t: Tables, config: map<string, int>, top: Option<int>, inputs: seq<CycleInputs>)
    requires WellFormed(t) && inputs != []
    ensures var first := CycleSpec(t, config, top, inputs[0]);
            Cycles(t, config, top, inputs) ==
              if Continues(first.1) then After([first.1], Cycles(first.0, config, top, inputs[1..]))
              else (first.0, [first.1])
  {
  }

  /** watch: create_table, whose failure escapes before the loop, then the loop. */
  function WatchSpec(t: Tables, config: map<string, int>, top: Option<int>, schema: DbOutcome,
                     inputs: seq<CycleInputs>): (out: (Tables, seq<CycleReport>))
    requires WellFormed(t)
    ensures WellFormed(out.0)
  {
    if schema != Committed then (t, []) else Cycles(t, config, top, inputs)
  }
}
