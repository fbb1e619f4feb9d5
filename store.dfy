/** The MySQL store the crawler writes: the `crawl` and `record` tables that
    create_table defines, the statements the crawler issues against them, and
    the parameter shaping query() applies before executing one. Only the
    effect of each statement on the rows is modelled, not its SQL text. */
module Store {
  import opened Common

  /** A row of `crawl`; `end` stays NULL until end_crawl sets it. */
  datatype Crawl = Crawl(id: nat, begin: int, end: Option<int>)

  /** The thirteen columns add_entry inserts into `record`. */
  datatype RecordValues = RecordValues(
    qid: Option<int>,
    crawlId: int,
    title: string,
    heat: string,
    created: Option<int>,
    visitCount: Option<int>,
    followerCount: Option<int>,
    answerCount: Option<int>,
    excerpt: Option<string>,
    raw: Option<string>,
    ranking: int,
    hitAt: Option<int>,
    url: string)

  /** A row of `record`: its AUTO_INCREMENT id and the inserted columns. */
  datatype Record = Record(id: nat, values: RecordValues)

  /** The contents of both tables. */
  datatype Tables = Tables(crawls: seq<Crawl>, records: seq<Record>)

  /** The statements the crawler executes, each with its parameters. */
  datatype Statement =
    | CreateTables                          // create_table's two CREATE TABLE IF NOT EXISTS
    | InsertCrawl(begin: int)               // begin_crawl
    | UpdateCrawlEnd(end: int, crawlId: int)  // end_crawl
    | InsertRecord(values: RecordValues)    // add_entry

  /** How the execute and the commit of one query went, as reported by the
      database connection. */
  datatype DbOutcome = Committed | ExecuteFailed | CommitFailed

  /** A crawl row with this id is present. Rows are numbered 1, 2, ...,
      so the row with id `id` can only sit at position id - 1
      (CrawlExistsAnywhere). */
  predicate CrawlExists(crawls: seq<Crawl>, id: int)
  {
    1 <= id <= |crawls| && crawls[id - 1].id == id
  }

  /** Both tables number their rows 1, 2, ... (AUTO_INCREMENT = 1 and no
      deletes), and every record references an existing crawl (the
      CrawlAssociationFK foreign key). */
  predicate WellFormed(t: Tables)
  {
    && (forall i :: 0 <= i < |t.crawls| ==> t.crawls[i].id == i + 1)
    && (forall i :: 0 <= i < |t.records| ==>
          t.records[i].id == i + 1 && CrawlExists(t.crawls, t.records[i].values.crawlId))
  }

  /** The schema's checks on a statement: a record needs a non-NULL `qid`
      (`qid INT NOT NULL`) and an existing crawl (the foreign key). */
  predicate Accepts(t: Tables, stmt: Statement)
  {
    match stmt
    case InsertRecord(v) => v.qid.Some? && CrawlExists(t.crawls, v.crawlId)
    case _ => true
  }

  /** UPDATE crawl SET end = e WHERE id = id. */
  function SetEnd(crawls: seq<Crawl>, e: int, id: int): (r: seq<Crawl>)
    ensures |r| == |crawls|
    ensures forall i :: 0 <= i < |r| ==>
              r[i] == if crawls[i].id == id then crawls[i].(end := Some(e)) else crawls[i]
  {
    seq(|crawls|, i requires 0 <= i < |crawls| =>
      if crawls[i].id == id then crawls[i].(end := Some(e)) else crawls[i])
  }

  /** The tables after a statement the schema accepts has been committed. */
  function Apply(t: Tables, stmt: Statement): (r: Tables)
    requires WellFormed(t) && Accepts(t, stmt)
    ensures WellFormed(r)
    ensures |r.records| >= |t.records| && r.records[..|t.records|] == t.records
    ensures |r.crawls| >= |t.crawls|
    ensures forall i :: 0 <= i < |t.crawls| ==>
              r.crawls[i].id == t.crawls[i].id && r.crawls[i].begin == t.crawls[i].begin
  {
    match stmt
    case CreateTables => t
    case InsertCrawl(b) =>
      Tables(t.crawls + [Crawl(|t.crawls| + 1, b, None)], t.records)
    case UpdateCrawlEnd(e, id) =>
      Tables(SetEnd(t.crawls, e, id), t.records)
    case InsertRecord(v) =>
      Tables(t.crawls, t.records + [Record(|t.records| + 1, v)])
  }

  /** On numbered rows, CrawlExists is the same as some row carrying the id. */
  lemma CrawlExistsAnywhere(t: Tables, id: int)
    requires WellFormed(t)
    ensures CrawlExists(t.crawls, id) <==> exists i :: 0 <= i < |t.crawls| && t.crawls[i].id == id
  {
    if exists i :: 0 <= i < |t.crawls| && t.crawls[i].id == id {
      var i :| 0 <= i < |t.crawls| && t.crawls[i].id == id;
      assert i == id - 1;
    }
  }

  /** The cursor's lastrowid after the statement: the id of the row it
      inserted, 0 for a statement that inserts nothing. */
  function LastRowId(t: Tables, stmt: Statement): (id: nat)
    requires WellFormed(t) && Accepts(t, stmt)
    ensures stmt.InsertCrawl? ==>
              id >= 1 && |Apply(t, stmt).crawls| == id && Apply(t, stmt).crawls[id - 1] == Crawl(id, stmt.begin, None)
    ensures stmt.InsertRecord? ==>
              id >= 1 && |Apply(t, stmt).records| == id && Apply(t, stmt).records[id - 1] == Record(id, stmt.values)
    ensures !stmt.InsertCrawl? && !stmt.InsertRecord? ==> id == 0
  {
    match stmt
    case InsertCrawl(_) => |t.crawls| + 1
    case InsertRecord(_) => |t.records| + 1
    case _ => 0
  }

  /** A parameter value handed to cursor.execute. */
  datatype Value = Null | Int(i: int) | Str(s: string)

  /** The `args` argument of query(): a single value (Null stands for None),
      a tuple or a list of values. */
  datatype Args = Scalar(value: Value) | Tuple(items: seq<Value>) | List(items: seq<Value>)

  /** Python truthiness of `args`. */
  predicate Truthy(a: Args)
  {
    match a
    case Scalar(v) => (match v case Null => false case Int(i) => i != 0 case Str(s) => s != [])
    case Tuple(items) => items != []
    case List(items) => items != []
  }

  /** query()'s normalisation: a truthy argument that is neither a tuple nor a
      list is wrapped into a one-element tuple; anything else passes unchanged. */
  function NormalizeArgs(a: Args): (r: Args)
    ensures (a.Tuple? || a.List?) ==> r == a
    ensures a.Scalar? && Truthy(a) ==> r == Tuple([a.value])
    ensures a.Scalar? && !Truthy(a) ==> r == a
    ensures r.Scalar? ==> !Truthy(r)
  {
    if Truthy(a) && !(a.Tuple? || a.List?) then Tuple([a.value]) else a
  }

  /** Normalising twice is normalising once. */
  lemma NormalizeArgsIdempotent(a: Args)
    ensures NormalizeArgs(NormalizeArgs(a)) == NormalizeArgs(a)
  {
  }

  /** The number of %s placeholders in each statement's SQL text. */
  function Placeholders(stmt: Statement): (n: nat)
  {
    match stmt
    case CreateTables => 0
    case InsertCrawl(_) => 1
    case UpdateCrawlEnd(_, _) => 2
    case InsertRecord(_) => 13
  }

  /** A nullable INT parameter: None is bound as NULL. */
  function OptInt(o: Option<int>): (v: Value)
  {
    match o case None => Null case Some(i) => Int(i)
  }

  /** A nullable text parameter: None is bound as NULL. */
  function OptStr(o: Option<string>): (v: Value)
  {
    match o case None => Null case Some(s) => Str(s)
  }

  /** The `args` each helper passes to query(): create_table none, begin_crawl
      the bare begin time, end_crawl and add_entry a tuple in column order. */
  function StatementArgs(stmt: Statement): (a: Args)
  {
    match stmt
    case CreateTables => Scalar(Null)
    case InsertCrawl(b) => Scalar(Int(b))
    case UpdateCrawlEnd(e, id) => Tuple([Int(e), Int(id)])
    case InsertRecord(v) =>
      Tuple([OptInt(v.qid), Int(v.crawlId), Str(v.title), Str(v.heat), OptInt(v.created),
             OptInt(v.visitCount), OptInt(v.followerCount), OptInt(v.answerCount),
             OptStr(v.excerpt), OptStr(v.raw), Int(v.ranking), OptInt(v.hitAt), Str(v.url)])
  }

  /** Reads a nullable INT parameter back: NULL is None. */
  function DecodeOptInt(v: Value): (r: Option<Option<int>>)
    ensures r.Some? <==> !v.Str?
    ensures r.Some? ==> OptInt(r.value) == v
  {
    match v
    case Null => Some(None)
    case Int(i) => Some(Some(i))
    case Str(_) => None
  }

  /** Reads a nullable text parameter back: NULL is None. */
  function DecodeOptStr(v: Value): (r: Option<Option<string>>)
    ensures r.Some? <==> !v.Int?
    ensures r.Some? ==> OptStr(r.value) == v
  {
    match v
    case Null => Some(None)
    case Str(s) => Some(Some(s))
    case Int(_) => None
  }

  /** The row MySQL builds from add_entry's parameters: the thirteen values
      bound, in order, to the INSERT's column list `qid`, `crawl_id`, `title`,
      `heat`, `created`, `visitCount`, `followerCount`, `answerCount`,
      `excerpt`, `raw`, `ranking`, `hit_at`, `url`. Parameters of another
      shape, or NULL in a NOT NULL column other than `qid`, give no row. */
  function ArgsToRecord(a: Args): (r: Option<RecordValues>)
    ensures r.Some? ==> StatementArgs(InsertRecord(r.value)) == a
  {
    if !a.Tuple? || |a.items| != 13 then None
    else
      var x := a.items;
      var qid := DecodeOptInt(x[0]);
      var created := DecodeOptInt(x[4]);
      var visitCount := DecodeOptInt(x[5]);
      var followerCount := DecodeOptInt(x[6]);
      var answerCount := DecodeOptInt(x[7]);
      var excerpt := DecodeOptStr(x[8]);
      var raw := DecodeOptStr(x[9]);
      var hitAt := DecodeOptInt(x[11]);
      if && qid.Some? && x[1].Int? && x[2].Str? && x[3].Str? && created.Some? && visitCount.Some?
         && followerCount.Some? && answerCount.Some? && excerpt.Some? && raw.Some? && x[10].Int?
         && hitAt.Some? && x[12].Str?
      then
        var v := RecordValues(qid.value, x[1].i, x[2].s, x[3].s, created.value, visitCount.value,
                              followerCount.value, answerCount.value, excerpt.value, raw.value,
                              x[10].i, hitAt.value, x[12].s);
        assert StatementArgs(InsertRecord(v)).items == x;
        Some(v)
      else None
  }

  /** add_entry's parameters put every column of the record in its place:
      reading the normalised tuple back, in the INSERT's column order, gives
      the record itself. */
  lemma InsertArgsRoundTrip(v: RecordValues)
    ensures ArgsToRecord(NormalizeArgs(StatementArgs(InsertRecord(v)))) == Some(v)
  {
    var a := StatementArgs(InsertRecord(v));
    assert NormalizeArgs(a) == a;
    var x := a.items;
    assert |x| == 13;
    assert DecodeOptInt(x[0]) == Some(v.qid) && DecodeOptInt(x[4]) == Some(v.created);
    assert DecodeOptInt(x[5]) == Some(v.visitCount) && DecodeOptInt(x[6]) == Some(v.followerCount);
    assert DecodeOptInt(x[7]) == Some(v.answerCount) && DecodeOptInt(x[11]) == Some(v.hitAt);
    assert DecodeOptStr(x[8]) == Some(v.excerpt) && DecodeOptStr(x[9]) == Some(v.raw);
  }

  /** After normalisation every statement the crawler issues carries one
      parameter per placeholder, except a begin time of 0, which is falsy and
      so reaches execute as a bare value. */
  lemma StatementArgsMatchPlaceholders(stmt: Statement)
    ensures stmt != InsertCrawl(0) && !stmt.CreateTables? ==>
              NormalizeArgs(StatementArgs(stmt)).Tuple? &&
              |NormalizeArgs(StatementArgs(stmt)).items| == Placeholders(stmt)
    ensures stmt == InsertCrawl(0) ==> NormalizeArgs(StatementArgs(stmt)) == Scalar(Int(0))
    ensures stmt.CreateTables? ==> NormalizeArgs(StatementArgs(stmt)) == Scalar(Null)
  {
  }

  /** The database: both tables, updated in place by each committed statement. */
  class Store {
    var crawls: seq<Crawl>
    var records: seq<Record>

    function Contents(): (t: Tables)
      reads this
    {
      Tables(crawls, records)
    }

    ghost predicate Valid()
      reads this
    {
      WellFormed(Contents())
    }

    /** An empty database, as create_table leaves a fresh one. */
    constructor ()
      ensures Valid() && crawls == [] && records == []
    {
      crawls := [];
      records := [];
    }

    /** Executes one statement in its own transaction and commits it. A
        statement that fails, whether in execute, in a schema check or in the
        commit, leaves both tables as they were. */
    method Run(stmt: Statement, outcome: DbOutcome) returns (r: Result<nat>)
      requires Valid()
      modifies this
      ensures Valid()
      ensures outcome == Committed && Accepts(old(Contents()), stmt) ==>
                Contents() == Apply(old(Contents()), stmt) && r == Ok(LastRowId(old(Contents()), stmt))
      ensures !(outcome == Committed && Accepts(old(Contents()), stmt)) ==>
                Contents() == old(Contents()) && r == Err(DatabaseError)
    {
      if outcome == Committed && Accepts(Contents(), stmt) {
        r := Ok(LastRowId(Contents(), stmt));
        var t := Apply(Contents(), stmt);
        crawls, records := t.crawls, t.records;
      } else {
        r := Err(DatabaseError);
      }
    }
  }
}
