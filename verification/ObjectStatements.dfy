/** A statement over a GetObject response: fetches take part after part of the response, and
    reads go to the row that the last delivered part became. */
module ObjectStatements {
  import opened Text
  import opened Odbc
  import opened Lookups
  import opened Streaming
  import opened Statements
  import opened StatementRuns
  import opened ObjectResultSet

  // ---- State

  const NAMES: seq<string> := [OBJECT_KEY, OBJECT_ID, MIME_TYPE, DESCRIPTION, LOCATION_URL, RAW_DATA]

  /** The number of the column that carries the object itself. */
  const RAW_COLUMN := 6

  const SQL_INTEGER := SqlOther(4)

  /** The values of the columns; a column without an entry in the row's map reads as empty. */
  function Cells(row: map<string, string>): (cells: seq<string>)
    ensures |cells| == 6
  {
    seq(6, i requires 0 <= i < 6 => if NAMES[i] in row then row[NAMES[i]] else "")
  }

  /** The current row as results of one row, with the position, and the parts still to come. */
  datatype ObjectStatement = ObjectStatement(statement: Statement, remaining: seq<ObjectDescriptor>)
  {
    predicate Valid() {
      var r := statement.results;
      |r.columns| == 6 && |r.rows| == 1 && |r.rows[0]| == 6 && r.gotFirst && r.row == 0
      && forall i | 0 <= i < 6 :: r.columns[i].data == Unmodified
    }
  }

  /** A query for objects before its first fetch. */
  function Queried(objects: seq<ObjectDescriptor>): (o: ObjectStatement)
    ensures o.Valid()
  {
    var types := [SqlVarchar, SQL_INTEGER, SqlVarchar, SqlVarchar, SqlVarchar, SqlLongVarbinary];
    var columns := seq(6, i requires 0 <= i < 6 => ColumnState(Unmodified, types[i], None));
    ObjectStatement(Statement(Results(Native, map[], columns, [Cells(map[])], true, 0), FRESH), objects)
  }

  // ---- Calls

  function Arrived(r: Results, part: ObjectDescriptor): Results {
    r.(rows := [Cells(RowOf(part))])
  }

  /** A fatal part throws before anything else happens: row and position stay. */
  function ObjectFetch(o: ObjectStatement): (result: (ObjectStatement, Output))
    requires o.Valid()
    ensures result.0.Valid()
  {
    var relevant, rest := Relevant(o.remaining), Rest(o.remaining);
    if relevant == [] then (o.(remaining := rest), Answer(NoData, []))
    else if AnswerFor(relevant[0]).Failed? then (o.(remaining := rest), Answer(Error, ["HY000"]))
    else
      var results := Arrived(o.statement.results, relevant[0]);
      var failure := results.RowFailure(0);
      (ObjectStatement(Statement(results, FRESH), rest),
       if failure.None? then Answer(Success, []) else Answer(Error, [FetchError(failure.value)]))
  }

  function ObjectStep(o: ObjectStatement, call: Call): (result: (ObjectStatement, Output))
    requires o.Valid()
    ensures result.0.Valid()
  {
    if IsFetch(call) then ObjectFetch(o)
    else
      var (next, output) := Step(o.statement, call);
      (o.(statement := next), output)
  }

  function ObjectRun(o: ObjectStatement, calls: seq<Call>): (result: (ObjectStatement, seq<Output>))
    requires o.Valid()
    ensures result.0.Valid() && |result.1| == |calls|
    decreases |calls|
  {
    if calls == [] then (o, [])
    else
      var (next, output) := ObjectStep(o, calls[0]);
      var (last, outputs) := ObjectRun(next, calls[1..]);
      (last, [output] + outputs)
  }

  // ---- What the fetches of a run answer

  function From<T>(s: seq<T>, n: nat): seq<T> {
    if n < |s| then s[n..] else []
  }

  /** After a run the parts to come are those beyond as many as there were fetches. */
  lemma {:induction false} RunConsumes(o: ObjectStatement, calls: seq<Call>)
    requires o.Valid()
    ensures Relevant(ObjectRun(o, calls).0.remaining) == From(Relevant(o.remaining), Fetches(calls))
    decreases |calls|
  {
    if calls != [] {
      RestDropsOne(o.remaining);
      RunConsumes(ObjectStep(o, calls[0]).0, calls[1..]);
    }
  }

  /** The fetch after any run answers for the part with the number of fetches before it: it
      brings that part's row and forgets the position, or fails with the part's error and leaves
      row and position alone, and without a further part there is no data. */
  lemma FetchAnswersForPart(o: ObjectStatement, calls: seq<Call>, fetch: Call)
    requires o.Valid() && IsFetch(fetch)
    ensures var before := ObjectRun(o, calls).0;
            var (after, output) := ObjectStep(before, fetch);
            var parts, j := Relevant(o.remaining), Fetches(calls);
            if j >= |parts| then output == Answer(NoData, []) && after.statement == before.statement
            else if IsFatal(parts[j].replyCode) then
              output == Answer(Error, ["HY000"]) && after.statement == before.statement
            else
              && after.statement == Statement(Arrived(before.statement.results, parts[j]), FRESH)
              && output.ret == (if after.statement.results.RowFailure(0).None? then Success else Error)
  {
    RunConsumes(o, calls);
  }

  // ---- Reads of an object

  lemma RawCell(r: Results, part: ObjectDescriptor)
    requires |r.columns| == 6 && r.row == 0 && r.columns[RAW_COLUMN - 1].data == Unmodified
    ensures Arrived(r, part).HasCell(RAW_COLUMN) && Arrived(r, part).Value(RAW_COLUMN) == part.data
  {
    assert RAW_DATA in RowOf(part) && NAMES[RAW_COLUMN - 1] == RAW_DATA;
  }

  /** The columns of a new query: characters, an integer, and the object as bytes; none is bound, and
      before the first fetch each reads as empty. */
  lemma QueriedColumns(objects: seq<ObjectDescriptor>, c: nat)
    requires 1 <= c <= 6
    ensures var r := Queried(objects).statement.results;
            && r.translator == Native && r.columns[c - 1].binding == None && r.HasCell(c) && r.Value(c) == ""
            && r.columns[c - 1].preferred ==
               (if c == 2 then SqlOther(4) else if c == 6 then SqlLongVarbinary else SqlVarchar)
  {
  }

  /** The six columns of an object, by number, and what they show of it. */
  lemma ObjectColumns(o: ObjectStatement, part: ObjectDescriptor)
    requires o.Valid()
    ensures var r := Arrived(o.statement.results, part);
            && (forall c | 1 <= c <= 6 :: r.HasCell(c)) && !r.HasCell(0) && !r.HasCell(7)
            && r.Value(1) == part.objectKey && r.Value(2) == Decimal(part.objectId) && r.Value(3) == part.contentType
            && r.Value(4) == part.description && r.Value(5) == part.locationUrl && r.Value(6) == part.data
  {
    var r, row := Arrived(o.statement.results, part), RowOf(part);
    NamesApart();
    assert forall i | 0 <= i < 6 :: NAMES[i] in row;
    assert Cells(row) == [part.objectKey, Decimal(part.objectId), part.contentType, part.description, part.locationUrl,
                          part.data];
  }

  /** Calls without a fetch are those of the state machine on the current row. */
  lemma {:induction false} RunWithoutFetch(o: ObjectStatement, calls: seq<Call>)
    requires o.Valid() && Defined(o.statement, calls) && Fetches(calls) == 0
    ensures ObjectRun(o, calls) ==
            (o.(statement := Run(o.statement, calls).0), Run(o.statement, calls).1)
    decreases |calls|
  {
    if calls != [] {
      RunWithoutFetch(ObjectStep(o, calls[0]).0, calls[1..]);
    }
  }

  lemma {:induction false} StayOnFetchesNothing(calls: seq<Call>, c: nat)
    requires StayOn(calls, c)
    ensures Fetches(calls) == 0
  {
    if calls != [] {
      assert calls[0] in calls && forall call | call in calls[1..] :: call in calls;
      StayOnFetchesNothing(calls[1..], c);
    }
  }

  /** What the reads after a fetch copied, when the state they lead to is `last`. */
  ghost predicate ObjectRead(data: string, last: ObjectStatement, outputs: seq<Output>) {
    var s := last.statement.stream;
    && PositionOn(s, RAW_COLUMN) <= |data|
    && StatementRuns.Delivered(outputs) == data[..PositionOn(s, RAW_COLUMN)]
    && (s.column == RAW_COLUMN && s.status == NoMoreData ==> StatementRuns.Delivered(outputs) == data)
  }

  lemma ReadsOfObject(st: Statement, data: string, later: seq<Call>)
    requires st.results.Valid() && st.stream == FRESH && st.results.HasCell(RAW_COLUMN)
    requires data == st.results.Value(RAW_COLUMN)
    requires Defined(st, later) && StayOn(later, RAW_COLUMN) && NeverWraps(st, later)
    ensures ObjectRead(data, ObjectStatement(Run(st, later).0, []), Run(st, later).1)
  {
    Reassembly(st, later, RAW_COLUMN);
    NoWrapNoOverrun(st, later);
    RunKeepsInv(st, later);
    StaysOnData(st, later, RAW_COLUMN);
  }

  /** Calls that stay on a cell leave its value as it is. */
  lemma {:induction false} StaysOnData(st: Statement, calls: seq<Call>, c: nat)
    requires Defined(st, calls) && StayOn(calls, c) && st.results.HasCell(c)
    ensures Run(st, calls).0.results.HasCell(c) && Run(st, calls).0.results.Value(c) == st.results.Value(c)
    decreases |calls|
  {
    if calls != [] {
      assert calls[0] in calls && forall call | call in calls[1..] :: call in calls;
      StepKeepsData(st, calls[0]);
      StaysOnData(FirstStep(st, calls).0, calls[1..], c);
    }
  }

  /** After any run, a fetch that brings a part, and then any reads of its object: what they
      copy is the beginning of that object, up to where the position is, and the whole of it
      once the position says so. Excluded are binary reads from 2^32 on. */
  lemma ObjectReassembles(o: ObjectStatement, calls: seq<Call>, fetch: Call, later: seq<Call>)
    requires o.Valid() && IsFetch(fetch) && StayOn(later, RAW_COLUMN)
    requires Fetches(calls) < |Relevant(o.remaining)|
    requires !IsFatal(Relevant(o.remaining)[Fetches(calls)].replyCode)
    requires var fetched := ObjectStep(ObjectRun(o, calls).0, fetch).0.statement;
             Defined(fetched, later) && NeverWraps(fetched, later)
    ensures var (last, outputs) := ObjectRun(ObjectStep(ObjectRun(o, calls).0, fetch).0, later);
            ObjectRead(Relevant(o.remaining)[Fetches(calls)].data, last, outputs)
  {
    var before := ObjectRun(o, calls).0;
    var fetched := ObjectStep(before, fetch).0;
    FetchAnswersForPart(o, calls, fetch);
    RawCell(before.statement.results, Relevant(o.remaining)[Fetches(calls)]);
    StayOnFetchesNothing(later, RAW_COLUMN);
    RunWithoutFetch(fetched, later);
    ReadsOfObject(fetched.statement, Relevant(o.remaining)[Fetches(calls)].data, later);
  }
}
