/** A statement as a state machine: its cursor over the loaded rows, its column bindings and
    its position in the column being read. Every call gives the next state and what the
    application sees. The class RetsSTMT refines it. */
module Statements {
  import opened Text
  import opened Odbc
  import opened DateTimes
  import opened Numerics
  import opened Lookups
  import opened Streaming

  // ---- Types and their workers

  /** `SqlDefault` is SQL_C_DEFAULT, and also -1, which asks for the same. */
  datatype SqlType = SqlChar | SqlVarchar | SqlBinary | SqlVarbinary | SqlLongVarbinary
                   | SqlDate | SqlTime | SqlTimestamp | SqlNumeric | SqlDefault | SqlOther(code: int)

  datatype Translator = Native | CharOnly

  datatype Handler = Streams(worker: Worker) | Dates | Times | Timestamps | Numbers | Missing

  function HandlerFor(translator: Translator, targetType: SqlType): Handler {
    match targetType
    case SqlBinary | SqlVarbinary | SqlLongVarbinary => Streams(Binary)
    case SqlChar | SqlVarchar => Streams(Character)
    case _ =>
      if translator.CharOnly? then Streams(Character)
      else
        match targetType
        case SqlDate => Dates
        case SqlTime => Times
        case SqlTimestamp => Timestamps
        case SqlNumeric => Numbers
        case _ => Missing
  }

  /** What a worker without a position throws on a value. */
  function Throws(handler: Handler, value: string): Option<Exception> {
    match handler
    case Streams(_) => None
    case Dates => if Blank(value) || FindDate(value).Some? then None else Some(DateTimeFormat)
    case Timestamps => if Blank(value) || FindDate(value).Some? then None else Some(DateTimeFormat)
    case Times => if Blank(value) || FindTime(value).Some? then None else Some(DateTimeFormat)
    case Numbers => if Trim(value) == "" || Converts(Trim(value)) then None else Some(DataTranslation)
    case Missing => Some(MissingTranslator)
  }

  /** The length or indicator that a typed worker reports for a value, if any. */
  function TypedReported(handler: Handler, value: string): Option<int>
    requires !handler.Streams?
  {
    match handler
    case Dates => Some(if Blank(value) || FindDate(value).None?
                          || DateFields(value, FindDate(value).value) == ZERO_DATE
                       then NULL_DATA else SQL_DATE_LEN)
    case Timestamps => Some(if Blank(value) || FindDate(value).None? then NULL_DATA else SQL_TIMESTAMP_LEN)
    case Times => Some(if Blank(value) || FindTime(value).None? then NULL_DATA else SQL_TIME_LEN)
    case Numbers => if Trim(value) == "" then Some(NULL_DATA)
                    else if Converts(Trim(value)) then Some(SIZEOF_NUMERIC_STRUCT)
                    else None
    case Missing => Some(NULL_DATA)
  }

  // ---- State

  datatype Binding = Binding(targetType: SqlType, length: int)

  datatype ColumnState = ColumnState(data: ColumnData, preferred: SqlType, binding: Option<Binding>)

  /** A bulk result set: all rows loaded, and an iterator that points at the first row before
      any fetch. */
  datatype Results = Results(translator: Translator, types: LookupTypes, columns: seq<ColumnState>,
                             rows: seq<seq<string>>, gotFirst: bool, row: nat)
  {
    predicate Valid() {
      row < |rows| || (rows == [] && row == 0 && !gotFirst)
    }

    predicate HasNext() {
      if gotFirst then row + 1 != |rows| else row != |rows|
    }

    /** The row that the next fetch moves to. */
    function NextRow(): nat {
      if gotFirst then row + 1 else row
    }

    function Next(): Results {
      this.(row := NextRow(), gotFirst := true)
    }

    predicate HasCell(c: nat) {
      1 <= c <= |columns| && row < |rows| && c <= |rows[row]|
    }

    /** What the column hands to its translator for the current row. */
    function Value(c: nat): string
      requires HasCell(c)
    {
      Modified(types, columns[c - 1].data, rows[row][c - 1])
    }

    function HandlerOf(column: ColumnState, targetType: SqlType): Handler {
      HandlerFor(translator, if targetType.SqlDefault? then column.preferred else targetType)
    }

    /** The exception, if any, that handing the current row to the bound columns from k on ends
        with. A row longer than the columns runs off their end. */
    function RowFailure(k: nat): Option<Exception>
      requires row < |rows|
      decreases |rows[row]| - k
    {
      if k >= |rows[row]| then None
      else if k >= |columns| then Some(OutOfRange)
      else if BoundFailure(k).Some? then BoundFailure(k)
      else RowFailure(k + 1)
    }

    /** The column at which handing over the current row from k on stops. */
    function StopAt(k: nat): (stop: nat)
      requires row < |rows|
      ensures k <= stop
      decreases |rows[row]| - k
    {
      if !HasCell(k + 1) || BoundFailure(k).Some? then k else StopAt(k + 1)
    }

    function BoundFailure(k: nat): Option<Exception>
      requires HasCell(k + 1)
    {
      var column := columns[k];
      if column.binding.None? then None
      else Throws(HandlerOf(column, column.binding.value.targetType), Value(k + 1))
    }
  }

  /** Loading a row rewinds the iterator; that a row was fetched before is remembered. */
  function RowAdded(r: Results, row: seq<string>): Results {
    r.(rows := r.rows + [row], row := 0)
  }

  datatype Statement = Statement(results: Results, stream: Stream)

  // ---- Calls

  datatype Call = Fetch
                | FetchScroll(next: bool)
                | GetData(column: nat, targetType: SqlType, hasTarget: bool, length: int)
                | BindCol(column: nat, targetType: SqlType, hasTarget: bool, length: int)
                | Unbind

  /** What the application sees: the return code, the SQLSTATEs, the bytes that a streaming
      read copied, and the length reported. */
  datatype Output = Output(ret: ReturnCode, errors: seq<string>, copied: string, reported: Option<int>)

  function Answer(ret: ReturnCode, errors: seq<string>): Output {
    Output(ret, errors, "", None)
  }

  /** Without rows there is no iterator to read through, so no application may ask for data. */
  predicate Defined(st: Statement, calls: seq<Call>) {
    st.results.Valid() && (st.results.rows == [] ==> forall call | call in calls :: !call.GetData?)
  }

  /** The guard that is to refuse a bad column number asks for one that is both too small and too
      large. */
  predicate ColumnGuard(c: nat, columnCount: nat) {
    c < 1 && c > columnCount
  }

  function Step(st: Statement, call: Call): (Statement, Output)
    requires Defined(st, [call])
  {
    match call
    case Fetch => FetchStep(st)
    case FetchScroll(next) => if next then FetchStep(st) else (st, Answer(Error, ["HY106"]))
    case GetData(c, targetType, hasTarget, length) =>
      assert call in [call];
      GetDataStep(st, c, targetType, hasTarget, length)
    case BindCol(c, targetType, hasTarget, length) =>
      if ColumnGuard(c, |st.results.columns|) then (st, Answer(Error, ["07009"]))
      else if !hasTarget then (st, Answer(Error, []))
      else if c == 0 || c > |st.results.columns| then (st, Answer(Error, ["HY000"]))
      else (st.(results := WithBinding(st.results, c, Binding(targetType, length))), Answer(Success, []))
    case Unbind => (st.(results := Unbound(st.results)), Answer(Success, []))
  }

  function WithBinding(r: Results, c: nat, binding: Binding): Results
    requires 1 <= c <= |r.columns|
  {
    r.(columns := r.columns[c - 1 := r.columns[c - 1].(binding := Some(binding))])
  }

  function Unbound(r: Results): Results {
    r.(columns := seq(|r.columns|, i requires 0 <= i < |r.columns| => r.columns[i].(binding := None)))
  }

  function FetchError(e: Exception): string {
    match e
    case MissingTranslator => "HY000"
    case DateTimeFormat => "22007"
    case _ => "01S01"
  }

  /** A fetch that passes `hasNext` moves the cursor and forgets the position in the column,
      also when the row then fails to translate. */
  function FetchStep(st: Statement): (Statement, Output)
    requires st.results.Valid()
  {
    if st.results.rows == [] || !st.results.HasNext() then (st, Answer(NoData, []))
    else
      var results := st.results.Next();
      var failure := results.RowFailure(0);
      (Statement(results, FRESH),
       if failure.None? then Answer(Success, []) else Answer(Error, [FetchError(failure.value)]))
  }

  function Selected(s: Stream, c: nat): Stream {
    if s.column != c then FRESH.(column := c) else s
  }

  /** A read of a cell with the position `s`. */
  function ReadCell(results: Results, s: Stream, c: nat, targetType: SqlType, hasTarget: bool, length: int): Read
    requires results.HasCell(c)
  {
    var handler, value := results.HandlerOf(results.columns[c - 1], targetType), results.Value(c);
    if handler.Streams? then ReadStream(handler.worker, value, s, Int32(length), hasTarget)
    else Read(s, "", TypedReported(handler, value), Throws(handler, value))
  }

  function GetDataStep(st: Statement, c: nat, targetType: SqlType, hasTarget: bool, length: int)
    : (Statement, Output)
    requires st.results.Valid() && st.results.rows != []
  {
    var s := Selected(st.stream, c);
    if ColumnGuard(c, |st.results.columns|) then (st, Answer(Error, ["07009"]))
    else if s.status == NoMoreData then (st.(stream := s), Answer(NoData, []))
    else if !st.results.HasCell(c) then (st.(stream := s), Answer(Error, ["HY000"]))
    else
      var r := ReadCell(st.results, s, c, targetType, hasTarget, length);
      (st.(stream := r.stream), GetDataOutput(r))
  }

  function GetDataOutput(r: Read): Output {
    var (ret, errors) := ReadAnswer(r.thrown, r.stream.status);
    Output(ret, errors, r.copied, r.reported)
  }

  function ReadAnswer(thrown: Option<Exception>, status: Status): (ReturnCode, seq<string>) {
    match thrown
    case Some(MissingTranslator) => (SuccessWithInfo, ["01000"])
    case Some(DateTimeFormat) => (Error, ["22007"])
    case Some(_) => (Error, ["HY000"])
    case None => if status == HasMoreData then (SuccessWithInfo, ["01004"]) else (Success, [])
  }

  // ---- Runs

  function Run(st: Statement, calls: seq<Call>): (result: (Statement, seq<Output>))
    requires Defined(st, calls)
    ensures |result.1| == |calls|
    decreases |calls|
  {
    if calls == [] then (st, [])
    else
      var (next, output) := FirstStep(st, calls);
      var (last, outputs) := Run(next, calls[1..]);
      (last, [output] + outputs)
  }

  /** The first call of a run leaves the loaded rows alone, so the rest stays defined. */
  function FirstStep(st: Statement, calls: seq<Call>): (result: (Statement, Output))
    requires calls != [] && Defined(st, calls)
    ensures Defined(result.0, calls[1..])
    ensures result.0.results.rows == st.results.rows
    ensures |result.0.results.columns| == |st.results.columns|
    ensures result == Step(st, calls[0])
  {
    assert forall call | call in calls[1..] :: call in calls;
    assert forall call | call in [calls[0]] :: call in calls;
    Step(st, calls[0])
  }

  // ---- Sessions: several queries one after the other

  /** `Prepare` carries the results of the new query, or none where no query can be made. */
  datatype Event = Prepare(made: Option<Results>) | Do(call: Call)

  /** A new query replaces the results and leaves the position. */
  function Prepared(st: Statement, made: Option<Results>): Statement {
    if made.Some? then Statement(made.value, st.stream) else st
  }

  predicate EventDefined(st: Statement, event: Event) {
    match event
    case Prepare(made) => st.results.Valid() && (made.Some? ==> made.value.Valid())
    case Do(call) => Defined(st, [call])
  }

  function After(st: Statement, event: Event): (next: Statement)
    requires EventDefined(st, event)
  {
    match event
    case Prepare(made) => Prepared(st, made)
    case Do(call) => Step(st, call).0
  }

  predicate SessionDefined(st: Statement, events: seq<Event>)
    decreases |events|
  {
    events == [] || (EventDefined(st, events[0]) && SessionDefined(After(st, events[0]), events[1..]))
  }

  function Session(st: Statement, events: seq<Event>): Statement
    requires SessionDefined(st, events)
    decreases |events|
  {
    if events == [] then st else Session(After(st, events[0]), events[1..])
  }
}
