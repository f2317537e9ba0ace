/** The classes behind a statement handle. Their methods write through the application's
    pointers; each one is tied to the state machine of module Statements. */
module RetsStatement {
  import opened Text
  import opened Odbc
  import opened DateTimes
  import opened Numerics
  import opened Lookups
  import opened Streaming
  import opened Statements

  const SQL_ROW_SUCCESS := 0
  const SQL_ROW_ERROR := 5

  /** How a typed worker leaves the target's structures. */
  ghost predicate TypedDelivers(handler: Handler, value: string, before: Structs, after: Structs) {
    match handler
    case Streams(_) => after == before
    case Missing => after == before
    case Dates =>
      after == if Blank(value) || FindDate(value).None? then before
               else before.(date := DateFields(value, FindDate(value).value))
    case Timestamps =>
      after == if Blank(value) || FindDate(value).None? then before
               else before.(timestamp := TimestampFields(value, FindDate(value).value))
    case Times =>
      after == if Blank(value) || FindTime(value).None? then before
               else before.(time := TimeFields(value, FindTime(value).value))
    case Numbers =>
      && after == before.(numeric := after.numeric)
      && (Trim(value) == "" ==> after == before)
      && (Trim(value) != "" && Converts(Trim(value)) ==> Delivers(Trim(value), after.numeric))
  }

  /** A target serves a handler: typed workers need one, and buffers have the room announced. */
  ghost predicate Serves(target: Area?, handler: Handler, length: int, value: string) {
    && (!handler.Streams? && !handler.Missing? ==> target != null)
    && (handler.Streams? && target != null ==> HasRoom(target.bytes, length, value))
  }

  // ---- One translation, seen from the application's memory

  /** What a target and a length pointer hold; absent for null pointers. */
  datatype Memory = Memory(bytes: Option<seq<char>>, structs: Option<Structs>, cell: Option<int>)

  const NO_MEMORY := Memory(None, None, None)

  ghost function MemoryAt(target: Area?, cell: Cell?): Memory
    reads Footprint(target), cell
  {
    Memory(if target == null then None else Some(target.bytes[..]),
           if target == null then None else Some(target.structs),
           if cell == null then None else Some(cell.value))
  }

  /** A streaming read: with the position `s`, or without one for a bound column. */
  function ReadOf(w: Worker, value: string, s: Option<Stream>, length: int, hasTarget: bool): Read {
    if s.Some? then ReadStream(w, value, s.value, length, hasTarget)
    else Read(FRESH, "", Some(BoundReported(w, value, length, hasTarget)), None)
  }

  function BytesAfter(w: Worker, value: string, s: Option<Stream>, length: int, before: seq<char>): seq<char>
    requires if length < 0 then |value| < |before| else length <= |before|
  {
    if s.Some? then ReadInto(w, value, length, s.value, before) else BoundImage(w, before, value, length)
  }

  /** Everything that handing a value to its worker does. */
  ghost predicate Translated(handler: Handler, value: string, length: int, s: Option<Stream>, before: Memory,
                             s': Option<Stream>, after: Memory, thrown: Option<Exception>)
  {
    var r := if handler.Streams? then ReadOf(handler.worker, value, s, length, before.bytes.Some?)
             else Read(s.GetOr(FRESH), "", TypedReported(handler, value), Throws(handler, value));
    && thrown == r.thrown
    && s' == (if s.Some? then Some(r.stream) else None)
    && after.cell == (if before.cell.None? then None else Some(r.reported.GetOr(before.cell.value)))
    && after.bytes.Some? == before.bytes.Some?
    && after.structs.Some? == before.structs.Some?
    && (before.structs.Some? ==> TypedDelivers(handler, value, before.structs.value, after.structs.value))
    && (before.bytes.Some? ==>
          && (handler.Streams? ==>
                && (if length < 0 then |value| < |before.bytes.value| else length <= |before.bytes.value|)
                && after.bytes.value == BytesAfter(handler.worker, value, s, length, before.bytes.value))
          && (!handler.Streams? ==> after.bytes == before.bytes))
  }

  /** The memory behind column k after the current row's cell was handed over, without a
      position; an unbound column's is left alone. */
  ghost predicate CellHandedOver(r: Results, k: nat, before: Memory, after: Memory, thrown: Option<Exception>)
    requires r.HasCell(k + 1)
  {
    match r.columns[k].binding
    case None => thrown.None? && after == before
    case Some(binding) =>
      Translated(r.HandlerOf(r.columns[k], binding.targetType), r.Value(k + 1), Int32(binding.length),
                 None, before, None, after, thrown)
  }

  /** The memory behind column `watch` after the first n cells of the current row were handed
      over, or a failure at the last of them. */
  ghost predicate WatchedUpTo(r: Results, n: nat, watch: nat, before: Memory, after: Memory) {
    r.row < |r.rows| && n <= |r.rows[r.row]| && n <= |r.columns|
    && if watch < n then CellHandedOver(r, watch, before, after, r.BoundFailure(watch)) else after == before
  }

  /** The memory behind column `watch` after the current row was handed over: up to the first
      column that fails each one is as its worker left it, and every other as it was. */
  ghost predicate RowHandedOver(r: Results, watch: nat, before: Memory, after: Memory) {
    r.row < |r.rows|
    && if r.HasCell(watch + 1) && watch <= r.StopAt(0) then
         CellHandedOver(r, watch, before, after, r.BoundFailure(watch))
       else after == before
  }

  lemma StoppedRow(r: Results, k: nat, watch: nat, before: Memory, after: Memory)
    requires r.row < |r.rows| && r.StopAt(0) == r.StopAt(k)
    requires if r.HasCell(k + 1) then r.BoundFailure(k).Some? && WatchedUpTo(r, k + 1, watch, before, after) == true
             else (k == |r.rows[r.row]| || k == |r.columns|) && WatchedUpTo(r, k, watch, before, after) == true
    ensures RowHandedOver(r, watch, before, after) == true
  {
  }

  /** The same after a fetch of the results `r`: without a next row nothing is handed over. */
  ghost predicate FetchHandedOver(r: Results, watch: nat, before: Memory, after: Memory) {
    if r.rows == [] || !r.HasNext() then after == before else RowHandedOver(r.Next(), watch, before, after)
  }

  /** Return code and SQLSTATEs of a fetch that moved the cursor. */
  function FetchAnswer(thrown: Option<Exception>): Output {
    if thrown.None? then Answer(Success, []) else Answer(Error, [FetchError(thrown.value)])
  }

  /** Cursor, position and exception after a fetch, and whether the cursor moved. */
  ghost predicate Fetched(r: Results, s: Stream, r': Results, s': Stream, moved: bool, thrown: Option<Exception>) {
    && moved == (r.rows != [] && r.HasNext())
    && (!moved ==> r' == r && s' == s)
    && (moved ==> r.NextRow() < |r.rows| && r' == r.Next() && s' == FRESH && thrown == r.Next().RowFailure(0))
  }

  lemma FetchedIsStep(st: Statement, next: Statement, moved: bool, thrown: Option<Exception>)
    requires st.results.Valid()
    requires true == Fetched(st.results, st.stream, next.results, next.stream, moved, thrown)
    ensures (next, if moved then FetchAnswer(thrown) else Answer(NoData, [])) == Seen(FetchStep(st))
  {
  }

  /** Return code and SQLSTATEs of a binding with a target. */
  function BindAnswer(thrown: Option<Exception>): Output {
    if thrown.None? then Answer(Success, []) else Answer(Error, ["HY000"])
  }

  lemma BoundIsStep(st: Statement, next: Results, c: nat, targetType: SqlType, length: int, thrown: Option<Exception>)
    requires st.results.Valid() && (thrown.None? <==> 1 <= c <= |st.results.columns|)
    requires next == if thrown.Some? then st.results else WithBinding(st.results, c, Binding(targetType, length))
    ensures (st.(results := next), BindAnswer(thrown)) == Seen(Step(st, Call.BindCol(c, targetType, true, length)))
  {
  }

  /** What a read leaves in the application's memory: nothing where there is no data or no such
      cell, else what the worker for the type makes of it. */
  ghost predicate ReadDelivered(r: Results, s: Stream, c: nat, targetType: SqlType, length: int, before: Memory,
                                after: Memory)
  {
    if s.status == NoMoreData || !r.HasCell(c) then after == before
    else
      var read := ReadCell(r, s, c, targetType, before.bytes.Some?, length);
      Translated(r.HandlerOf(r.columns[c - 1], targetType), r.Value(c), Int32(length), Some(s), before,
                 Some(read.stream), after, read.thrown)
  }

  /** The position after a read with position `s`, and what it throws: a cell that is not there
      is out of range. */
  ghost predicate ReadThrew(r: Results, s: Stream, c: nat, targetType: SqlType, hasTarget: bool, length: int,
                            s': Stream, thrown: Option<Exception>)
  {
    if !r.HasCell(c) then s' == s && thrown == Some(OutOfRange)
    else
      var read := ReadCell(r, s, c, targetType, hasTarget, length);
      s' == read.stream && thrown == read.thrown
  }

  /** The state after a step with what the handle itself holds of its output: return code and
      SQLSTATEs. What was copied and reported is in the application's memory. */
  function Seen(step: (Statement, Output)): (Statement, Output) {
    (step.0, Output(step.1.ret, step.1.errors, "", None))
  }

  lemma ThrewIsStep(st: Statement, c: nat, targetType: SqlType, hasTarget: bool, length: int, s': Stream,
                    reached: bool, thrown: Option<Exception>)
    requires st.results.Valid() && st.results.rows != [] && reached == (Selected(st.stream, c).status != NoMoreData)
    requires if reached then
               true == ReadThrew(st.results, Selected(st.stream, c), c, targetType, hasTarget, length, s', thrown)
             else s' == Selected(st.stream, c)
    ensures var (ret, errors) := if reached then ReadAnswer(thrown, s'.status) else (NoData, []);
            (Statement(st.results, s'), Output(ret, errors, "", None)) ==
            Seen(GetDataStep(st, c, targetType, hasTarget, length))
  {
  }

  ghost function ViewOf(streamInfo: DataStreamInfo?): Option<Stream>
    reads streamInfo
  {
    if streamInfo == null then None else Some(streamInfo.View())
  }

  /** What a streaming worker does to buffer, length and position; structures stay. */
  ghost predicate Streamed(w: Worker, value: string, length: int, s: Option<Stream>, before: Memory,
                           s': Option<Stream>, after: Memory, thrown: Option<Exception>)
    requires before.bytes.Some? ==>
               if length < 0 then |value| < |before.bytes.value| else length <= |before.bytes.value|
  {
    var r := ReadOf(w, value, s, length, before.bytes.Some?);
    && thrown == r.thrown
    && s' == (if s.Some? then Some(r.stream) else None)
    && after.cell == (if before.cell.None? then None else Some(r.reported.GetOr(before.cell.value)))
    && after.bytes == (if before.bytes.None? then None
                       else Some(BytesAfter(w, value, s, length, before.bytes.value)))
    && after.structs == before.structs
  }

  lemma StreamedIsTranslated(handler: Handler, value: string, length: int, s: Option<Stream>, before: Memory,
                             s': Option<Stream>, after: Memory, thrown: Option<Exception>)
    requires before.bytes.Some? ==>
               if length < 0 then |value| < |before.bytes.value| else length <= |before.bytes.value|
    requires handler.Streams? && Streamed(handler.worker, value, length, s, before, s', after, thrown) == true
    ensures Translated(handler, value, length, s, before, s', after, thrown) == true
  {
  }

  method DeliverCharacters(data: string, target: Area?, targetLen: int, resultSize: Cell?, streamInfo: DataStreamInfo?)
    returns (thrown: Option<Exception>)
    requires target != null ==> HasRoom(target.bytes, targetLen, data)
    modifies Footprint(target), resultSize, streamInfo
    ensures Streamed(Character, data, targetLen, old(ViewOf(streamInfo)), old(MemoryAt(target, resultSize)),
                     ViewOf(streamInfo), MemoryAt(target, resultSize), thrown) == true
  {
    var buffer: array?<char> := if target == null then null else target.bytes;
    thrown := TranslateCharacter(data, buffer, targetLen, resultSize, streamInfo);
  }

  method DeliverBinary(data: string, target: Area?, targetLen: int, resultSize: Cell?, streamInfo: DataStreamInfo?)
    returns (thrown: Option<Exception>)
    requires target != null ==> HasRoom(target.bytes, targetLen, data)
    modifies Footprint(target), resultSize, streamInfo
    ensures Streamed(Binary, data, targetLen, old(ViewOf(streamInfo)), old(MemoryAt(target, resultSize)),
                     ViewOf(streamInfo), MemoryAt(target, resultSize), thrown) == true
  {
    var buffer: array?<char> := if target == null then null else target.bytes;
    thrown := TranslateBinary(data, buffer, targetLen, resultSize, streamInfo);
  }

  /** Characters and binary. */
  method TranslateStreamed(handler: Handler, data: string, target: Area?, targetLen: int, resultSize: Cell?,
                           streamInfo: DataStreamInfo?)
    returns (thrown: Option<Exception>)
    requires handler.Streams? && Serves(target, handler, targetLen, data)
    modifies Footprint(target), resultSize, streamInfo
    ensures Translated(handler, data, targetLen, old(ViewOf(streamInfo)), old(MemoryAt(target, resultSize)),
                       ViewOf(streamInfo), MemoryAt(target, resultSize), thrown) == true
  {
    ghost var s, before := ViewOf(streamInfo), MemoryAt(target, resultSize);
    if handler.worker.Character? {
      thrown := DeliverCharacters(data, target, targetLen, resultSize, streamInfo);
    } else {
      thrown := DeliverBinary(data, target, targetLen, resultSize, streamInfo);
    }
    StreamedIsTranslated(handler, data, targetLen, s, before, ViewOf(streamInfo), MemoryAt(target, resultSize), thrown);
  }

  /** What a typed worker does to structures and length; the bytes stay. */
  ghost predicate TypedTranslated(handler: Handler, value: string, before: Memory, after: Memory,
                                  thrown: Option<Exception>)
    requires !handler.Streams?
  {
    && thrown == Throws(handler, value)
    && after.cell == (if before.cell.None? then None
                      else Some(TypedReported(handler, value).GetOr(before.cell.value)))
    && after.bytes == before.bytes
    && after.structs.Some? == before.structs.Some?
    && (before.structs.Some? ==> TypedDelivers(handler, value, before.structs.value, after.structs.value))
  }

  lemma TypedIsTranslated(handler: Handler, value: string, length: int, s: Option<Stream>, before: Memory,
                          after: Memory, thrown: Option<Exception>)
    requires !handler.Streams? && TypedTranslated(handler, value, before, after, thrown) == true
    requires before.bytes.Some? == before.structs.Some?
    ensures Translated(handler, value, length, s, before, s, after, thrown) == true
  {
  }

  method DeliverTyped(handler: Handler, data: string, target: Area?, resultSize: Cell?)
    returns (thrown: Option<Exception>)
    requires !handler.Streams? && (!handler.Missing? ==> target != null)
    modifies Footprint(target), resultSize
    ensures TypedTranslated(handler, data, old(MemoryAt(target, resultSize)), MemoryAt(target, resultSize), thrown)
            == true
  {
    match handler
    case Dates => thrown := TranslateDate(data, target, resultSize);
    case Timestamps => thrown := TranslateTimestamp(data, target, resultSize);
    case Times => thrown := TranslateTime(data, target, resultSize);
    case Numbers => thrown := TranslateNumeric(data, target, resultSize);
    case Missing =>
      SetResultSize(resultSize, NULL_DATA);
      thrown := Some(MissingTranslator);
    case Streams(_) => assert false;
  }

  /** The types with a structure of their own; none of them moves the position. */
  method TranslateTyped(handler: Handler, data: string, target: Area?, targetLen: int, resultSize: Cell?,
                        streamInfo: DataStreamInfo?)
    returns (thrown: Option<Exception>)
    requires !handler.Streams? && Serves(target, handler, targetLen, data)
    modifies Footprint(target), resultSize, streamInfo
    ensures Translated(handler, data, targetLen, old(ViewOf(streamInfo)), old(MemoryAt(target, resultSize)),
                       ViewOf(streamInfo), MemoryAt(target, resultSize), thrown) == true
  {
    ghost var s, before := ViewOf(streamInfo), MemoryAt(target, resultSize);
    thrown := DeliverTyped(handler, data, target, resultSize);
    TypedIsTranslated(handler, data, targetLen, s, before, MemoryAt(target, resultSize), thrown);
  }

  /** The master translate method: it hands the value to the worker for the type. */
  method Translate(handler: Handler, data: string, target: Area?, targetLen: int, resultSize: Cell?,
                   streamInfo: DataStreamInfo?)
    returns (thrown: Option<Exception>)
    requires Serves(target, handler, targetLen, data)
    modifies Footprint(target), resultSize, streamInfo
    ensures Translated(handler, data, targetLen, old(ViewOf(streamInfo)), old(MemoryAt(target, resultSize)),
                       ViewOf(streamInfo), MemoryAt(target, resultSize), thrown) == true
  {
    if handler.Streams? {
      thrown := TranslateStreamed(handler, data, target, targetLen, resultSize, streamInfo);
    } else {
      thrown := TranslateTyped(handler, data, target, targetLen, resultSize, streamInfo);
    }
  }

  /** Where a column delivers to; both are null while it is not bound. */
  datatype Pointers = Pointers(target: Area?, cell: Cell?)

  const NOWHERE := Pointers(null, null)

  ghost function PointedBy(p: Pointers): set<object> {
    Footprint(p.target) + if p.cell == null then {} else {p.cell}
  }

  class Column {
    const data: ColumnData
    const preferred: SqlType
    var targetType: SqlType
    var targetValue: Area?
    var bufferLength: int
    var strLenOrInd: Cell?
    var bound: bool

    function View(): ColumnState
      reads this
    {
      ColumnState(data, preferred, if bound then Some(Binding(targetType, bufferLength)) else None)
    }

    function Pointing(): Pointers
      reads this
    {
      Pointers(targetValue, strLenOrInd)
    }

    ghost function Pointed(): set<object>
      reads this
    {
      PointedBy(Pointing())
    }

    /** What the bound pointers point at. */
    ghost function Bound(): Memory
      reads this, Footprint(targetValue), strLenOrInd
    {
      MemoryAt(targetValue, strLenOrInd)
    }

    constructor (data: ColumnData, preferred: SqlType)
      ensures View() == ColumnState(data, preferred, None) && Pointing() == NOWHERE
    {
      this.data, this.preferred := data, preferred;
      targetType, targetValue, bufferLength, strLenOrInd, bound := SqlDefault, null, 0, null, false;
    }

    method Bind(targetType: SqlType, targetValue: Area, bufferLength: int, strLenOrInd: Cell?)
      modifies this
      ensures View() == old(View()).(binding := Some(Binding(targetType, bufferLength)))
      ensures Pointing() == Pointers(targetValue, strLenOrInd)
    {
      this.targetType, this.targetValue := targetType, targetValue;
      this.bufferLength, this.strLenOrInd := bufferLength, strLenOrInd;
      bound := true;
    }

    method Unbind()
      modifies this
      ensures View() == old(View()).(binding := None) && Pointing() == NOWHERE
    {
      targetType, targetValue, bufferLength, strLenOrInd := SqlOther(0), null, 0, null;
      bound := false;
    }

    function HandlerOf(translator: Translator, targetType: SqlType): Handler {
      HandlerFor(translator, if targetType.SqlDefault? then preferred else targetType)
    }

    /** Adjusts the value and hands it to its worker; the length passes through a 32-bit
        parameter on the way. */
    method SetData(translator: Translator, types: LookupTypes, raw: string, targetType: SqlType,
                   target: Area?, length: int, strLen: Cell?, streamInfo: DataStreamInfo?)
      returns (thrown: Option<Exception>)
      requires Serves(target, HandlerOf(translator, targetType), Int32(length), Modified(types, data, raw))
      modifies Footprint(target), strLen, streamInfo
      ensures Translated(HandlerOf(translator, targetType), Modified(types, data, raw), Int32(length),
                         old(ViewOf(streamInfo)), old(MemoryAt(target, strLen)),
                         ViewOf(streamInfo), MemoryAt(target, strLen), thrown)
    {
      var adjusted := ModifyData(types, data, raw);
      thrown := Translate(HandlerOf(translator, targetType), adjusted, target, Int32(length), strLen, streamInfo);
    }
  }

  function ViewsOf(columns: seq<Column>): (views: seq<ColumnState>)
    reads columns
    ensures |views| == |columns|
    ensures forall i | 0 <= i < |columns| :: views[i] == columns[i].View()
  {
    seq(|columns|, i requires 0 <= i < |columns| reads columns => columns[i].View())
  }

  function PointersOf(columns: seq<Column>): (pointers: seq<Pointers>)
    reads columns
    ensures |pointers| == |columns|
    ensures forall i | 0 <= i < |columns| :: pointers[i] == columns[i].Pointing()
  {
    seq(|columns|, i requires 0 <= i < |columns| reads columns => columns[i].Pointing())
  }

  /** The target of column k, if it is bound, has room for its cell of a row. */
  ghost predicate RoomIn(r: Results, pointers: seq<Pointers>, k: nat, row: nat)
    requires k < |r.columns| == |pointers| && row < |r.rows| && k < |r.rows[row]|
  {
    match r.columns[k].binding
    case None => true
    case Some(binding) =>
      && pointers[k].target != null
      && Serves(pointers[k].target, r.HandlerOf(r.columns[k], binding.targetType), Int32(binding.length),
                Modified(r.types, r.columns[k].data, r.rows[row][k]))
  }

  ghost predicate AllRoomIn(r: Results, pointers: seq<Pointers>, row: nat) {
    |pointers| == |r.columns| && row < |r.rows|
    && forall k: nat | k < |r.columns| && k < |r.rows[row]| :: RoomIn(r, pointers, k, row)
  }

  /** The pointers after one column was bound, or none where the binding failed. */
  function Repointed(before: seq<Pointers>, col: nat, made: bool, target: Area?, cell: Cell?): seq<Pointers> {
    if made && 1 <= col <= |before| then before[col - 1 := Pointers(target, cell)] else before
  }

  class BulkResultSet {
    const translator: Translator
    const types: LookupTypes
    var columns: seq<Column>
    var results: seq<seq<string>>
    var resultIterator: nat
    var gotFirst: bool

    function View(): Results
      reads this, columns
    {
      Results(translator, types, ViewsOf(columns), results, gotFirst, resultIterator)
    }

    ghost predicate Valid()
      reads this, columns
    {
      && View().Valid()
      && forall i, j | 0 <= i < j < |columns| :: columns[i] != columns[j]
    }

    constructor (translator: Translator, types: LookupTypes)
      ensures Valid()
      ensures View() == Results(translator, types, [], [], false, 0) && columns == []
    {
      this.translator, this.types := translator, types;
      columns, results, resultIterator, gotFirst := [], [], 0, false;
    }

    method AddColumn(data: ColumnData, preferred: SqlType)
      requires Valid()
      modifies this
      ensures Valid() && |columns| == |old(columns)| + 1 && columns[..|old(columns)|] == old(columns)
      ensures fresh(columns[|old(columns)|]) && columns[|old(columns)|].Pointing() == NOWHERE
      ensures View() == old(View()).(columns := old(View().columns) + [ColumnState(data, preferred, None)])
    {
      var column := new Column(data, preferred);
      columns := columns + [column];
    }

    method AddRow(row: seq<string>)
      requires Valid()
      modifies this
      ensures Valid()
      ensures View() == RowAdded(old(View()), row) && columns == old(columns)
    {
      results := results + [row];
      resultIterator := 0;
    }

    method HasNext() returns (r: bool)
      requires Valid()
      ensures r == View().HasNext()
    {
      if gotFirst {
        r := !(resultIterator + 1 == |results|);
      } else {
        r := !(resultIterator == |results|);
      }
    }

    method BindColumn(col: nat, targetType: SqlType, targetValue: Area, bufferLength: int, strLenOrInd: Cell?)
      returns (thrown: Option<Exception>)
      requires Valid()
      modifies columns
      ensures Valid()
      ensures thrown == if 1 <= col <= |columns| then None else Some(OutOfRange)
      ensures View() == if thrown.Some? then old(View())
                        else WithBinding(old(View()), col, Binding(targetType, bufferLength))
      ensures PointersOf(columns) == Repointed(old(PointersOf(columns)), col, thrown.None?, targetValue, strLenOrInd)
    {
      if col == 0 || col > |columns| {
        return Some(OutOfRange);
      }
      columns[col - 1].Bind(targetType, targetValue, bufferLength, strLenOrInd);
      return None;
    }

    method UnbindColumns()
      requires Valid()
      modifies columns
      ensures Valid()
      ensures View() == Unbound(old(View()))
      ensures forall k | 0 <= k < |columns| :: columns[k].Pointing() == NOWHERE
    {
      ghost var before := ViewsOf(columns);
      for i := 0 to |columns|
        invariant Valid() && (UnboundUpTo(i, before) == true)
      {
        UnbindColumn(i, before);
      }
    }

    ghost predicate UnboundUpTo(i: nat, before: seq<ColumnState>)
      reads this`columns, columns
    {
      && i <= |columns| == |before|
      && (forall k | 0 <= k < i :: columns[k].View() == before[k].(binding := None) && columns[k].Pointing() == NOWHERE)
      && (forall k | i <= k < |columns| :: columns[k].View() == before[k])
    }

    method UnbindColumn(i: nat, ghost before: seq<ColumnState>)
      requires Valid() && i < |columns| && UnboundUpTo(i, before)
      modifies columns
      ensures Valid() && (UnboundUpTo(i + 1, before) == true)
    {
      columns[i].Unbind();
    }

    /** Column `k` shares no memory with another column. */
    ghost predicate Apart(k: nat)
      reads this, columns
    {
      k < |columns| && forall j: nat | j < |columns| && j != k :: columns[j].Pointed() !! columns[k].Pointed()
    }

    /** All that the columns point at, and none of the driver's own objects. */
    ghost predicate Covers(memory: set<object>)
      reads this, columns
    {
      && this !in memory
      && (forall c | c in columns :: c !in memory)
      && (forall k | 0 <= k < |columns| :: columns[k].Pointed() <= memory)
    }

    /** Every bound target has room for its cell of a row. */
    ghost predicate Fits(row: nat)
      requires row < |results|
      reads this, columns
    {
      forall k | 0 <= k < |columns| && k < |results[row]| && columns[k].bound ::
        && columns[k].targetValue != null
        && Serves(columns[k].targetValue, columns[k].HandlerOf(translator, columns[k].targetType),
                  Int32(columns[k].bufferLength), Modified(types, columns[k].data, results[row][k]))
    }

    /** The same by what the columns show. */
    lemma RoomIsFit(r: Results, pointers: seq<Pointers>, row: nat)
      requires r == View() && pointers == PointersOf(columns) && AllRoomIn(r, pointers, row) == true
      ensures row < |results| && (Fits(row) == true)
    {
      forall k | 0 <= k < |columns| && k < |results[row]| && columns[k].bound
        ensures columns[k].targetValue != null
        ensures Serves(columns[k].targetValue, columns[k].HandlerOf(translator, columns[k].targetType),
                       Int32(columns[k].bufferLength), Modified(types, columns[k].data, results[row][k]))
      {
        assert RoomIn(r, pointers, k, row);
        assert r.columns[k] == columns[k].View() && pointers[k] == columns[k].Pointing();
      }
    }

    method HandCell(k: nat, ghost watch: nat, ghost watched: bool) returns (thrown: Option<Exception>)
      requires Valid() && View().HasCell(k + 1) && Fits(resultIterator)
      requires watched ==> Apart(watch)
      modifies columns[k].Pointed()
      ensures Valid() && View() == old(View()) && Fits(resultIterator)
      ensures thrown == View().BoundFailure(k)
      ensures CellHandedOver(View(), k, old(columns[k].Bound()), columns[k].Bound(), thrown)
      ensures watched ==> (Apart(watch) == true)
      ensures watched && watch != k ==> columns[watch].Bound() == old(columns[watch].Bound())
    {
      var col := columns[k];
      thrown := None;
      if col.bound {
        thrown := col.SetData(translator, types, results[resultIterator][k], col.targetType, col.targetValue,
                              col.bufferLength, col.strLenOrInd, null);
      }
    }

    // `watch` stands for any column that shares no memory with another one. Being arbitrary, it
    // lets the contracts below speak of all such columns; `watched` is off where there is none.
    // `memory` is any set of objects that covers what the columns point at.

    /** The first k cells of the current row went to their columns without a failure. */
    ghost predicate HandedOver(view: Results, k: nat, memory: set<object>, watch: nat, watched: bool, before: Memory)
      reads this, columns, if watch < |columns| then columns[watch].Pointed() else {}
    {
      && Valid() && View() == view && view.row < |view.rows| && Fits(resultIterator) && Covers(memory)
      && k <= |view.rows[view.row]| && k <= |columns|
      && view.RowFailure(0) == view.RowFailure(k) && view.StopAt(0) == view.StopAt(k)
      && (watched ==> Apart(watch) && WatchedUpTo(view, k, watch, before, columns[watch].Bound()))
    }

    /** Hands one value of the current row to its column, if that is bound. */
    method HandOver(k: nat, ghost view: Results, ghost memory: set<object>, ghost watch: nat, ghost watched: bool,
                    ghost before: Memory)
      returns (thrown: Option<Exception>)
      requires HandedOver(view, k, memory, watch, watched, before) && view.HasCell(k + 1)
      modifies memory
      ensures Valid() && View() == view && Covers(memory)
      ensures thrown == view.BoundFailure(k)
      ensures thrown.None? ==> HandedOver(view, k + 1, memory, watch, watched, before)
      ensures thrown.Some? && watched ==>
                (Apart(watch) == true) && true == WatchedUpTo(view, k + 1, watch, before, columns[watch].Bound())
    {
      thrown := HandCell(k, watch, watched);
    }

    /** Hands the current row to the bound columns from left to right, up to the first that
        fails. */
    method HandOverRow(ghost view: Results, ghost memory: set<object>, ghost watch: nat, ghost watched: bool)
      returns (thrown: Option<Exception>)
      requires Valid() && View() == view && resultIterator < |results| && Fits(resultIterator) && Covers(memory)
      requires watched ==> Apart(watch)
      modifies memory
      ensures Valid() && View() == view && Covers(memory)
      ensures thrown == view.RowFailure(0)
      ensures watched ==>
                (Apart(watch) == true)
                && true == RowHandedOver(view, watch, old(columns[watch].Bound()), columns[watch].Bound())
    {
      ghost var before := if watched then columns[watch].Bound() else NO_MEMORY;
      var row := results[resultIterator];
      var count := 0;
      while count < |row|
        invariant 0 <= count <= |row|
        invariant HandedOver(view, count, memory, watch, watched, before) == true
      {
        if count >= |columns| {
          if watched {
            StoppedRow(view, count, watch, before, columns[watch].Bound());
          }
          return Some(OutOfRange);
        }
        thrown := HandOver(count, view, memory, watch, watched, before);
        if thrown.Some? {
          if watched {
            StoppedRow(view, count, watch, before, columns[watch].Bound());
          }
          return;
        }
        count := count + 1;
      }
      if watched {
        StoppedRow(view, count, watch, before, columns[watch].Bound());
      }
      return None;
    }

    method MoveToNext()
      requires Valid() && results != [] && View().HasNext()
      modifies this`gotFirst, this`resultIterator
      ensures Valid() && View() == old(View()).Next()
    {
      if gotFirst {
        resultIterator := resultIterator + 1;
      } else {
        gotFirst := true;
      }
    }

    /** Moves the cursor, then hands over the row it moved to. */
    method ProcessNextRow(ghost view: Results, ghost memory: set<object>, ghost watch: nat, ghost watched: bool)
      returns (thrown: Option<Exception>)
      requires Valid() && View() == view && results != [] && view.HasNext() && Fits(view.NextRow()) && Covers(memory)
      requires watched ==> Apart(watch)
      modifies this`gotFirst, this`resultIterator, memory
      ensures Valid() && View() == view.Next() && Covers(memory)
      ensures thrown == view.Next().RowFailure(0)
      ensures watched ==>
                (Apart(watch) == true)
                && true == RowHandedOver(view.Next(), watch, old(columns[watch].Bound()), columns[watch].Bound())
    {
      MoveToNext();
      thrown := HandOverRow(view.Next(), memory, watch, watched);
    }

    /** `SQLGetData` on the current row. */
    method GetData(ghost view: Results, ghost s: Stream, colno: nat, targetType: SqlType, target: Area?,
                   bufferLength: int, strLen: Cell?, streamInfo: DataStreamInfo)
      returns (thrown: Option<Exception>)
      requires Valid() && View() == view && streamInfo.View() == s && results != [] && s.status != NoMoreData
      requires view.HasCell(colno) ==> ServesCell(colno, targetType, target, bufferLength)
      modifies Footprint(target), strLen, streamInfo
      ensures true == ReadThrew(view, s, colno, targetType, target != null, bufferLength, streamInfo.View(), thrown)
      ensures true == ReadDelivered(view, s, colno, targetType, bufferLength, old(MemoryAt(target, strLen)),
                                    MemoryAt(target, strLen))
    {
      if colno == 0 || colno > |columns| || colno > |results[resultIterator]| {
        return Some(OutOfRange);
      }
      thrown := columns[colno - 1].SetData(translator, types, results[resultIterator][colno - 1], targetType, target,
                                           bufferLength, strLen, streamInfo);
    }

    ghost predicate ServesCell(colno: nat, targetType: SqlType, target: Area?, bufferLength: int)
      requires View().HasCell(colno)
      reads this, columns
    {
      Serves(target, View().HandlerOf(View().columns[colno - 1], targetType), Int32(bufferLength), View().Value(colno))
    }
  }

  // ---- The statement handle

  class RetsSTMT {
    const dataStreamInfo: DataStreamInfo
    var resultSet: BulkResultSet
    var errors: seq<string>
    var rowsProcessed: Cell?
    var arrayStatus: Cell?

    ghost predicate Valid()
      reads this`resultSet, resultSet, resultSet.columns
    {
      resultSet.Valid()
    }

    function View(): Statement
      reads this`resultSet, dataStreamInfo, resultSet, resultSet.columns
    {
      Statement(resultSet.View(), dataStreamInfo.View())
    }

    constructor (resultSet: BulkResultSet)
      requires resultSet.Valid()
      ensures Valid() && View() == Statement(resultSet.View(), FRESH) && this.resultSet == resultSet
      ensures fresh(dataStreamInfo) && rowsProcessed == null && arrayStatus == null && errors == []
    {
      dataStreamInfo := new DataStreamInfo();
      this.resultSet := resultSet;
      errors, rowsProcessed, arrayStatus := [], null, null;
    }

    /** A new query brings its own result set, and the position stays. Without a statement text,
        or where no query can be made of it (`created` is null, `state` says why), the old query
        stays. */
    method SQLPrepare(hasText: bool, created: BulkResultSet?, state: string) returns (ret: ReturnCode)
      requires Valid() && (created != null ==> created.Valid())
      modifies this`errors, this`resultSet
      ensures Valid()
      ensures resultSet == if hasText && created != null then created else old(resultSet)
      ensures View() == Prepared(old(View()), if hasText && created != null then Some(created.View()) else None)
      ensures (ret, errors) == if !hasText then (Error, ["HY009"]) else if created == null then (Error, [state])
                               else (Success, [])
    {
      errors := [];
      if !hasText {
        errors := ["HY009"];
        return Error;
      }
      if created == null {
        errors := [state];
        return Error;
      }
      resultSet := created;
      return Success;
    }

    method SQLBindCol(columnNumber: nat, targetType: SqlType, targetValue: Area?, bufferLength: int, strLenOrInd: Cell?)
      returns (ret: ReturnCode)
      requires Valid()
      modifies this`errors, resultSet.columns
      ensures Valid()
      ensures (View(), Output(ret, errors, "", None)) ==
              Seen(Step(old(View()), Call.BindCol(columnNumber, targetType, targetValue != null, bufferLength)))
      ensures PointersOf(resultSet.columns) ==
              Repointed(old(PointersOf(resultSet.columns)), columnNumber, ret == Success, targetValue, strLenOrInd)
    {
      ghost var st := View();
      if targetValue == null {
        errors := [];
        return Error;
      }
      var thrown := resultSet.BindColumn(columnNumber, targetType, targetValue, bufferLength, strLenOrInd);
      BoundIsStep(st, resultSet.View(), columnNumber, targetType, bufferLength, thrown);
      ret := FinishBind(thrown, PointersOf(resultSet.columns));
    }

    /** The return code and the SQLSTATEs of a binding; nothing else changes. */
    method FinishBind(thrown: Option<Exception>, ghost pointers: seq<Pointers>) returns (ret: ReturnCode)
      requires Valid() && pointers == PointersOf(resultSet.columns)
      modifies this`errors
      ensures Valid() && View() == old(View()) && PointersOf(resultSet.columns) == pointers
      ensures Output(ret, errors, "", None) == BindAnswer(thrown) && (ret == Success <==> thrown.None?)
    {
      errors := [];
      if thrown.Some? {
        errors := ["HY000"];
        return Error;
      }
      return Success;
    }

    /** The return code and the SQLSTATEs of a read; nothing else changes. */
    method FinishRead(reached: bool, thrown: Option<Exception>, ghost target: Area?, ghost cell: Cell?)
      returns (ret: ReturnCode)
      requires Valid()
      modifies this`errors
      ensures Valid() && View() == old(View())
      ensures MemoryAt(target, cell) == old(MemoryAt(target, cell))
      ensures (ret, errors) == if reached then ReadAnswer(thrown, dataStreamInfo.status) else (NoData, [])
    {
      errors := [];
      if !reached {
        return NoData;
      }
      match thrown
      case Some(MissingTranslator) =>
        errors := ["01000"];
        return SuccessWithInfo;
      case Some(DateTimeFormat) =>
        errors := ["22007"];
        return Error;
      case Some(_) =>
        errors := ["HY000"];
        return Error;
      case None =>
        if dataStreamInfo.status == HasMoreData {
          errors := ["01004"];
          return SuccessWithInfo;
        }
        return Success;
    }

    /** Moves the position to the column asked for, from its start if that is another one. */
    method SelectColumn(columnNumber: nat)
      modifies dataStreamInfo
      ensures dataStreamInfo.View() == Selected(old(dataStreamInfo.View()), columnNumber)
    {
      if dataStreamInfo.column != columnNumber {
        dataStreamInfo.Reset();
        dataStreamInfo.column := columnNumber;
      }
    }

    /** A read once its column is selected, up to its return code. */
    method ReadSelected(ghost results: Results, ghost s: Stream, columnNumber: nat, targetType: SqlType,
                        targetValue: Area?, bufferLength: int, strLenOrInd: Cell?)
      returns (reached: bool, thrown: Option<Exception>)
      requires Valid() && resultSet.View() == results && results.rows != [] && dataStreamInfo.View() == s
      requires results.HasCell(columnNumber) ==>
                 resultSet.ServesCell(columnNumber, targetType, targetValue, bufferLength)
      modifies dataStreamInfo, Footprint(targetValue), strLenOrInd
      ensures Valid() && resultSet.View() == results && reached == (s.status != NoMoreData)
      ensures if reached then
                true == ReadThrew(results, s, columnNumber, targetType, targetValue != null, bufferLength,
                                  dataStreamInfo.View(), thrown)
              else dataStreamInfo.View() == s
      ensures true == ReadDelivered(results, s, columnNumber, targetType, bufferLength,
                                    old(MemoryAt(targetValue, strLenOrInd)), MemoryAt(targetValue, strLenOrInd))
    {
      thrown := None;
      reached := dataStreamInfo.status != NoMoreData;
      if reached {
        thrown := resultSet.GetData(results, s, columnNumber, targetType, targetValue, bufferLength, strLenOrInd,
                                    dataStreamInfo);
      }
    }

    method SQLGetData(columnNumber: nat, targetType: SqlType, targetValue: Area?, bufferLength: int,
                      strLenOrInd: Cell?)
      returns (ret: ReturnCode)
      requires Valid() && resultSet.results != []
      requires resultSet.View().HasCell(columnNumber) ==>
                 resultSet.ServesCell(columnNumber, targetType, targetValue, bufferLength)
      modifies this`errors, dataStreamInfo, Footprint(targetValue), strLenOrInd
      ensures Valid()
      ensures (View(), Output(ret, errors, "", None)) ==
              Seen(GetDataStep(old(View()), columnNumber, targetType, targetValue != null, bufferLength))
      ensures true == ReadDelivered(resultSet.View(), Selected(old(dataStreamInfo.View()), columnNumber), columnNumber,
                                    targetType, bufferLength, old(MemoryAt(targetValue, strLenOrInd)),
                                    MemoryAt(targetValue, strLenOrInd))
    {
      ghost var st := View();
      // ColumnGuard is tested here, and never holds.
      SelectColumn(columnNumber);
      var reached, thrown :=
        ReadSelected(st.results, Selected(st.stream, columnNumber), columnNumber, targetType, targetValue,
                     bufferLength, strLenOrInd);
      ThrewIsStep(st, columnNumber, targetType, targetValue != null, bufferLength, dataStreamInfo.View(), reached,
                  thrown);
      ret := FinishRead(reached, thrown, targetValue, strLenOrInd);
    }

    /** The SQLSTATE of a row that failed to translate. */
    method FailRow(e: Exception)
      modifies this`errors
      ensures errors == [FetchError(e)]
    {
      match e
      case MissingTranslator => errors := ["HY000"];
      case DateTimeFormat => errors := ["22007"];
      case _ => errors := ["01S01"];
    }

    /** All of the application's memory that a fetch may write, and none of the driver's own. */
    ghost predicate Covers(memory: set<object>)
      reads this`resultSet, this`rowsProcessed, this`arrayStatus, resultSet, resultSet.columns
    {
      && resultSet.Covers(memory) && this !in memory && dataStreamInfo !in memory
      && (rowsProcessed != null ==> rowsProcessed in memory)
      && (arrayStatus != null ==> arrayStatus in memory)
    }

    /** Column `watch` shares no memory with another column or with the row status and count. */
    ghost predicate Watched(watch: nat, watched: bool)
      reads this`resultSet, this`rowsProcessed, this`arrayStatus, resultSet, resultSet.columns
    {
      watched ==>
        && resultSet.Apart(watch)
        && (rowsProcessed != null ==> rowsProcessed !in resultSet.columns[watch].Pointed())
        && (arrayStatus != null ==> arrayStatus !in resultSet.columns[watch].Pointed())
    }

    /** What is behind the watched column's pointers. */
    ghost function BoundMemory(watch: nat, watched: bool): Memory
      requires Watched(watch, watched)
      reads this`resultSet, this`rowsProcessed, this`arrayStatus, resultSet, resultSet.columns,
            if watched && watch < |resultSet.columns| then resultSet.columns[watch].Pointed() else {}
    {
      if watched then resultSet.columns[watch].Bound() else NO_MEMORY
    }

    /** The row status and the number of rows processed after a row that failed or not; for a
        failed one the number is left as it was. */
    ghost predicate RowReported(failed: bool)
      reads this`rowsProcessed, this`arrayStatus, rowsProcessed, arrayStatus
    {
      && (arrayStatus != null ==> arrayStatus.value == if failed then SQL_ROW_ERROR else SQL_ROW_SUCCESS)
      && (!failed && rowsProcessed != null && rowsProcessed != arrayStatus ==> rowsProcessed.value == 1)
    }

    /** The row status is 0 for a success and 5 for an error, and one row is processed. */
    lemma RowCodes(failed: bool)
      requires RowReported(failed)
      ensures arrayStatus != null ==> arrayStatus.value == if failed then 5 else 0
      ensures !failed && rowsProcessed != null && rowsProcessed != arrayStatus ==> rowsProcessed.value == 1
    {
    }

    /** Fills the row status and the number of rows processed, where the application asked. */
    method ReportRow(failed: bool, ghost memory: set<object>, ghost watch: nat, ghost watched: bool)
      requires Valid() && Covers(memory) && Watched(watch, watched)
      modifies rowsProcessed, arrayStatus
      ensures Valid() && View() == old(View())
      ensures (Watched(watch, watched) == true) && BoundMemory(watch, watched) == old(BoundMemory(watch, watched))
      ensures RowReported(failed) == true
    {
      if !failed && rowsProcessed != null {
        rowsProcessed.value := 1;
      }
      if arrayStatus != null {
        arrayStatus.value := if failed then SQL_ROW_ERROR else SQL_ROW_SUCCESS;
      }
    }

    /** Forgets the position and moves to the next row. */
    method MoveRow(ghost results: Results, ghost memory: set<object>, ghost watch: nat, ghost watched: bool,
                   ghost before: Memory)
      returns (thrown: Option<Exception>)
      requires Watched(watch, watched) && before == BoundMemory(watch, watched)
      requires Valid() && resultSet.View() == results && results.rows != [] && results.HasNext()
      requires resultSet.Fits(results.NextRow()) && Covers(memory)
      modifies dataStreamInfo, resultSet`gotFirst, resultSet`resultIterator, memory
      ensures Valid() && View() == Statement(results.Next(), FRESH) && (Covers(memory) == true)
      ensures thrown == results.Next().RowFailure(0)
      ensures Watched(watch, watched) == true
      ensures watched ==> true == RowHandedOver(results.Next(), watch, before, BoundMemory(watch, watched))
    {
      dataStreamInfo.Reset();
      thrown := resultSet.ProcessNextRow(results, memory, watch, watched);
    }

    /** The part of a fetch that follows once there is a next row. */
    method FetchRow(ghost results: Results, ghost memory: set<object>, ghost watch: nat, ghost watched: bool,
                    ghost before: Memory)
      returns (thrown: Option<Exception>)
      requires Watched(watch, watched) && before == BoundMemory(watch, watched)
      requires Valid() && resultSet.View() == results && results.rows != [] && results.HasNext()
      requires resultSet.Fits(results.NextRow()) && Covers(memory)
      modifies dataStreamInfo, resultSet`gotFirst, resultSet`resultIterator, memory
      ensures Valid() && View() == Statement(results.Next(), FRESH)
      ensures thrown == results.Next().RowFailure(0)
      ensures Watched(watch, watched) == true
      ensures watched ==> true == RowHandedOver(results.Next(), watch, before, BoundMemory(watch, watched))
      ensures RowReported(thrown.Some?) == true
    {
      thrown := MoveRow(results, memory, watch, watched, before);
      ReportRow(thrown.Some?, memory, watch, watched);
    }

    /** The return code and the SQLSTATEs of a fetch; nothing else changes. */
    method FinishFetch(moved: bool, thrown: Option<Exception>, ghost watch: nat, ghost watched: bool)
      returns (ret: ReturnCode)
      requires Valid() && Watched(watch, watched)
      modifies this`errors
      ensures Valid() && (Watched(watch, watched) == true)
      ensures View() == old(View()) && BoundMemory(watch, watched) == old(BoundMemory(watch, watched))
      ensures forall failed :: RowReported(failed) == old(RowReported(failed))
      ensures Output(ret, errors, "", None) == if moved then FetchAnswer(thrown) else Answer(NoData, [])
      ensures (ret == NoData) == !moved && (moved ==> (ret != Success) == thrown.Some?)
    {
      errors := [];
      if !moved {
        return NoData;
      }
      if thrown.Some? {
        FailRow(thrown.value);
        return Error;
      }
      return Success;
    }

    /** A fetch of the results `results`, up to its return code. */
    method FetchFrom(ghost results: Results, ghost s: Stream, ghost memory: set<object>, ghost watch: nat,
                     ghost watched: bool, ghost before: Memory)
      returns (moved: bool, thrown: Option<Exception>)
      requires Watched(watch, watched) && before == BoundMemory(watch, watched)
      requires Valid() && resultSet.View() == results && dataStreamInfo.View() == s && Covers(memory)
      requires results.rows != [] && results.HasNext() ==> resultSet.Fits(results.NextRow())
      modifies dataStreamInfo, resultSet`gotFirst, resultSet`resultIterator, memory
      ensures Valid() && (Watched(watch, watched) == true)
      ensures true == Fetched(results, s, resultSet.View(), dataStreamInfo.View(), moved, thrown)
      ensures watched ==> true == FetchHandedOver(results, watch, before, BoundMemory(watch, watched))
      ensures moved ==> RowReported(thrown.Some?) == true
    {
      if |resultSet.results| == 0 {
        return false, None;
      }
      moved := resultSet.HasNext();
      if !moved {
        return false, None;
      }
      thrown := FetchRow(results, memory, watch, watched, before);
    }

    /** Moves to the next row, if there is one, and hands it to the bound columns. The position in
        the column is forgotten before it. */
    method SQLFetch(ghost memory: set<object>, ghost watch: nat, ghost watched: bool) returns (ret: ReturnCode)
      requires Valid() && Covers(memory) && Watched(watch, watched)
      requires resultSet.results != [] && resultSet.View().HasNext() ==>
                 resultSet.Fits(resultSet.View().NextRow())
      modifies this`errors, dataStreamInfo, resultSet`gotFirst, resultSet`resultIterator, memory
      ensures Valid() && (Watched(watch, watched) == true)
      ensures (View(), Output(ret, errors, "", None)) == Seen(FetchStep(old(View())))
      ensures watched ==>
                true == FetchHandedOver(old(resultSet.View()), watch, old(BoundMemory(watch, watched)),
                                        BoundMemory(watch, watched))
      ensures ret != NoData ==> RowReported(ret != Success) == true
    {
      ghost var st := View();
      var moved, thrown :=
        FetchFrom(st.results, st.stream, memory, watch, watched, BoundMemory(watch, watched));
      FetchedIsStep(st, View(), moved, thrown);
      ret := FinishFetch(moved, thrown, watch, watched);
    }

    method SQLFetchScroll(next: bool, ghost memory: set<object>, ghost watch: nat, ghost watched: bool)
      returns (ret: ReturnCode)
      requires Valid() && Covers(memory) && Watched(watch, watched)
      requires next && resultSet.results != [] && resultSet.View().HasNext() ==>
                 resultSet.Fits(resultSet.View().NextRow())
      modifies this`errors, dataStreamInfo, resultSet`gotFirst, resultSet`resultIterator, memory
      ensures Valid() && (Watched(watch, watched) == true)
      ensures (View(), Output(ret, errors, "", None)) == Seen(Step(old(View()), Call.FetchScroll(next)))
      ensures watched ==>
                if next then
                  true == FetchHandedOver(old(resultSet.View()), watch, old(BoundMemory(watch, watched)),
                                          BoundMemory(watch, watched))
                else BoundMemory(watch, watched) == old(BoundMemory(watch, watched))
      ensures next && ret != NoData ==> RowReported(ret != Success) == true
    {
      if !next {
        errors := ["HY106"];
        return Error;
      }
      ret := SQLFetch(memory, watch, watched);
    }

    method UnbindColumns()
      requires Valid()
      modifies resultSet.columns
      ensures Valid()
      ensures View() == Step(old(View()), Call.Unbind).0
      ensures forall k | 0 <= k < |resultSet.columns| :: resultSet.columns[k].Pointing() == NOWHERE
    {
      resultSet.UnbindColumns();
    }
  }
}
