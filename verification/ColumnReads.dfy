/** What an application gets that reads a column piece by piece through a statement handle. */
module ColumnReads {
  import opened Arithmetic
  import opened Text
  import opened Odbc
  import opened Streaming
  import opened Statements
  import opened StatementRuns
  import opened RetsStatement

  /** The value of a cell that is read in pieces, and how much a read takes at most. */
  datatype Series = Series(results: Results, column: nat, targetType: SqlType, length: int, worker: Worker,
                           value: string, width: nat)
  {
    ghost predicate Valid() {
      && results.Valid() && results.HasCell(column) && value == results.Value(column)
      && results.HandlerOf(results.columns[column - 1], targetType) == Streams(worker)
      && width == Width(worker, Int32(length)) && width >= 1
    }

    /** The state when the bytes before `from` were delivered and more are left. */
    ghost predicate Before(st: Statement, from: nat) {
      && st.results == results && At(st.stream, column, value, from)
      && (if value != "" then from < |value| else from == 0 && Selected(st.stream, column).status == NoDataRetrieved)
      && (worker.Binary? ==> from < MAX_WRAP_VALUE)
    }

    /** The same before the j-th read with one buffer, none of which has failed, and the text read
        up to then. */
    ghost predicate Reading(st: Statement, j: nat, from: nat, text: string) {
      && Before(st, from) && from == j * width && from <= |value| && text == value[..from]
      && (j > 0 ==> !Stops(worker, value, (j - 1) * width))
    }

    /** What was read in the end. */
    ghost predicate Done(ret: ReturnCode, text: string)
      requires width >= 1
    {
      && ret == (if Stopped(worker, value, width, StopIndex(width)) then Error else Success)
      && text == value[..ReadUpTo(worker, value, width)]
    }

    /** The bytes of the value that the read at `from` delivers. */
    function Chunk(from: nat): string {
      if from > |value| then "" else value[from..Min(from + width, |value|)]
    }
  }

  /** The memory after a read at `from`: the chunk at the start of the buffer, and the length. */
  ghost predicate PieceRead(q: Series, from: nat, after: Memory) {
    && (q.value == "" ==> after.cell.Some? ==> after.cell.value == NULL_DATA)
    && (q.value != "" && !Stops(q.worker, q.value, from) ==>
          && after.bytes.Some? && |q.Chunk(from)| <= |after.bytes.value|
          && after.bytes.value[..|q.Chunk(from)|] == q.Chunk(from)
          && (after.cell.Some? ==> after.cell.value == |q.value| - from))
  }

  /** The statement after a read at `from`, and the return code. */
  ghost predicate PieceTaken(q: Series, from: nat, next: Statement, ret: ReturnCode)
    requires q.width >= 1
  {
    && next.results == q.results
    && ret == (if q.value == "" then Success else SeriesOutput(q.worker, q.value, q.width, from).ret)
    && (q.value != "" ==> At(next.stream, q.column, q.value, NextFrom(q.worker, q.value, q.width, from)))
  }

  lemma PieceStep(q: Series, st: Statement, from: nat, next: Statement, ret: ReturnCode, errors: seq<string>)
    requires q.Valid() && q.Before(st, from) == true
    requires (next, Output(ret, errors, "", None)) == Seen(GetDataStep(st, q.column, q.targetType, true, q.length))
    ensures PieceTaken(q, from, next, ret) == true
  {
    if q.value != "" {
      SeriesRead(q.value, Selected(st.stream, q.column), q.worker, Int32(q.length), from);
    }
  }

  /** A streaming read leaves in memory what the worker's own description says. */
  ghost predicate StreamedInto(q: Series, s: Stream, before: Memory, after: Memory) {
    && before.bytes.Some? && Int32(q.length) <= |before.bytes.value| && 0 <= Int32(q.length)
    && after.bytes == Some(ReadInto(q.worker, q.value, Int32(q.length), s, before.bytes.value))
    && (after.cell.Some? ==>
          var r := ReadStream(q.worker, q.value, s, Int32(q.length), true);
          r.reported.Some? ==> after.cell == r.reported)
  }

  lemma DeliveredIsStreamed(q: Series, s: Stream, before: Memory, after: Memory)
    requires q.Valid() && s.status != NoMoreData && before.bytes.Some? && Int32(q.length) <= |before.bytes.value|
    requires true == ReadDelivered(q.results, s, q.column, q.targetType, q.length, before, after)
    ensures StreamedInto(q, s, before, after) == true
  {
  }

  /** What it leaves in the application's memory. */
  lemma PieceInMemory(q: Series, st: Statement, from: nat, before: Memory, after: Memory)
    requires q.Valid() && q.Before(st, from)
    requires StreamedInto(q, Selected(st.stream, q.column), before, after) == true
    ensures PieceRead(q, from, after) == true
  {
    var s := Selected(st.stream, q.column);
    if q.value != "" {
      SeriesRead(q.value, s, q.worker, Int32(q.length), from);
    }
  }

  method TakeChunk(ghost q: Series, ghost from: nat, ret: ReturnCode, w: Worker, target: Area, length: int, cell: Cell)
    returns (chunk: string)
    requires q.Valid() && q.length == length && q.worker == w && Int32(length) <= target.bytes.Length
    requires PieceRead(q, from, MemoryAt(target, cell)) == true
    requires if q.value == "" then from == 0 && ret != Error else ret == Error <==> Stops(w, q.value, from)
    requires q.value != "" ==> from < |q.value|
    ensures chunk == if ret == Error then "" else q.Chunk(from)
  {
    chunk := "";
    if ret != Error && cell.value > 0 {
      chunk := target.bytes[..Min(cell.value, Width(w, Int32(length)))];
    }
  }

  lemma PieceDelivered(q: Series, st: Statement, from: nat, before: Memory, after: Memory)
    requires q.Valid() && (q.Before(st, from) == true)
    requires before.bytes.Some? && Int32(q.length) <= |before.bytes.value|
    requires true == ReadDelivered(q.results, Selected(st.stream, q.column), q.column, q.targetType, q.length, before,
                                   after)
    ensures PieceRead(q, from, after) == true
  {
    DeliveredIsStreamed(q, Selected(st.stream, q.column), before, after);
    PieceInMemory(q, st, from, before, after);
  }

  method TakePiece(stmt: RetsSTMT, ghost q: Series, ghost from: nat, c: nat, targetType: SqlType, target: Area,
                   length: int, cell: Cell)
    returns (ret: ReturnCode)
    requires stmt.Valid() && q.Valid() && (q.Before(stmt.View(), from) == true)
    requires q.column == c && q.targetType == targetType && q.length == length
    requires Int32(length) <= target.bytes.Length
    modifies stmt`errors, stmt.dataStreamInfo, target, target.bytes, cell
    ensures stmt.Valid() && (PieceTaken(q, from, stmt.View(), ret) == true)
    ensures PieceRead(q, from, MemoryAt(target, cell)) == true
  {
    ghost var st, before := stmt.View(), MemoryAt(target, cell);
    assert st.results.Valid() && st.results == q.results;
    ret := stmt.SQLGetData(c, targetType, target, length, cell);
    PieceStep(q, st, from, stmt.View(), ret, stmt.errors);
    PieceDelivered(q, st, from, before, MemoryAt(target, cell));
  }

  /** The next chunk of the column, as far as the buffer and the length reported reach. */
  method ReadPiece(stmt: RetsSTMT, ghost q: Series, ghost from: nat, c: nat, targetType: SqlType, w: Worker,
                   target: Area, length: int, cell: Cell)
    returns (ret: ReturnCode, chunk: string)
    requires stmt.Valid() && q.Valid() && (q.Before(stmt.View(), from) == true)
    requires q.column == c && q.targetType == targetType && q.length == length && q.worker == w
    requires Int32(length) <= target.bytes.Length
    modifies stmt`errors, stmt.dataStreamInfo, target, target.bytes, cell
    ensures stmt.Valid() && (PieceTaken(q, from, stmt.View(), ret) == true)
    ensures chunk == if ret == Error then "" else q.Chunk(from)
  {
    assert if q.value == "" then from == 0 else from < |q.value|;
    ret := TakePiece(stmt, q, from, c, targetType, target, length, cell);
    chunk := TakeChunk(q, from, ret, w, target, length, cell);
  }

  /** Where a binary series is stopped, or at its end. */
  ghost function ReadUpTo(w: Worker, value: string, width: nat): (n: nat)
    requires width >= 1
  {
    if Stopped(w, value, width, StopIndex(width)) then Min(StopIndex(width) * width, |value|) else |value|
  }

  /** What follows a read at `from`: the next one, or the end. */
  lemma NextPiece(q: Series, st: Statement, next: Statement, from: nat, ret: ReturnCode, text: string)
    requires q.Valid() && q.Before(st, from) && PieceTaken(q, from, next, ret) && from <= |q.value|
    requires text == q.value[..from] + if ret == Error then "" else q.Chunk(from)
    ensures ret in {Success, SuccessWithInfo, Error} && (ret == Error <==> Stops(q.worker, q.value, from))
    ensures ret == Error ==> text == q.value[..from]
    ensures ret == SuccessWithInfo ==>
              (q.Before(next, from + q.width) == true) && from + q.width <= |q.value|
              && text == q.value[..from + q.width]
    ensures ret == Success ==> from + q.width >= |q.value| && text == q.value
    ensures q.value == "" || from < |q.value|
  {
  }

  /** A series whose j-th read is the first to fail is stopped there. */
  lemma StoppedHere(w: Worker, value: string, width: nat, j: nat)
    requires width >= 1 && (j > 0 ==> !Stops(w, value, (j - 1) * width))
    requires Stops(w, value, j * width)
    ensures j == StopIndex(width) && Stopped(w, value, width, j)
  {
    StopsAt(w, value, width, j);
    if j > 0 {
      StopsAt(w, value, width, j - 1);
    }
  }

  /** A series whose last read does not fail is not stopped. */
  lemma NeverStopped(w: Worker, value: string, width: nat, j: nat)
    requires width >= 1 && !Stops(w, value, j * width)
    requires |value| <= (j + 1) * width && (value == "" || j * width < |value|)
    ensures !Stopped(w, value, width, StopIndex(width))
  {
    StopsAt(w, value, width, j);
    CeilDivBounds(|value|, width, j);
    CeilDivBounds(|value|, width, j + 1);
  }

  /** The end of the reads, the j-th being the last. */
  lemma LastPiece(q: Series, j: nat, from: nat, ret: ReturnCode, text: string)
    requires q.width >= 1 && from == j * q.width && (j > 0 ==> !Stops(q.worker, q.value, (j - 1) * q.width))
    requires ret == if Stops(q.worker, q.value, from) then Error else Success
    requires if ret == Error then from <= |q.value| && text == q.value[..from]
             else |q.value| <= from + q.width && text == q.value
    requires q.value == "" || from < |q.value|
    ensures q.Done(ret, text) == true
  {
    if ret == Error {
      StoppedHere(q.worker, q.value, q.width, j);
    } else {
      MulDistributes(j, 1, q.width);
      NeverStopped(q.worker, q.value, q.width, j);
    }
  }

  /** After a read the next one follows, or the end. */
  lemma NextReading(q: Series, st: Statement, next: Statement, j: nat, from: nat, ret: ReturnCode, text: string,
                    more: string)
    requires q.Valid() && (q.Reading(st, j, from, text) == true) && (PieceTaken(q, from, next, ret) == true)
    requires more == text + if ret == Error then "" else q.Chunk(from)
    ensures if ret == SuccessWithInfo then
              (q.Reading(next, j + 1, from + q.width, more) == true) && from + q.width <= |q.value|
            else q.Done(ret, more) == true
  {
    NextPiece(q, st, next, from, ret, more);
    if ret == SuccessWithInfo {
      MulDistributes(j, 1, q.width);
    } else {
      LastPiece(q, j, from, ret, more);
    }
  }

  /** Reads one more piece, the j-th. */
  method ReadNext(stmt: RetsSTMT, ghost q: Series, ghost j: nat, ghost from: nat, text: string, c: nat,
                  targetType: SqlType, w: Worker, target: Area, length: int, cell: Cell)
    returns (ret: ReturnCode, more: string)
    requires stmt.Valid() && q.Valid() && (q.Reading(stmt.View(), j, from, text) == true)
    requires q.column == c && q.targetType == targetType && q.length == length && q.worker == w
    requires Int32(length) <= target.bytes.Length
    modifies stmt`errors, stmt.dataStreamInfo, target, target.bytes, cell
    ensures stmt.Valid() && stmt.resultSet.View() == q.results
    ensures if ret == SuccessWithInfo then
              (q.Reading(stmt.View(), j + 1, from + q.width, more) == true) && from + q.width <= |q.value|
            else q.Done(ret, more) == true
  {
    ghost var st := stmt.View();
    var chunk;
    ret, chunk := ReadPiece(stmt, q, from, c, targetType, w, target, length, cell);
    more := text + chunk;
    NextReading(q, st, stmt.View(), j, from, ret, text, more);
  }

  /** Reads a column with one buffer, piece by piece, until no more is announced. The pieces make
      up the value, unless it is read as binary and has a piece at 2^31 or later: then the first
      such one fails, and what was read is all before it. */
  method ReadColumn(stmt: RetsSTMT, ghost q: Series, c: nat, targetType: SqlType, w: Worker, target: Area, length: int,
                    cell: Cell)
    returns (ret: ReturnCode, text: string)
    requires stmt.Valid() && q.Valid() && (q.Before(stmt.View(), 0) == true)
    requires q.column == c && q.targetType == targetType && q.length == length && q.worker == w
    requires Int32(length) <= target.bytes.Length
    modifies stmt`errors, stmt.dataStreamInfo, target, target.bytes, cell
    ensures stmt.Valid() && stmt.resultSet.View() == q.results
    ensures ret == if Stopped(w, q.value, q.width, StopIndex(q.width)) then Error else Success
    ensures text == q.value[..ReadUpTo(w, q.value, q.width)]
  {
    ghost var j: nat, from: nat := 0, 0;
    ret, text := SuccessWithInfo, "";
    while ret == SuccessWithInfo
      invariant stmt.Valid() && stmt.resultSet.View() == q.results
      invariant ret == SuccessWithInfo ==> q.Reading(stmt.View(), j, from, text) == true
      invariant from <= |q.value| && (ret != SuccessWithInfo ==> q.Done(ret, text) == true)
      decreases if ret == SuccessWithInfo then 1 + |q.value| - from else 0
    {
      ret, text := ReadNext(stmt, q, j, from, text, c, targetType, w, target, length, cell);
      if ret == SuccessWithInfo {
        j, from := j + 1, from + q.width;
      }
    }
  }
}
