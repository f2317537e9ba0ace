/** The two ways in which a character cell reaches the application: through a bound column and
    through one fresh read with a position. */
module BoundReads {
  import opened Text
  import opened Odbc
  import opened Streaming
  import opened Statements
  import opened RetsStatement

  /** A bound column gets the characters that fit, a NUL right after them, and nothing past the
      announced length; what it reports is the number of characters it got. */
  lemma BoundWrites(before: seq<char>, data: string, length: int)
    requires data != "" && 1 <= length <= |before|
    ensures var image, n := BoundImage(Character, before, data, length), Min(|data|, length - 1);
            && image[..n] == data[..n] && image[n] == '\0'
            && image[n + 1..] == before[n + 1..]
            && BoundReported(Character, data, length, true) == n
  {
  }

  /** A bound column of bytes gets what fits, and no NUL. */
  lemma BoundBytes(before: seq<char>, data: string, length: int)
    requires data != "" && 0 <= length <= |before|
    ensures var image, n := BoundImage(Binary, before, data, length), Min(|data|, length);
            image == data[..n] + before[n..] && BoundReported(Binary, data, length, true) == n
  {
  }

  /** A null is reported for an empty value, and nothing written; a buffer of no length gets nothing,
      one of a negative length all of the value; without a buffer nothing is reported of it. */
  lemma BoundEdges(w: Worker, before: seq<char>, data: string, hasTarget: bool)
    ensures BoundReported(w, "", 0, hasTarget) == -1 && BoundImage(w, before, "", 0) == before
    ensures data != "" ==> BoundImage(w, before, data, 0) == before && BoundReported(w, data, 0, true) == 0
    ensures data != "" ==> BoundReported(w, data, -1, true) == |data| && BoundReported(w, data, 5, false) == 0
    ensures data != "" && |data| < |before| ==>
              BoundImage(w, before, data, -1)[..|data|] == data
              && BoundImage(w, before, data, -1)[|data|] == if w.Character? then '\0' else before[|data|]
  {
  }

  lemma CTextUpTo(s: string, n: nat)
    requires n < |s| && s[n] == '\0' && Free(s[..n], '\0')
    ensures CText(s) == s[..n]
  {
    IndexOfFirst(s, '\0', n);
  }

  /** With a buffer longer than the value both ways leave the same characters and report the
      same length. The NUL is elsewhere: read as a C string, the bound image is always the
      value, and the streamed one exactly when the buffer is one longer than the value or
      already held a NUL after it. */
  lemma BoundAndStreamedAgree(before: seq<char>, data: string, length: int, s: Stream)
    requires 0 < |data| < length <= |before| && s.offset == 0
    ensures var bound, streamed := BoundImage(Character, before, data, length),
                                   ReadInto(Character, data, length, s, before);
            && bound[..|data|] == data == streamed[..|data|]
            && ReadStream(Character, data, s, length, true).reported
               == Some(BoundReported(Character, data, length, true))
               == Some(|data|)
            && (bound == streamed <==>
                  |data| == length - 1 || (before[|data|] == '\0' && before[length - 1] == '\0'))
            && (Free(data, '\0') ==>
                  && CText(bound) == data
                  && (CText(streamed) == data <==> |data| == length - 1 || before[|data|] == '\0'))
  {
    var bound, streamed := BoundImage(Character, before, data, length), ReadInto(Character, data, length, s, before);
    assert streamed[length - 1] == '\0' && bound[|data|] == '\0';
    assert |data| < length - 1 ==> streamed[|data|] == before[|data|] && bound[length - 1] == before[length - 1];
    if |data| == length - 1 || (before[|data|] == '\0' && before[length - 1] == '\0') {
      assert forall i | 0 <= i < |before| :: bound[i] == streamed[i];
    }
    if Free(data, '\0') {
      CTextUpTo(bound, |data|);
      if streamed[|data|] == '\0' {
        CTextUpTo(streamed, |data|);
      }
    }
  }

  // ---- At the statement handle

  /** The memory holds a value as characters at its start, and its length. */
  ghost predicate Holds(memory: Memory, value: string) {
    && memory.bytes.Some? && |memory.bytes.value| > |value| && memory.bytes.value[..|value|] == value
    && (memory.cell.Some? ==> memory.cell.value == |value|)
  }

  /** The cell of a row is handed over as characters into a buffer longer than its value. */
  ghost predicate BoundFits(r: Results, c: nat) {
    r.HasCell(c) && c - 1 <= r.StopAt(0) && r.columns[c - 1].binding.Some?
    && var binding := r.columns[c - 1].binding.value;
       r.HandlerOf(r.columns[c - 1], binding.targetType) == Streams(Character)
       && 0 < |r.Value(c)| < Int32(binding.length)
  }

  /** It is read as characters into a buffer longer than its value. */
  ghost predicate ReadFits(r: Results, c: nat, targetType: SqlType, length: int) {
    r.HasCell(c) && r.HandlerOf(r.columns[c - 1], targetType) == Streams(Character)
    && 0 < |r.Value(c)| < Int32(length)
  }

  /** What a fetch leaves behind a column bound to a buffer longer than the value. */
  lemma FetchedHolds(r: Results, c: nat, before: Memory, after: Memory)
    requires BoundFits(r, c) == true && before.bytes.Some? && RowHandedOver(r, c - 1, before, after) == true
    ensures r.HasCell(c) && (Holds(after, r.Value(c)) == true)
  {
    var length := Int32(r.columns[c - 1].binding.value.length);
    BoundWrites(before.bytes.value, r.Value(c), length);
  }

  /** What a first read of the same cell leaves in a buffer longer than the value. */
  lemma ReadHolds(r: Results, s: Stream, c: nat, targetType: SqlType, length: int, before: Memory, after: Memory)
    requires ReadFits(r, c, targetType, length) == true && before.bytes.Some? && s.offset == 0 && s.status != NoMoreData
    requires ReadDelivered(r, s, c, targetType, length, before, after) == true
    ensures r.HasCell(c) && (Holds(after, r.Value(c)) == true)
  {
    BoundAndStreamedAgree(before.bytes.value, r.Value(c), Int32(length), s);
  }

  lemma FirstReadSucceeds(r: Results, c: nat, targetType: SqlType, length: int)
    requires r.Valid() && ReadFits(r, c, targetType, length) == true
    ensures var (next, output) := GetDataStep(Statement(r, FRESH), c, targetType, true, length);
            next.results == r && output.ret == Success
  {
  }

  /** The read's target and length are none of what column c points at. */
  ghost predicate Beside(stmt: RetsSTMT, c: nat, target: Area, cell: Cell?)
    reads stmt`resultSet, stmt.resultSet`columns, stmt.resultSet.columns
  {
    1 <= c <= |stmt.resultSet.columns|
    && var pointed := stmt.resultSet.columns[c - 1].Pointed();
       target !in pointed && target.bytes !in pointed && cell !in pointed
  }

  method FetchBound(stmt: RetsSTMT, ghost r: Results, ghost c: nat, ghost memory: set<object>)
    returns (ret: ReturnCode)
    requires stmt.Valid() && stmt.Covers(memory) && c >= 1 && stmt.Watched(c - 1, true)
    requires stmt.resultSet.results != [] && stmt.resultSet.View().HasNext() && r == stmt.resultSet.View().Next()
    requires stmt.resultSet.Fits(stmt.resultSet.View().NextRow()) && BoundFits(r, c) == true
    requires stmt.BoundMemory(c - 1, true).bytes.Some?
    modifies stmt`errors, stmt.dataStreamInfo, stmt.resultSet`gotFirst, stmt.resultSet`resultIterator, memory
    ensures stmt.Valid() && stmt.View() == Statement(r, FRESH) && (stmt.Watched(c - 1, true) == true)
    ensures r.HasCell(c) && (Holds(stmt.BoundMemory(c - 1, true), r.Value(c)) == true) && ret != NoData
    ensures stmt.resultSet.columns[c - 1].Pointing() == old(stmt.resultSet.columns[c - 1].Pointing())
  {
    ghost var before := stmt.BoundMemory(c - 1, true);
    ret := stmt.SQLFetch(memory, c - 1, true);
    FetchedHolds(r, c, before, stmt.BoundMemory(c - 1, true));
  }

  method ReadFirst(stmt: RetsSTMT, ghost r: Results, c: nat, targetType: SqlType, target: Area, length: int,
                   cell: Cell?)
    returns (ret: ReturnCode)
    requires stmt.Valid() && stmt.View() == Statement(r, FRESH) && ReadFits(r, c, targetType, length) == true
    requires Int32(length) <= target.bytes.Length
    modifies stmt`errors, stmt.dataStreamInfo, target, target.bytes, cell
    ensures stmt.Valid() && stmt.resultSet.View() == r && ret == Success
    ensures r.HasCell(c) && (Holds(MemoryAt(target, cell), r.Value(c)) == true)
  {
    ghost var before := MemoryAt(target, cell);
    ret := stmt.SQLGetData(c, targetType, target, length, cell);
    FirstReadSucceeds(r, c, targetType, length);
    ReadHolds(r, Selected(FRESH, c), c, targetType, length, before, MemoryAt(target, cell));
  }

  /** The same read leaves the memory of a watched column alone that it shares nothing with. */
  method ReadBeside(stmt: RetsSTMT, ghost r: Results, c: nat, targetType: SqlType, target: Area, length: int,
                    cell: Cell?)
    returns (ret: ReturnCode)
    requires stmt.Valid() && stmt.View() == Statement(r, FRESH) && ReadFits(r, c, targetType, length) == true
    requires Int32(length) <= target.bytes.Length
    requires c >= 1 && stmt.Watched(c - 1, true) && (Beside(stmt, c, target, cell) == true)
    modifies stmt`errors, stmt.dataStreamInfo, target, target.bytes, cell
    ensures r.HasCell(c) && (Holds(MemoryAt(target, cell), r.Value(c)) == true)
    ensures stmt.Valid() && stmt.resultSet.View() == r && ret == Success && (stmt.Watched(c - 1, true) == true)
    ensures stmt.BoundMemory(c - 1, true) == old(stmt.BoundMemory(c - 1, true))
  {
    ret := ReadFirst(stmt, r, c, targetType, target, length, cell);
  }

  /** A fetch into a bound column and a first read of that column, both with buffers longer than
      the value, leave the same characters and the same length. `memory` covers what the columns
      point at; the column shares none of it with another one, nor with the read. */
  method FetchThenRead(stmt: RetsSTMT, ghost r: Results, c: nat, targetType: SqlType, target: Area, length: int,
                       cell: Cell?, ghost memory: set<object>)
    returns (ret: ReturnCode, readRet: ReturnCode)
    requires stmt.Valid() && stmt.Covers(memory) && c >= 1 && stmt.Watched(c - 1, true)
    requires stmt.resultSet.results != [] && stmt.resultSet.View().HasNext() && r == stmt.resultSet.View().Next()
    requires stmt.resultSet.Fits(stmt.resultSet.View().NextRow()) && BoundFits(r, c) == true
    requires stmt.BoundMemory(c - 1, true).bytes.Some?
    requires ReadFits(r, c, targetType, length) == true && Int32(length) <= target.bytes.Length
    requires Beside(stmt, c, target, cell) == true
    modifies stmt`errors, stmt.dataStreamInfo, stmt.resultSet`gotFirst, stmt.resultSet`resultIterator, memory,
             target, target.bytes, cell
    ensures stmt.Valid() && stmt.resultSet.View() == r && (stmt.Watched(c - 1, true) == true)
    ensures stmt.resultSet.columns[c - 1].Pointing() == old(stmt.resultSet.columns[c - 1].Pointing())
    ensures ret != NoData && readRet == Success && r.HasCell(c)
    ensures (Holds(stmt.BoundMemory(c - 1, true), r.Value(c)) == true)
            && (Holds(MemoryAt(target, cell), r.Value(c)) == true)
  {
    ret := FetchBound(stmt, r, c, memory);
    readRet := ReadBeside(stmt, r, c, targetType, target, length, cell);
  }

  // ---- From the binding on

  /** The target of a new binding of column c is in `memory`, and not shared with another column. */
  ghost predicate BindsApart(pointers: seq<Pointers>, c: nat, p: Pointers, memory: set<object>) {
    && PointedBy(p) <= memory
    && forall k | 0 <= k < |pointers| && k != c - 1 :: PointedBy(pointers[k]) !! PointedBy(p)
  }

  /** Every bound column but c has room for its cell of the next row. */
  ghost predicate OthersFit(r: Results, pointers: seq<Pointers>, c: nat) {
    |pointers| == |r.columns| && r.NextRow() < |r.rows|
    && forall k: nat | k < |r.columns| && k < |r.rows[r.NextRow()]| && k != c - 1 :: RoomIn(r, pointers, k, r.NextRow())
  }

  /** No driver object of the statement is in `memory`, and the row status and count are. */
  ghost predicate Outside(stmt: RetsSTMT, memory: set<object>)
    reads stmt`resultSet, stmt`rowsProcessed, stmt`arrayStatus, stmt.resultSet`columns
  {
    && stmt !in memory && stmt.dataStreamInfo !in memory && stmt.resultSet !in memory
    && (forall c | c in stmt.resultSet.columns :: c !in memory)
    && (stmt.rowsProcessed != null ==> stmt.rowsProcessed in memory)
    && (stmt.arrayStatus != null ==> stmt.arrayStatus in memory)
  }

  ghost predicate AllIn(pointers: seq<Pointers>, memory: set<object>) {
    forall k | 0 <= k < |pointers| :: PointedBy(pointers[k]) <= memory
  }

  lemma CoversIs(stmt: RetsSTMT, memory: set<object>)
    ensures stmt.Covers(memory) == (Outside(stmt, memory) && AllIn(PointersOf(stmt.resultSet.columns), memory))
  {
    var columns := stmt.resultSet.columns;
    forall k | 0 <= k < |columns| ensures PointersOf(columns)[k] == columns[k].Pointing() {
    }
  }

  /** A statement with column c bound is ready for a fetch into its target. */
  ghost predicate Ready(stmt: RetsSTMT, c: nat, row: nat, p: Pointers, memory: set<object>)
    reads stmt`resultSet, stmt`rowsProcessed, stmt`arrayStatus, stmt.resultSet, stmt.resultSet.columns
  {
    && c >= 1 && stmt.Covers(memory) && stmt.Watched(c - 1, true)
    && stmt.resultSet.columns[c - 1].Pointing() == p
    && row < |stmt.resultSet.results| && stmt.resultSet.Fits(row)
  }

  lemma BoundIsReady(stmt: RetsSTMT, before: seq<Pointers>, c: nat, row: nat, p: Pointers, memory: set<object>)
    requires 1 <= c <= |before| && PointersOf(stmt.resultSet.columns) == before[c - 1 := p]
    requires BindsApart(before, c, p, memory) == true
    requires AllIn(before, memory) == true
    requires Outside(stmt, memory) == true
    requires stmt.rowsProcessed !in PointedBy(p) && stmt.arrayStatus !in PointedBy(p)
    requires AllRoomIn(stmt.resultSet.View(), before[c - 1 := p], row) == true
    ensures Ready(stmt, c, row, p, memory) == true
  {
    BoundApart(stmt, before, c, p, memory);
    stmt.resultSet.RoomIsFit(stmt.resultSet.View(), before[c - 1 := p], row);
  }

  lemma BoundApart(stmt: RetsSTMT, before: seq<Pointers>, c: nat, p: Pointers, memory: set<object>)
    requires 1 <= c <= |before| && PointersOf(stmt.resultSet.columns) == before[c - 1 := p]
    requires BindsApart(before, c, p, memory) && AllIn(before, memory) && Outside(stmt, memory)
    requires stmt.rowsProcessed !in PointedBy(p) && stmt.arrayStatus !in PointedBy(p)
    ensures stmt.Covers(memory) == true
    ensures stmt.Watched(c - 1, true) == true
    ensures stmt.resultSet.columns[c - 1].Pointing() == p
  {
    var columns := stmt.resultSet.columns;
    assert forall k | 0 <= k < |columns| :: columns[k].Pointing() == before[c - 1 := p][k];
  }

  lemma AllFit(r: Results, pointers: seq<Pointers>, c: nat, binding: Binding, target: Area, cell: Cell?)
    requires 1 <= c <= |r.columns| == |pointers| && OthersFit(r, pointers, c) == true
    requires BoundFits(WithBinding(r, c, binding).Next(), c) == true && Int32(binding.length) <= target.bytes.Length
    ensures AllRoomIn(WithBinding(r, c, binding), pointers[c - 1 := Pointers(target, cell)], r.NextRow()) == true
  {
    var bound, now := WithBinding(r, c, binding), pointers[c - 1 := Pointers(target, cell)];
    forall k: nat | k < |bound.columns| && k < |bound.rows[bound.NextRow()]|
      ensures RoomIn(bound, now, k, bound.NextRow())
    {
      if k != c - 1 {
        assert RoomIn(r, pointers, k, r.NextRow());
      }
    }
  }

  lemma BindSucceeds(st: Statement, c: nat, targetType: SqlType, length: int)
    requires st.results.Valid() && 1 <= c <= |st.results.columns|
    ensures Step(st, Call.BindCol(c, targetType, true, length))
            == (st.(results := WithBinding(st.results, c, Binding(targetType, length))), Answer(Success, []))
  {
  }

  method BindTo(stmt: RetsSTMT, ghost r: Results, c: nat, targetType: SqlType, target: Area, length: int, cell: Cell?)
    returns (ret: ReturnCode)
    requires stmt.Valid() && r == stmt.resultSet.View() && 1 <= c <= |r.columns|
    modifies stmt`errors, stmt.resultSet.columns
    ensures stmt.Valid() && ret == Success
    ensures stmt.resultSet.View() == WithBinding(r, c, Binding(targetType, length))
    ensures PointersOf(stmt.resultSet.columns) ==
            old(PointersOf(stmt.resultSet.columns))[c - 1 := Pointers(target, cell)]
  {
    BindSucceeds(stmt.View(), c, targetType, length);
    ret := stmt.SQLBindCol(c, targetType, target, length, cell);
  }

  /** Binds column c, after which it is ready for a fetch into `target`. */
  method BindColumn(stmt: RetsSTMT, ghost r: Results, c: nat, targetType: SqlType, target: Area, length: int,
                    cell: Cell?, ghost memory: set<object>)
    returns (ret: ReturnCode)
    requires stmt.Valid() && (stmt.Covers(memory) == true)
    requires r == stmt.resultSet.View() && r.rows != [] && r.HasNext()
    requires BindsApart(PointersOf(stmt.resultSet.columns), c, Pointers(target, cell), memory) == true
    requires stmt.rowsProcessed !in PointedBy(Pointers(target, cell))
    requires stmt.arrayStatus !in PointedBy(Pointers(target, cell))
    requires OthersFit(r, PointersOf(stmt.resultSet.columns), c) == true
    requires 1 <= c <= |r.columns| && (BoundFits(WithBinding(r, c, Binding(targetType, length)).Next(), c) == true)
    requires Int32(length) <= target.bytes.Length
    modifies stmt`errors, stmt.resultSet.columns
    ensures stmt.Valid() && ret == Success
    ensures stmt.resultSet.View() == WithBinding(r, c, Binding(targetType, length))
    ensures Ready(stmt, c, r.NextRow(), Pointers(target, cell), memory) == true
  {
    ghost var before := PointersOf(stmt.resultSet.columns);
    CoversIs(stmt, memory);
    AllFit(r, before, c, Binding(targetType, length), target, cell);
    ret := BindTo(stmt, r, c, targetType, target, length, cell);
    BoundIsReady(stmt, before, c, r.NextRow(), Pointers(target, cell), memory);
  }

  /** What the watched column holds is what its pointers show. */
  lemma BoundMemoryIs(stmt: RetsSTMT, c: nat, p: Pointers)
    requires c >= 1 && stmt.Watched(c - 1, true) && stmt.resultSet.columns[c - 1].Pointing() == p
    ensures stmt.BoundMemory(c - 1, true) == MemoryAt(p.target, p.cell)
  {
  }

  /** What Ready says, as a fetch and a read of the column need it. */
  lemma ReadyGives(stmt: RetsSTMT, c: nat, row: nat, p: Pointers, target: Area, cell: Cell?, memory: set<object>)
    requires Ready(stmt, c, row, p, memory) == true && p.target != null
    requires PointedBy(p) !! PointedBy(Pointers(target, cell))
    ensures c >= 1 && (stmt.Covers(memory) == true) && (stmt.Watched(c - 1, true) == true)
    ensures row < |stmt.resultSet.results| && (stmt.resultSet.Fits(row) == true)
    ensures Beside(stmt, c, target, cell) == true
    ensures stmt.BoundMemory(c - 1, true).bytes.Some?
    ensures stmt.resultSet.columns[c - 1].Pointing() == p
  {
  }

  method FetchReadBound(stmt: RetsSTMT, ghost view: Results, ghost r: Results, c: nat, ghost bound: Area,
                        ghost boundCell: Cell?, targetType: SqlType, target: Area, length: int, cell: Cell?,
                        ghost memory: set<object>)
    returns (ret: ReturnCode, readRet: ReturnCode)
    requires stmt.Valid() && stmt.resultSet.View() == view && view.rows != [] && view.HasNext() && r == view.Next()
    requires Ready(stmt, c, view.NextRow(), Pointers(bound, boundCell), memory) == true
    requires PointedBy(Pointers(bound, boundCell)) !! PointedBy(Pointers(target, cell))
    requires BoundFits(r, c) == true
    requires ReadFits(r, c, targetType, length) == true && Int32(length) <= target.bytes.Length
    modifies stmt`errors, stmt.dataStreamInfo, stmt.resultSet`gotFirst, stmt.resultSet`resultIterator, memory,
             target, target.bytes, cell
    ensures ret != NoData && readRet == Success && r.HasCell(c)
    ensures Holds(MemoryAt(bound, boundCell), r.Value(c)) == true
    ensures Holds(MemoryAt(target, cell), r.Value(c)) == true
  {
    ReadyGives(stmt, c, view.NextRow(), Pointers(bound, boundCell), target, cell, memory);
    ret, readRet := FetchThenRead(stmt, r, c, targetType, target, length, cell, memory);
    BoundMemoryIs(stmt, c, Pointers(bound, boundCell));
  }

  lemma SameCell(r: Results, c: nat, binding: Binding)
    requires 1 <= c <= |r.columns| && (BoundFits(WithBinding(r, c, binding).Next(), c) == true)
    ensures r.Next().HasCell(c) && WithBinding(r, c, binding).Next().HasCell(c)
    ensures WithBinding(r, c, binding).Next().Value(c) == r.Next().Value(c)
    ensures WithBinding(r, c, binding).NextRow() == r.NextRow() && WithBinding(r, c, binding).rows == r.rows
    ensures WithBinding(r, c, binding).HasNext() == r.HasNext()
  {
  }

  /** Binding a column to `bound`, fetching, and reading the same column into `target`: both
      buffers then hold the value of the row fetched, and both cells its length. The two share
      no memory, and neither does `bound` with what the other columns are bound to. */
  method BindFetchRead(stmt: RetsSTMT, ghost r: Results, c: nat, boundType: SqlType, bound: Area, boundLength: int,
                       boundCell: Cell?, targetType: SqlType, target: Area, length: int, cell: Cell?,
                       ghost memory: set<object>)
    returns (ret: ReturnCode, readRet: ReturnCode)
    requires stmt.Valid() && (stmt.Covers(memory) == true)
    requires r == stmt.resultSet.View() && r.rows != [] && r.HasNext()
    requires BindsApart(PointersOf(stmt.resultSet.columns), c, Pointers(bound, boundCell), memory) == true
    requires stmt.rowsProcessed !in PointedBy(Pointers(bound, boundCell))
    requires stmt.arrayStatus !in PointedBy(Pointers(bound, boundCell))
    requires PointedBy(Pointers(bound, boundCell)) !! PointedBy(Pointers(target, cell))
    requires OthersFit(r, PointersOf(stmt.resultSet.columns), c) == true
    requires 1 <= c <= |r.columns|
    requires BoundFits(WithBinding(r, c, Binding(boundType, boundLength)).Next(), c) == true
    requires ReadFits(WithBinding(r, c, Binding(boundType, boundLength)).Next(), c, targetType, length) == true
    requires Int32(boundLength) <= bound.bytes.Length && Int32(length) <= target.bytes.Length
    modifies stmt`errors, stmt.dataStreamInfo, stmt.resultSet`gotFirst, stmt.resultSet`resultIterator,
             stmt.resultSet.columns, memory, target, target.bytes, cell
    ensures ret != NoData && readRet == Success && r.Next().HasCell(c)
    ensures Holds(MemoryAt(bound, boundCell), r.Next().Value(c)) == true
    ensures Holds(MemoryAt(target, cell), r.Next().Value(c)) == true
  {
    ghost var view := WithBinding(r, c, Binding(boundType, boundLength));
    SameCell(r, c, Binding(boundType, boundLength));
    var bindRet := BindColumn(stmt, r, c, boundType, bound, boundLength, boundCell, memory);
    ret, readRet := FetchReadBound(stmt, view, view.Next(), c, bound, boundCell, targetType, target, length, cell,
                                   memory);
  }
}
