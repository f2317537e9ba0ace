/** What an application gets for each C type that it asks for or binds: the value as a date, a
    time of day, a timestamp, a decimal, characters or bytes. */
module TypedReads {
  import opened Text
  import opened Odbc
  import opened DateTimes
  import opened Numerics
  import opened Lookups
  import opened Streaming
  import opened Statements
  import opened RetsStatement

  /** The value of a plain column is what the row holds at its place. */
  lemma PlainValue(r: Results, c: nat)
    requires r.HasCell(c) && r.columns[c - 1].data == Unmodified
    ensures r.Value(c) == r.rows[r.row][c - 1]
  {
  }

  /** A cell of results with typed columns that is read as a type from its start. */
  ghost predicate FirstRead(st: Statement, c: nat) {
    st.results.Valid() && st.results.HasCell(c) && st.results.translator == Native
    && Selected(st.stream, c).status == NoDataRetrieved
  }

  /** What a read leaves in a target with structures, beside its length cell: bytes stay. */
  ghost predicate LeavesStructs(before: Memory, after: Memory, structs: Structs, reported: int) {
    && after.structs == Some(structs) && after.bytes == before.bytes
    && after.cell == if before.cell.None? then None else Some(reported)
  }

  // ---- Dates and times

  /** A date read as such: 10 bytes, or null for 0000-00-00, and the fields in the structure. */
  lemma DateRead(st: Statement, c: nat, d: DateStruct, rest: string, length: int, before: Memory, after: Memory)
    requires FirstRead(st, c) && st.results.Value(c) == FormatDate(d) + rest && DateInRange(d)
    requires before.structs.Some? && before.bytes.Some?
    requires ReadDelivered(st.results, Selected(st.stream, c), c, SqlDate, length, before, after)
    ensures var reported := if d == DateStruct(0, 0, 0) then -1 else 10;
            && GetDataStep(st, c, SqlDate, true, length) ==
               (st.(stream := Selected(st.stream, c)), Output(Success, [], "", Some(reported)))
            && LeavesStructs(before, after, before.structs.value.(date := d), reported)
  {
    DateRoundTrip(d, rest);
  }

  lemma TimeRead(st: Statement, c: nat, t: TimeStruct, rest: string, length: int, before: Memory, after: Memory)
    requires FirstRead(st, c) && st.results.Value(c) == FormatTime(t) + rest && TimeInRange(t)
    requires before.structs.Some? && before.bytes.Some?
    requires ReadDelivered(st.results, Selected(st.stream, c), c, SqlTime, length, before, after)
    ensures GetDataStep(st, c, SqlTime, true, length) ==
            (st.(stream := Selected(st.stream, c)), Output(Success, [], "", Some(8)))
    ensures LeavesStructs(before, after, before.structs.value.(time := t), 8)
  {
    TimeRoundTrip(t, rest);
  }

  lemma TimestampRead(st: Statement, c: nat, t: TimestampStruct, length: int, before: Memory, after: Memory)
    requires FirstRead(st, c) == true && st.results.HasCell(c) && st.results.Value(c) == FormatTimestamp(t)
    requires DateInRange(t.date) && TimeInRange(t.time) && t.fraction < 1000
    requires before.structs.Some? && before.bytes.Some?
    requires ReadDelivered(st.results, Selected(st.stream, c), c, SqlTimestamp, length, before, after) == true
    ensures GetDataStep(st, c, SqlTimestamp, true, length) ==
            (st.(stream := Selected(st.stream, c)), Output(Success, [], "", Some(19)))
    ensures LeavesStructs(before, after, before.structs.value.(timestamp := t), 19) == true
  {
    TimestampRoundTrip(t);
    TimestampStored(st.results, Selected(st.stream, c), c, t, length, before, after);
  }

  lemma TimestampStored(r: Results, s: Stream, c: nat, t: TimestampStruct, length: int, before: Memory, after: Memory)
    requires r.HasCell(c) && r.translator == Native && s.status == NoDataRetrieved
    requires var text := r.Value(c); !Blank(text) && FindDate(text) == Some(0) && TimestampFields(text, 0) == t
    requires before.structs.Some? && before.bytes.Some?
    requires ReadDelivered(r, s, c, SqlTimestamp, length, before, after) == true
    ensures LeavesStructs(before, after, before.structs.value.(timestamp := t), 19) == true
  {
  }

  /** A text that has no place of the shape, and is not blank, is an error, and a blank one is
      null; neither writes a structure. */
  lemma NoDateRead(st: Statement, c: nat, targetType: SqlType, length: int, before: Memory, after: Memory)
    requires FirstRead(st, c) && targetType in {SqlDate, SqlTime, SqlTimestamp}
    requires before.structs.Some? && before.bytes.Some?
    requires ReadDelivered(st.results, Selected(st.stream, c), c, targetType, length, before, after)
    requires var value := st.results.Value(c);
             Blank(value) || forall i :: if targetType.SqlTime? then !TimeAt(value, i) else !DateAt(value, i)
    ensures GetDataStep(st, c, targetType, true, length).1 ==
            if Blank(st.results.Value(c)) then Output(Success, [], "", Some(-1))
            else Output(Error, ["22007"], "", Some(-1))
    ensures LeavesStructs(before, after, before.structs.value, -1)
  {
  }

  // ---- Decimals

  lemma TrimOfDecimal(negative: bool, whole: string, point: bool, part: string)
    requires IsDecimal(whole, point, part)
    ensures var text := DecimalText(negative, whole, point, part); text != "" && Trim(text) == text
  {
    var text := DecimalText(negative, whole, point, part);
    var last := text[|text| - 1];
    assert last == '.' || IsDigit(last) by {
      if part != "" {
        assert last == part[|part| - 1];
      } else if !point {
        assert text == (if negative then "-" else "") + whole;
        assert last == whole[|whole| - 1];
      }
    }
    assert text[0] == '-' || text[0] == '.' || IsDigit(text[0]) by {
      if !negative && whole != "" {
        assert text[0] == whole[0];
      }
    }
  }

  /** The structure of a decimal: its sign, 1 for positive and 0 for negative, the digits after
      the point counted twice, and the lowest seven bytes of its digits, the lowest first. It
      denotes the decimal exactly where its digits are below 2^56. */
  ghost predicate DenotesDecimal(out: NumericStruct, negative: bool, whole: string, part: string)
    requires AllDigits(whole) && AllDigits(part) && AllDigits(whole + part)
  {
    var digits := Number(whole + part);
    && out.sign == (if negative then 0 else 1) && out.scale == |part| && out.precision == |part|
    && |out.val| == 16
    && (forall k | 0 <= k < 16 :: out.val[k] == if k < 7 then digits / Pow256(k) % 256 else 0)
    && (Denoted(out) == DecimalValue(negative, whole, part) <==> digits < 0x100_0000_0000_0000)
  }

  lemma NumberAnswer(st: Statement, c: nat, length: int)
    requires FirstRead(st, c) && Trim(st.results.Value(c)) == st.results.Value(c) != ""
    ensures GetDataStep(st, c, SqlNumeric, true, length) ==
            (st.(stream := Selected(st.stream, c)),
             if Converts(st.results.Value(c)) then Output(Success, [], "", Some(19)) else Answer(Error, ["HY000"]))
  {
  }

  lemma NumberStored(r: Results, s: Stream, c: nat, text: string, length: int, before: Memory, after: Memory)
    requires r.HasCell(c) && r.translator == Native && r.Value(c) == text != "" && Trim(text) == text && Converts(text)
    requires s.status == NoDataRetrieved && before.structs.Some? && before.bytes.Some?
    requires ReadDelivered(r, s, c, SqlNumeric, length, before, after) == true
    ensures after.structs.Some? && Delivers(text, after.structs.value.numeric)
    ensures true == LeavesStructs(before, after, before.structs.value.(numeric := after.structs.value.numeric), 19)
  {
  }

  /** A decimal read as such succeeds exactly when its scale and digits fit. */
  lemma DecimalRead(st: Statement, c: nat, negative: bool, whole: string, point: bool, part: string, length: int,
                    before: Memory, after: Memory)
    requires FirstRead(st, c) && IsDecimal(whole, point, part)
    requires st.results.Value(c) == DecimalText(negative, whole, point, part)
    requires before.structs.Some? && before.bytes.Some?
    requires ReadDelivered(st.results, Selected(st.stream, c), c, SqlNumeric, length, before, after) == true
    ensures AllDigits(whole + part)
    ensures GetDataStep(st, c, SqlNumeric, true, length) ==
            (st.(stream := Selected(st.stream, c)),
             if |part| <= 127 && Number(whole + part) < 0x1_0000_0000_0000_0000 then Output(Success, [], "", Some(19))
             else Answer(Error, ["HY000"]))
    ensures |part| <= 127 && Number(whole + part) < 0x1_0000_0000_0000_0000 ==>
              after.structs.Some? && (DenotesDecimal(after.structs.value.numeric, negative, whole, part) == true)
              && true == LeavesStructs(before, after, before.structs.value.(numeric := after.structs.value.numeric), 19)
  {
    TrimOfDecimal(negative, whole, point, part);
    DecimalConverts(negative, whole, point, part);
    NumberAnswer(st, c, length);
    if |part| <= 127 && Number(whole + part) < 0x1_0000_0000_0000_0000 {
      NumberStored(st.results, Selected(st.stream, c), c, st.results.Value(c), length, before, after);
      DeliveredDecimal(negative, whole, point, part, after.structs.value.numeric);
    }
  }

  lemma DeliveredDecimal(negative: bool, whole: string, point: bool, part: string, out: NumericStruct)
    requires IsDecimal(whole, point, part)
    requires var text := DecimalText(negative, whole, point, part);
             text != "" && Converts(text) && (Delivers(text, out) == true)
    ensures AllDigits(whole + part) && (DenotesDecimal(out, negative, whole, part) == true)
  {
    SignOfDecimal(negative, whole, point, part);
    PartsOfMagnitude(whole, point, part);
    DigitsOfConcat(whole, part);
    CastOfDigits(whole + part);
    DecimalDenoted(negative, whole, point, part, out);
    forall k | 0 <= k < 7 ensures out.val[k] == Number(whole + part) / Pow256(k) % 256 {
      ByteIs(Number(whole + part), k);
    }
  }

  // ---- Characters and bytes

  /** Read as characters: by the two types of characters, and under the translator that knows
      nothing else by every type that is not one of bytes. */
  ghost predicate AsText(r: Results, targetType: SqlType) {
    targetType in {SqlChar, SqlVarchar}
    || (r.translator == CharOnly && targetType !in {SqlBinary, SqlVarbinary, SqlLongVarbinary, SqlDefault})
  }

  lemma TextRead(st: Statement, c: nat, targetType: SqlType, length: int, before: Memory, after: Memory)
    requires st.results.Valid() && st.results.HasCell(c) && Selected(st.stream, c) == Stream(c, NoDataRetrieved, 0)
    requires AsText(st.results, targetType) && st.results.Value(c) != ""
    requires before.bytes.Some? && 2 <= length <= |before.bytes.value| && length < 0x8000_0000
    requires ReadDelivered(st.results, Selected(st.stream, c), c, targetType, length, before, after)
    ensures var value, output := st.results.Value(c), GetDataStep(st, c, targetType, true, length).1;
            && output.copied == value[..Min(length - 1, |value|)] && output.reported == Some(|value|)
            && output.ret == (if length - 1 < |value| then SuccessWithInfo else Success)
            && output.errors == (if length - 1 < |value| then ["01004"] else [])
            && after.bytes.Some? && |after.bytes.value| == |before.bytes.value| && after.structs == before.structs
            && after.bytes.value[..Min(length - 1, |value|)] == value[..Min(length - 1, |value|)]
            && after.bytes.value[length - 1] == '\0'
            && (after.cell.Some? ==> after.cell.value == |value|)
  {
  }

  lemma BytesRead(st: Statement, c: nat, targetType: SqlType, length: int, before: Memory, after: Memory)
    requires st.results.Valid() && st.results.HasCell(c) && Selected(st.stream, c) == Stream(c, NoDataRetrieved, 0)
    requires targetType in {SqlBinary, SqlVarbinary, SqlLongVarbinary} && st.results.Value(c) != ""
    requires before.bytes.Some? && 1 <= length <= |before.bytes.value| && length < 0x8000_0000
    requires ReadDelivered(st.results, Selected(st.stream, c), c, targetType, length, before, after)
    ensures var value, output := st.results.Value(c), GetDataStep(st, c, targetType, true, length).1;
            var n := Min(length, |value|);
            && output.copied == value[..n] && output.reported == Some(|value|)
            && output.ret == (if length < |value| then SuccessWithInfo else Success)
            && output.errors == (if length < |value| then ["01004"] else [])
            && after.bytes == Some(value[..n] + before.bytes.value[n..]) && after.structs == before.structs
            && (after.cell.Some? ==> after.cell.value == |value|)
  {
  }

  /** Asking for the length: without a target, or as characters with room for no more than the NUL,
      nothing is copied, written or moved, and the whole length is reported as not yet delivered. */
  lemma LengthRead(st: Statement, c: nat, targetType: SqlType, length: int, before: Memory, after: Memory)
    requires st.results.Valid() && st.results.HasCell(c) && Selected(st.stream, c) == Stream(c, NoDataRetrieved, 0)
    requires st.results.Value(c) != "" && -0x8000_0000 <= length < 0x8000_0000
    requires (AsText(st.results, targetType) && (before.bytes.None? || length <= 1))
             || (targetType in {SqlBinary, SqlVarbinary, SqlLongVarbinary} && before.bytes.None?)
    requires ReadDelivered(st.results, Selected(st.stream, c), c, targetType, length, before, after)
    ensures GetDataStep(st, c, targetType, before.bytes.Some?, length) ==
            (st.(stream := Stream(c, HasMoreData, 0)),
             Output(SuccessWithInfo, ["01004"], "", Some(|st.results.Value(c)|)))
    ensures after.bytes == before.bytes && after.structs == before.structs
    ensures after.cell.Some? ==> after.cell.value == |st.results.Value(c)|
  {
  }

  /** As bytes into a buffer of no length nothing is copied either; a negative length announces no
      limit, so that all of the value is. */
  lemma UnusualBytesRead(st: Statement, c: nat, targetType: SqlType, length: int, before: Memory, after: Memory)
    requires st.results.Valid() && st.results.HasCell(c) && Selected(st.stream, c) == Stream(c, NoDataRetrieved, 0)
    requires targetType in {SqlBinary, SqlVarbinary, SqlLongVarbinary} && st.results.Value(c) != ""
    requires before.bytes.Some? && -0x8000_0000 <= length <= 0
    requires ReadDelivered(st.results, Selected(st.stream, c), c, targetType, length, before, after)
    ensures var value, output := st.results.Value(c), GetDataStep(st, c, targetType, true, length).1;
            var n := if length == 0 then 0 else |value|;
            && output == Output(if length == 0 then SuccessWithInfo else Success, if length == 0 then ["01004"] else [],
                                value[..n], Some(|value|))
            && n <= |before.bytes.value| && after.bytes == Some(value[..n] + before.bytes.value[n..])
  {
  }

  // ---- The other types

  /** Without a type the column's own one is taken. */
  lemma DefaultIsPreferred(st: Statement, c: nat, hasTarget: bool, length: int, before: Memory, after: Memory)
    requires st.results.Valid() && st.results.HasCell(c) && !st.results.columns[c - 1].preferred.SqlDefault?
    ensures var preferred := st.results.columns[c - 1].preferred;
            && GetDataStep(st, c, SqlDefault, hasTarget, length) == GetDataStep(st, c, preferred, hasTarget, length)
            && (ReadDelivered(st.results, Selected(st.stream, c), c, SqlDefault, length, before, after) <==>
                ReadDelivered(st.results, Selected(st.stream, c), c, preferred, length, before, after))
  {
  }

  /** A type without a worker is a warning and a null. */
  lemma UnknownTypeRead(st: Statement, c: nat, code: int, hasTarget: bool, length: int, before: Memory, after: Memory)
    requires FirstRead(st, c) && before.structs.Some? == before.bytes.Some? == hasTarget
    requires ReadDelivered(st.results, Selected(st.stream, c), c, SqlOther(code), length, before, after)
    ensures GetDataStep(st, c, SqlOther(code), hasTarget, length).1 == Output(SuccessWithInfo, ["01000"], "", Some(-1))
    ensures after.bytes == before.bytes && after.structs == before.structs
    ensures after.cell == if before.cell.None? then None else Some(-1)
  {
  }

  // ---- Bound columns

  /** What a fetch leaves behind a column bound to a type with a structure is what a first read of
      that type leaves. */
  lemma BoundAsRead(r: Results, c: nat, targetType: SqlType, length: int, before: Memory, after: Memory)
    requires r.HasCell(c) && r.translator == Native && targetType in {SqlDate, SqlTime, SqlTimestamp, SqlNumeric}
    requires r.columns[c - 1].binding == Some(Binding(targetType, length)) && c - 1 <= r.StopAt(0)
    requires before.structs.Some? && before.bytes.Some? && RowHandedOver(r, c - 1, before, after)
    ensures ReadDelivered(r, Stream(c, NoDataRetrieved, 0), c, targetType, length, before, after)
  {
  }

  /** Which of the types fail on a value that is handed to a bound column, and how. */
  lemma BoundFailureIs(r: Results, c: nat)
    requires r.HasCell(c) && r.translator == Native
    ensures var binding, value := r.columns[c - 1].binding, r.Value(c);
            && (binding.None? ==> r.BoundFailure(c - 1) == None)
            && (binding.Some? && !binding.value.targetType.SqlDefault? ==>
                  r.BoundFailure(c - 1) ==
                  match binding.value.targetType
                  case SqlDate | SqlTimestamp =>
                    if !Blank(value) && forall i :: !DateAt(value, i) then Some(DateTimeFormat) else None
                  case SqlTime =>
                    if !Blank(value) && forall i :: !TimeAt(value, i) then Some(DateTimeFormat) else None
                  case SqlNumeric =>
                    if !Blank(value) && !Converts(Trim(value)) then Some(DataTranslation) else None
                  case SqlOther(_) => Some(MissingTranslator)
                  case _ => None)
  {
  }

  /** A column bound to no type in particular fails as one bound to its own type. */
  lemma DefaultFailsAsPreferred(r: Results, c: nat, length: int)
    requires r.HasCell(c) && !r.columns[c - 1].preferred.SqlDefault?
    ensures WithBinding(r, c, Binding(SqlDefault, length)).BoundFailure(c - 1) ==
            WithBinding(r, c, Binding(r.columns[c - 1].preferred, length)).BoundFailure(c - 1)
  {
  }

  ghost predicate Passes(r: Results, i: nat) {
    r.HasCell(i + 1) && r.BoundFailure(i).None?
  }

  /** Where handing over stops, and with what, from a column on. */
  lemma {:induction false} FirstFailureFrom(r: Results, k: nat)
    requires r.row < |r.rows| && k <= |r.rows[r.row]|
    ensures forall i: nat | k <= i < r.StopAt(k) :: Passes(r, i)
    ensures r.StopAt(k) <= |r.rows[r.row]|
    ensures r.RowFailure(k) ==
            if r.HasCell(r.StopAt(k) + 1) then r.BoundFailure(r.StopAt(k))
            else if r.StopAt(k) < |r.rows[r.row]| then Some(OutOfRange)
            else None
    ensures r.HasCell(r.StopAt(k) + 1) ==> r.BoundFailure(r.StopAt(k)).Some?
    decreases |r.rows[r.row]| - k
  {
    if Passes(r, k) {
      FirstFailureFrom(r, k + 1);
    }
  }

  /** A fetch answers for the first column, from left to right, on which its row fails: text that
      is no date or time 22007, a type without a worker HY000, a decimal that does not fit 01S01,
      and so does a row with more cells than there are columns. */
  lemma FetchFailsAtFirst(st: Statement, k: nat)
    requires st.results.Valid() && st.results.rows != [] && st.results.HasNext()
    requires var r := st.results.Next();
             k <= |r.rows[r.row]| && forall i: nat | i < k :: Passes(r, i)
    ensures var r, output := st.results.Next(), FetchStep(st).1;
            && (k == |r.rows[r.row]| ==> output == Answer(Success, []))
            && (|r.columns| == k < |r.rows[r.row]| ==> output == Answer(Error, ["01S01"]))
            && (r.HasCell(k + 1) && r.BoundFailure(k).Some? ==>
                  output == Answer(Error, [match r.BoundFailure(k).value
                                           case DateTimeFormat => "22007"
                                           case MissingTranslator => "HY000"
                                           case DataTranslation => "01S01"
                                           case OutOfRange => "01S01"]))
  {
    var r := st.results.Next();
    FirstFailureFrom(r, 0);
    assert r.StopAt(0) < k ==> Passes(r, r.StopAt(0));
    assert k < r.StopAt(0) ==> Passes(r, k);
  }

  /** A column bound to a type of characters is handed its cell as characters. */
  lemma TextIsStreamed(r: Results, c: nat, targetType: SqlType)
    requires 1 <= c <= |r.columns| && AsText(r, targetType)
    ensures r.HandlerOf(r.columns[c - 1], targetType) == Streams(Character)
  {
  }

  // ---- At the statement handle

  method ReadDate(stmt: RetsSTMT, ghost st: Statement, c: nat, ghost d: DateStruct, ghost rest: string, target: Area,
                  length: int, cell: Cell?)
    returns (ret: ReturnCode)
    requires stmt.Valid() && stmt.View() == st && (FirstRead(st, c) == true)
    requires st.results.HasCell(c) && st.results.Value(c) == FormatDate(d) + rest && DateInRange(d)
    modifies stmt`errors, stmt.dataStreamInfo, target, target.bytes, cell
    ensures ret == Success && stmt.errors == [] && target.structs == old(target.structs).(date := d)
    ensures cell != null ==> cell.value == if d == DateStruct(0, 0, 0) then -1 else 10
  {
    ghost var before := MemoryAt(target, cell);
    ret := stmt.SQLGetData(c, SqlDate, target, length, cell);
    DateRead(st, c, d, rest, length, before, MemoryAt(target, cell));
  }

  method ReadTime(stmt: RetsSTMT, ghost st: Statement, c: nat, ghost t: TimeStruct, ghost rest: string, target: Area,
                  length: int, cell: Cell?)
    returns (ret: ReturnCode)
    requires stmt.Valid() && stmt.View() == st && (FirstRead(st, c) == true)
    requires st.results.HasCell(c) && st.results.Value(c) == FormatTime(t) + rest && TimeInRange(t)
    modifies stmt`errors, stmt.dataStreamInfo, target, target.bytes, cell
    ensures ret == Success && stmt.errors == [] && target.structs == old(target.structs).(time := t)
    ensures cell != null ==> cell.value == 8
  {
    ghost var before := MemoryAt(target, cell);
    ret := stmt.SQLGetData(c, SqlTime, target, length, cell);
    TimeRead(st, c, t, rest, length, before, MemoryAt(target, cell));
  }

  method ReadTimestamp(stmt: RetsSTMT, ghost st: Statement, c: nat, ghost t: TimestampStruct, target: Area,
                       length: int, cell: Cell?)
    returns (ret: ReturnCode)
    requires stmt.Valid() && stmt.View() == st && (FirstRead(st, c) == true)
    requires st.results.HasCell(c) && st.results.Value(c) == FormatTimestamp(t)
    requires DateInRange(t.date) && TimeInRange(t.time) && t.fraction < 1000
    modifies stmt`errors, stmt.dataStreamInfo, target, target.bytes, cell
    ensures ret == Success && stmt.errors == [] && target.structs == old(target.structs).(timestamp := t)
    ensures cell != null ==> cell.value == 19
  {
    ghost var before := MemoryAt(target, cell);
    ret := stmt.SQLGetData(c, SqlTimestamp, target, length, cell);
    TimestampRead(st, c, t, length, before, MemoryAt(target, cell));
  }

  method ReadDecimal(stmt: RetsSTMT, ghost st: Statement, c: nat, ghost negative: bool, ghost whole: string,
                     ghost point: bool, ghost part: string, target: Area, length: int, cell: Cell?)
    returns (ret: ReturnCode)
    requires stmt.Valid() && stmt.View() == st && (FirstRead(st, c) == true) && IsDecimal(whole, point, part)
    requires st.results.HasCell(c) && st.results.Value(c) == DecimalText(negative, whole, point, part)
    modifies stmt`errors, stmt.dataStreamInfo, target, target.bytes, cell
    ensures AllDigits(whole + part)
    ensures ret == Success <==> |part| <= 127 && Number(whole + part) < 0x1_0000_0000_0000_0000
    ensures ret == Success ==>
              (DenotesDecimal(target.structs.numeric, negative, whole, part) == true)
              && target.structs == old(target.structs).(numeric := target.structs.numeric)
              && (cell != null ==> cell.value == 19)
    ensures ret != Success ==> ret == Error && stmt.errors == ["HY000"]
  {
    ghost var before := MemoryAt(target, cell);
    ret := stmt.SQLGetData(c, SqlNumeric, target, length, cell);
    DecimalRead(st, c, negative, whole, point, part, length, before, MemoryAt(target, cell));
  }
}
