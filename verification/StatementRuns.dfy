/** What holds over whole runs of calls on a statement. */
module StatementRuns {
  import opened Arithmetic
  import opened Text
  import opened Odbc
  import opened Streaming
  import opened Lookups
  import opened Statements

  // ---- The position stays inside the current row

  /** The binary worker holds the offset in a 32-bit `int`: offsets from the first limit on are
      taken for negative ones, and from the second on for others below them. */
  const MAX_INT_VALUE := 0x8000_0000
  const MAX_WRAP_VALUE := 0x1_0000_0000

  /** The longest buffer that a 32-bit length announces. */
  const MAX_LENGTH := 0x7fff_ffff

  /** The position agrees with a value: nothing read yet, part of it read, or all of it. */
  ghost predicate Agrees(s: Stream, value: string) {
    match s.status
    case NoDataRetrieved => s.offset == 0
    case HasMoreData => s.offset < |value|
    case NoMoreData => s.offset == |value| && value != ""
  }

  ghost predicate StreamOk(st: Statement) {
    if st.results.HasCell(st.stream.column) then Agrees(st.stream, st.results.Value(st.stream.column))
    else st.stream.status == NoDataRetrieved && st.stream.offset == 0
  }

  ghost predicate Inv(st: Statement) {
    st.results.Valid() && StreamOk(st)
  }

  function PositionOn(s: Stream, c: nat): nat {
    if s.column == c then s.offset else 0
  }

  /** A binary read that would start at another byte than the one the position is at. */
  predicate WrapsAt(w: Worker, value: string, s: Stream, hasTarget: bool) {
    w.Binary? && hasTarget && value != "" && Int32(s.offset) >= 0 && Int32(s.offset) != s.offset
  }

  /** A binary read whose offset is taken for a negative one. */
  predicate ThrowsAt(w: Worker, value: string, s: Stream, hasTarget: bool) {
    w.Binary? && hasTarget && value != "" && Int32(s.offset) < 0
  }

  /** One streaming read of a value that the position agrees with: it copies the next bytes,
      never past the end, and the new position agrees again. Only a binary read whose offset
      does not fit its `int` fails, or copies from where the offset wraps to. */
  lemma ReadAgrees(w: Worker, value: string, s: Stream, length: int, hasTarget: bool)
    requires Agrees(s, value) && s.status != NoMoreData
    ensures var r := ReadStream(w, value, s, length, hasTarget);
            && (r.thrown.Some? <==> ThrowsAt(w, value, s, hasTarget))
            && (r.thrown.Some? ==> r == Read(s, "", None, Some(OutOfRange)))
            && (r.thrown.None? && value != "" ==>
                  r.stream.status != NoDataRetrieved && r.reported == Some(|value| - s.offset))
            && (!WrapsAt(w, value, s, hasTarget) ==>
                  && Agrees(r.stream, value)
                  && s.offset <= r.stream.offset <= |value|
                  && r.copied == value[s.offset..r.stream.offset])
            && (WrapsAt(w, value, s, hasTarget) ==>
                  && r.copied == WrappedCopy(value, s, length)
                  && r.stream.offset == s.offset + |r.copied|
                  && (Agrees(r.stream, value) <==> s.offset + |r.copied| <= |value|))
  {
    assert value == "" || s.offset < |value|;
  }

  /** What a binary read copies when its offset wraps. */
  function WrappedCopy(value: string, s: Stream, length: int): string
    requires 0 <= Int32(s.offset) <= |value|
  {
    var start := Int32(s.offset);
    value[start..start + Take(Binary, length, |value| - start)]
  }

  /** Results with the same rows and, but for bindings, the same columns. */
  ghost predicate SameData(r: Results, next: Results) {
    && next.rows == r.rows && next.types == r.types && next.translator == r.translator
    && |next.columns| == |r.columns|
    && forall i | 0 <= i < |r.columns| ::
         next.columns[i].data == r.columns[i].data && next.columns[i].preferred == r.columns[i].preferred
  }

  lemma StepKeepsData(st: Statement, call: Call)
    requires Defined(st, [call])
    ensures SameData(st.results, Step(st, call).0.results)
  {
  }

  /** A read that reaches a streaming worker: its handler, and the position it starts from. */
  ghost predicate Reaches(st: Statement, call: Call) {
    call.GetData? && st.results.HasCell(call.column) && Selected(st.stream, call.column).status != NoMoreData
    && st.results.HandlerOf(st.results.columns[call.column - 1], call.targetType).Streams?
  }

  ghost predicate Wraps(st: Statement, call: Call) {
    Reaches(st, call)
    && var worker := st.results.HandlerOf(st.results.columns[call.column - 1], call.targetType).worker;
       WrapsAt(worker, st.results.Value(call.column), Selected(st.stream, call.column), call.hasTarget)
  }

  /** A read that wraps and copies more than is left of the value. */
  ghost predicate Overruns(st: Statement, call: Call) {
    Wraps(st, call)
    && var s, value := Selected(st.stream, call.column), st.results.Value(call.column);
       Int32(s.offset) <= |value| && s.offset + |WrappedCopy(value, s, Int32(call.length))| > |value|
  }

  /** A read that reaches its worker gives what the worker gives. */
  lemma ReachingRead(st: Statement, c: nat, targetType: SqlType, hasTarget: bool, length: int)
    requires st.results.Valid() && Reaches(st, GetData(c, targetType, hasTarget, length))
    ensures var worker := st.results.HandlerOf(st.results.columns[c - 1], targetType).worker;
            var r := ReadStream(worker, st.results.Value(c), Selected(st.stream, c), Int32(length), hasTarget);
            GetDataStep(st, c, targetType, hasTarget, length) == (st.(stream := r.stream), GetDataOutput(r))
  {
  }

  /** Every other read of a cell copies nothing and leaves the position there. */
  lemma OtherRead(st: Statement, c: nat, targetType: SqlType, hasTarget: bool, length: int)
    requires st.results.Valid() && st.results.HasCell(c) && !Reaches(st, GetData(c, targetType, hasTarget, length))
    ensures var (next, output) := GetDataStep(st, c, targetType, hasTarget, length);
            next == st.(stream := Selected(st.stream, c)) && output.copied == ""
  {
  }

  /** A read of a cell: it leaves the results alone, moves the position to that cell, and, unless
      it wraps, copies what lies between the positions before and after. */
  lemma GetDataOnCell(st: Statement, c: nat, targetType: SqlType, hasTarget: bool, length: int)
    requires Inv(st) && st.results.HasCell(c)
    ensures var call := GetData(c, targetType, hasTarget, length);
            var (next, output) := GetDataStep(st, c, targetType, hasTarget, length);
            var value := st.results.Value(c);
            && next.results == st.results && next.stream.column == c
            && (Agrees(next.stream, value) <==> !Overruns(st, call))
            && (!Wraps(st, call) ==>
                  && PositionOn(st.stream, c) <= next.stream.offset <= |value|
                  && output.copied == value[PositionOn(st.stream, c)..next.stream.offset])
  {
    var s, value := Selected(st.stream, c), st.results.Value(c);
    if Reaches(st, GetData(c, targetType, hasTarget, length)) {
      var worker := st.results.HandlerOf(st.results.columns[c - 1], targetType).worker;
      ReachingRead(st, c, targetType, hasTarget, length);
      ReadAgrees(worker, value, s, Int32(length), hasTarget);
    } else {
      OtherRead(st, c, targetType, hasTarget, length);
    }
  }

  lemma SameResultsKeepInv(st: Statement, next: Statement)
    requires Inv(st) && next.results == st.results
    requires next.results.HasCell(next.stream.column) ==>
               Agrees(next.stream, next.results.Value(next.stream.column))
    requires !next.results.HasCell(next.stream.column) ==>
               next.stream.status == NoDataRetrieved && next.stream.offset == 0
    ensures Inv(next)
  {
  }

  lemma GetDataKeepsInv(st: Statement, c: nat, targetType: SqlType, hasTarget: bool, length: int)
    requires Inv(st) && st.results.rows != []
    ensures Inv(GetDataStep(st, c, targetType, hasTarget, length).0) <==>
            !Overruns(st, GetData(c, targetType, hasTarget, length))
  {
    var next := GetDataStep(st, c, targetType, hasTarget, length).0;
    if st.results.HasCell(c) {
      GetDataOnCell(st, c, targetType, hasTarget, length);
    } else {
      SameResultsKeepInv(st, next);
    }
  }

  /** Every call keeps the invariant but for one: a binary read of a value of more than 2^32
      bytes whose offset wraps, with a buffer for more than is left of the value. */
  lemma StepKeepsInv(st: Statement, call: Call)
    requires Defined(st, [call]) && Inv(st)
    ensures Inv(Step(st, call).0) <==> !Overruns(st, call)
  {
    match call
    case GetData(c, targetType, hasTarget, length) =>
      assert call in [call];
      GetDataKeepsInv(st, c, targetType, hasTarget, length);
    case _ => StepKeepsData(st, call);
  }

  ghost predicate NeverOverruns(st: Statement, calls: seq<Call>)
    requires Defined(st, calls)
    decreases |calls|
  {
    calls == [] || (!Overruns(st, calls[0]) && NeverOverruns(FirstStep(st, calls).0, calls[1..]))
  }

  ghost predicate NeverWraps(st: Statement, calls: seq<Call>)
    requires Defined(st, calls)
    decreases |calls|
  {
    calls == [] || (!Wraps(st, calls[0]) && NeverWraps(FirstStep(st, calls).0, calls[1..]))
  }

  /** Over every run of fetches, reads, binds and unbinds, the position never passes the end
      of the tracked column's current value, and all of it is read exactly when the status
      says so. */
  lemma {:induction false} RunKeepsInv(st: Statement, calls: seq<Call>)
    requires Defined(st, calls) && Inv(st) && NeverOverruns(st, calls)
    ensures Inv(Run(st, calls).0)
    decreases |calls|
  {
    if calls != [] {
      var (next, _) := FirstStep(st, calls);
      StepKeepsInv(st, calls[0]);
      RunKeepsInv(next, calls[1..]);
    }
  }

  /** A fetch that moves the cursor establishes the invariant from any position, also one left
      over from another query. */
  lemma FetchRestores(st: Statement)
    requires st.results.Valid()
    ensures FetchStep(st).1.ret != NoData ==> Inv(FetchStep(st).0)
  {
  }

  // ---- A new query keeps the position

  /** A read of a cell with any position, also one left over from another query. It reports the
      length of the whole value exactly when nothing was delivered yet for that column; a column
      read to its end before gives no data, and a position past the end of the new value, or one
      that the binary worker's `int` takes for negative, ends the copy in an error. An empty cell
      reports null, and is called truncated where the column was read in part before. */
  lemma StaleRead(st: Statement, c: nat, targetType: SqlType, hasTarget: bool, length: int)
    requires st.results.Valid() && st.results.HasCell(c)
    requires st.results.HandlerOf(st.results.columns[c - 1], targetType).Streams?
    ensures var s, value := Selected(st.stream, c), st.results.Value(c);
            var worker := st.results.HandlerOf(st.results.columns[c - 1], targetType).worker;
            var outside := Start(worker, s.offset) < 0 || Start(worker, s.offset) > |value|;
            var output := GetDataStep(st, c, targetType, hasTarget, length).1;
            && (output.ret == NoData <==> s.status == NoMoreData)
            && (value != "" ==> (output.reported == Some(|value|) <==> s.status != NoMoreData && s.offset == 0))
            && (output.ret == Error <==>
                  s.status != NoMoreData && value != "" && Copies(worker, Int32(length), hasTarget) && outside)
            && (output.ret == Error ==> output == Answer(Error, ["HY000"]))
            && (output.ret in {Success, SuccessWithInfo} && value != "" && Copies(worker, Int32(length), hasTarget) ==>
                  var start := Start(worker, s.offset);
                  output.copied == value[start..start + Take(worker, Int32(length), |value| - start)])
            && (value == "" && s.status == NoDataRetrieved ==> output == Output(Success, [], "", Some(NULL_DATA)))
            && (value == "" && s.status == HasMoreData ==>
                  output == Output(SuccessWithInfo, ["01004"], "", Some(NULL_DATA)))
  {
  }

  /** A fetch, a read as characters, and a new query. */
  function StaleSession(c: nat, length: int, made: Results): seq<Event> {
    [Do(Fetch), Do(GetData(c, SqlChar, true, length)), Prepare(Some(made))]
  }

  /** Such a session leaves any position within the old value that fits a buffer, or its end, on
      the results of the new query. */
  lemma StaleReached(st: Statement, made: Results, c: nat, length: int)
    requires st.results.Valid() && made.Valid() && st.results.rows != [] && st.results.HasNext()
    requires st.results.Next().HasCell(c) && st.results.Next().Value(c) != "" && 2 <= length <= MAX_LENGTH
    ensures SessionDefined(st, StaleSession(c, length, made))
    ensures var value := st.results.Next().Value(c);
            Session(st, StaleSession(c, length, made)) ==
            Statement(made, if length - 1 < |value| then Stream(c, HasMoreData, length - 1)
                            else Stream(c, NoMoreData, |value|))
  {
    var fetched := Statement(st.results.Next(), FRESH);
    assert After(st, Do(Fetch)) == fetched;
    var read := After(fetched, Do(GetData(c, SqlChar, true, length)));
    SessionOfCons(read, Prepare(Some(made)), []);
    SessionOfCons(fetched, Do(GetData(c, SqlChar, true, length)), [Prepare(Some(made))] + []);
    SessionOfCons(st, Do(Fetch), [Do(GetData(c, SqlChar, true, length))] + ([Prepare(Some(made))] + []));
    assert StaleSession(c, length, made) ==
           [Do(Fetch)] + ([Do(GetData(c, SqlChar, true, length))] + ([Prepare(Some(made))] + []));
  }

  lemma SessionOfCons(st: Statement, event: Event, rest: seq<Event>)
    requires EventDefined(st, event) && SessionDefined(After(st, event), rest)
    ensures SessionDefined(st, [event] + rest)
    ensures Session(st, [event] + rest) == Session(After(st, event), rest)
  {
    assert ([event] + rest)[1..] == rest;
  }

  /** Whether the invariant is known to hold after a session: a new query leaves it open, and the
      first fetch that moves the cursor settles it. */
  ghost predicate Settled(st: Statement, events: seq<Event>, settled: bool)
    requires SessionDefined(st, events)
    decreases |events|
  {
    if events == [] then settled
    else
      var now := match events[0]
                 case Prepare(made) => settled && made.None?
                 case Do(call) => settled || (IsFetch(call) && Step(st, call).1.ret != NoData);
      Settled(After(st, events[0]), events[1..], now)
  }

  ghost predicate SessionNeverOverruns(st: Statement, events: seq<Event>)
    requires SessionDefined(st, events)
    decreases |events|
  {
    events == []
    || ((events[0].Do? ==> !Overruns(st, events[0].call))
        && SessionNeverOverruns(After(st, events[0]), events[1..]))
  }

  lemma FetchSettles(st: Statement, call: Call)
    requires Defined(st, [call]) && IsFetch(call) && Step(st, call).1.ret != NoData
    ensures Inv(Step(st, call).0)
  {
    FetchRestores(st);
  }

  /** Over every session of queries and calls, the invariant is back after the first fetch that
      moves, and stays until the next query. */
  lemma {:induction false} SessionKeepsInv(st: Statement, events: seq<Event>, settled: bool)
    requires SessionDefined(st, events) && SessionNeverOverruns(st, events)
    requires st.results.Valid() && (settled ==> Inv(st))
    ensures Settled(st, events, settled) ==> Inv(Session(st, events))
    decreases |events|
  {
    if events != [] {
      var next := After(st, events[0]);
      match events[0]
      case Prepare(made) =>
        SessionKeepsInv(next, events[1..], settled && made.None?);
      case Do(call) =>
        if settled {
          StepKeepsInv(st, call);
        }
        if IsFetch(call) && Step(st, call).1.ret != NoData {
          FetchSettles(st, call);
        }
        StepKeepsValid(st, call);
        SessionKeepsInv(next, events[1..], settled || (IsFetch(call) && Step(st, call).1.ret != NoData));
    }
  }

  lemma StepKeepsValid(st: Statement, call: Call)
    requires Defined(st, [call])
    ensures Step(st, call).0.results.Valid()
  {
  }

  // ---- Reassembly

  /** Calls that may come between the reads of one column: anything but a fetch and a read of
      another column. */
  ghost predicate StayOn(calls: seq<Call>, c: nat) {
    forall call | call in calls ::
      match call
      case GetData(column, _, _, _) => column == c
      case Fetch => false
      case FetchScroll(next) => !next
      case _ => true
  }

  function Delivered(outputs: seq<Output>): string {
    if outputs == [] then "" else outputs[0].copied + Delivered(outputs[1..])
  }

  lemma StepDelivers(st: Statement, call: Call, c: nat)
    requires Defined(st, [call]) && Inv(st) && !Wraps(st, call) && StayOn([call], c) && st.results.HasCell(c)
    ensures var (next, output) := Step(st, call);
            && Inv(next) && next.results.HasCell(c) && next.results.Value(c) == st.results.Value(c)
            && PositionOn(st.stream, c) <= PositionOn(next.stream, c) <= |st.results.Value(c)|
            && output.copied == st.results.Value(c)[PositionOn(st.stream, c)..PositionOn(next.stream, c)]
  {
    StepKeepsInv(st, call);
    assert call in [call];
    match call
    case GetData(_, targetType, hasTarget, length) => GetDataOnCell(st, c, targetType, hasTarget, length);
    case _ => StepKeepsData(st, call);
  }

  /** The chunks that a run copies concatenate to exactly the part of the value between the
      position before and the position after. */
  ghost predicate Reassembles(st: Statement, calls: seq<Call>, c: nat)
    requires Defined(st, calls) && st.results.HasCell(c)
  {
    var (last, outputs) := Run(st, calls);
    && PositionOn(st.stream, c) <= PositionOn(last.stream, c) <= |st.results.Value(c)|
    && Delivered(outputs) == st.results.Value(c)[PositionOn(st.stream, c)..PositionOn(last.stream, c)]
  }

  /** Any sequence of reads of a column, with any buffers and any mix of types, reassembles, as
      long as no binary read wraps. */
  lemma {:induction false} Reassembly(st: Statement, calls: seq<Call>, c: nat)
    requires Defined(st, calls) && Inv(st) && NeverWraps(st, calls)
    requires StayOn(calls, c) && st.results.HasCell(c)
    ensures Reassembles(st, calls, c)
    decreases |calls|
  {
    if calls != [] {
      var (next, output) := FirstStep(st, calls);
      assert calls[0] in calls && forall call | call in calls[1..] :: call in calls;
      StepDelivers(st, calls[0], c);
      Reassembly(next, calls[1..], c);
      var (last, outputs) := Run(next, calls[1..]);
      DeliveredFirst(output, outputs);
      AdjacentSlices(st.results.Value(c), PositionOn(st.stream, c), PositionOn(next.stream, c),
                     PositionOn(last.stream, c));
    }
  }

  lemma DeliveredFirst(output: Output, outputs: seq<Output>)
    ensures Delivered([output] + outputs) == output.copied + Delivered(outputs)
  {
    assert ([output] + outputs)[1..] == outputs;
  }

  lemma AdjacentSlices(s: string, a: nat, b: nat, c: nat)
    requires a <= b <= c <= |s|
    ensures s[a..b] + s[b..c] == s[a..c]
  {
  }

  /** Once all is delivered, every later read of the column gives no data, writes nothing and
      reports nothing. */
  lemma {:induction false} DrainedForGood(st: Statement, calls: seq<Call>, c: nat)
    requires Defined(st, calls) && StayOn(calls, c)
    requires st.stream.column == c && st.stream.status == NoMoreData
    ensures var (last, outputs) := Run(st, calls);
            last.stream == st.stream
            && forall i | 0 <= i < |calls| && calls[i].GetData? :: outputs[i] == Answer(NoData, [])
    decreases |calls|
  {
    if calls != [] {
      var (next, output) := FirstStep(st, calls);
      assert calls[0] in calls && forall call | call in calls[1..] :: call in calls;
      DrainedForGood(next, calls[1..], c);
    }
  }

  /** Every read of an empty cell succeeds without copying anything, however often it is asked
      for: such a column never gives no data. */
  lemma {:induction false} EmptyNeverDrains(st: Statement, calls: seq<Call>, c: nat, i: nat)
    requires Defined(st, calls) && Inv(st) && StayOn(calls, c) && st.results.HasCell(c) && st.results.Value(c) == ""
    requires i < |calls| && calls[i].GetData?
    ensures var output := Run(st, calls).1[i];
            && output.ret != NoData && output.copied == ""
            && (st.results.HandlerOf(st.results.columns[c - 1], calls[i].targetType).Streams? ==>
                  output == Output(Success, [], "", Some(NULL_DATA)))
    decreases |calls|
  {
    assert calls[0] in calls && forall call | call in calls[1..] :: call in calls;
    if i > 0 {
      StepDelivers(st, calls[0], c);
      StepKeepsData(st, calls[0]);
      EmptyNeverDrains(FirstStep(st, calls).0, calls[1..], c, i - 1);
    }
  }

  // ---- Where binary offsets do not fit

  /** Where a binary read starts: at its offset exactly while that is below 2^31, and otherwise at
      the rest that the offset leaves modulo 2^32; it fails where that rest is 2^31 or more. */
  lemma BinaryOffsetWraps(value: string, s: Stream, length: int)
    requires s.status == HasMoreData && s.offset < |value|
    ensures var r, start := ReadStream(Binary, value, s, length, true), s.offset % MAX_WRAP_VALUE;
            && (r.thrown.None? && Start(Binary, s.offset) == s.offset <==> s.offset < MAX_INT_VALUE)
            && (r.thrown == Some(OutOfRange) <==> start >= MAX_INT_VALUE)
            && (r.thrown.None? ==> r.copied == value[start..start + Take(Binary, length, |value| - start)])
  {
  }

  /** No read of a value of up to 2^32 bytes wraps. */
  lemma {:induction false} SmallNeverWraps(st: Statement, calls: seq<Call>, c: nat)
    requires Defined(st, calls) && Inv(st) && StayOn(calls, c) && st.results.HasCell(c)
    requires |st.results.Value(c)| <= MAX_WRAP_VALUE
    ensures NeverWraps(st, calls)
    decreases |calls|
  {
    if calls != [] {
      assert calls[0] in calls && forall call | call in calls[1..] :: call in calls;
      StepDelivers(st, calls[0], c);
      SmallNeverWraps(FirstStep(st, calls).0, calls[1..], c);
    }
  }

  /** A call that reads no column as binary, but for one whose values have up to 2^32 bytes. */
  ghost predicate ReadsSmall(r: Results, call: Call) {
    call.GetData? && 1 <= call.column <= |r.columns|
    && r.HandlerOf(r.columns[call.column - 1], call.targetType) == Streams(Binary) ==>
      forall row: nat | r.(row := row).HasCell(call.column) :: |r.(row := row).Value(call.column)| <= MAX_WRAP_VALUE
  }

  lemma SameDataKeepsSmall(r: Results, next: Results, call: Call)
    requires SameData(r, next) && ReadsSmall(r, call)
    ensures ReadsSmall(next, call)
  {
    if call.GetData? && 1 <= call.column <= |r.columns|
       && r.HandlerOf(r.columns[call.column - 1], call.targetType) == Streams(Binary) {
      forall row: nat | next.(row := row).HasCell(call.column)
        ensures |next.(row := row).Value(call.column)| <= MAX_WRAP_VALUE
      {
        assert r.(row := row).HasCell(call.column);
      }
    }
  }

  lemma SmallStepDoesNotWrap(st: Statement, call: Call)
    requires Defined(st, [call]) && Inv(st) && ReadsSmall(st.results, call)
    ensures !Wraps(st, call)
  {
    assert st.results.(row := st.results.row) == st.results;
  }

  /** With that limit on the values, which can be checked before the run, no read of any run
      wraps, fetches and changes of column included. */
  lemma {:induction false} SmallRunsNeverWrap(st: Statement, calls: seq<Call>)
    requires Defined(st, calls) && Inv(st) && forall call | call in calls :: ReadsSmall(st.results, call)
    ensures NeverWraps(st, calls) && NeverOverruns(st, calls)
    decreases |calls|
  {
    if calls != [] {
      var next := FirstStep(st, calls).0;
      assert calls[0] in calls;
      SmallStepDoesNotWrap(st, calls[0]);
      StepKeepsInv(st, calls[0]);
      StepKeepsData(st, calls[0]);
      forall call | call in calls[1..] ensures ReadsSmall(next.results, call) {
        assert call in calls;
        SameDataKeepsSmall(st.results, next.results, call);
      }
      SmallRunsNeverWrap(next, calls[1..]);
    }
  }

  /** Three reads as characters that bring a fresh position to 2^32, and one as binary. */
  function WrappingCalls(c: nat, length: int): seq<Call> {
    [GetData(c, SqlChar, true, MAX_LENGTH), GetData(c, SqlChar, true, MAX_LENGTH), GetData(c, SqlChar, true, 5),
     GetData(c, SqlBinary, true, length)]
  }

  /** Nothing was delivered yet for a column. */
  predicate AtStart(s: Stream, c: nat) {
    Selected(s, c).offset == 0 && Selected(s, c).status != NoMoreData
  }

  lemma CharacterRead(st: Statement, c: nat, length: int, offset: nat)
    requires st.results.Valid() && st.results.HasCell(c) && 2 <= length <= MAX_LENGTH
    requires Selected(st.stream, c).offset == offset && Selected(st.stream, c).status != NoMoreData
    requires offset + length - 1 < |st.results.Value(c)|
    ensures var (next, output) := Step(st, GetData(c, SqlChar, true, length));
            && next == Statement(st.results, Stream(c, HasMoreData, offset + length - 1))
            && output.copied == st.results.Value(c)[offset..offset + length - 1]
  {
  }

  lemma BinaryRead(st: Statement, c: nat, length: int)
    requires st.results.Valid() && st.results.HasCell(c) && st.stream == Stream(c, HasMoreData, MAX_WRAP_VALUE)
    requires |st.results.Value(c)| > MAX_WRAP_VALUE
    ensures var (next, output) := Step(st, GetData(c, SqlBinary, true, length));
            var n := Take(Binary, Int32(length), |st.results.Value(c)|);
            && next.results == st.results && next.stream.column == c && next.stream.offset == MAX_WRAP_VALUE + n
            && output.copied == st.results.Value(c)[..n]
  {
  }

  lemma RunOfCons(st: Statement, call: Call, rest: seq<Call>)
    requires Defined(st, [call] + rest)
    ensures Defined(st, [call]) && Defined(Step(st, call).0, rest)
    ensures var (last, outputs) := Run(Step(st, call).0, rest);
            Run(st, [call] + rest) == (last, [Step(st, call).1] + outputs)
  {
    assert ([call] + rest)[1..] == rest && call in [call] + rest;
    var first := FirstStep(st, [call] + rest);
  }

  /** A value of more than 2^32 bytes is not reassembled by that run: the last read delivers its
      first bytes again. */
  lemma WrappedRun(st: Statement, c: nat, length: int)
    requires st.results.Valid() && st.results.HasCell(c) && AtStart(st.stream, c)
    requires |st.results.Value(c)| > MAX_WRAP_VALUE
    ensures Defined(st, WrappingCalls(c, length)) && StayOn(WrappingCalls(c, length), c)
    ensures var (last, outputs) := Run(st, WrappingCalls(c, length));
            var value, n := st.results.Value(c), Take(Binary, Int32(length), |st.results.Value(c)|);
            && last.results == st.results && last.stream.column == c && last.stream.offset == MAX_WRAP_VALUE + n
            && Delivered(outputs) == value[..MAX_WRAP_VALUE] + value[..n]
  {
    var value, calls := st.results.Value(c), WrappingCalls(c, length);
    var st1 := Step(st, calls[0]).0;
    CharacterRead(st, c, MAX_LENGTH, 0);
    CharacterRead(st1, c, MAX_LENGTH, MAX_LENGTH - 1);
    var st2 := Step(st1, calls[1]).0;
    CharacterRead(st2, c, 5, 2 * MAX_LENGTH - 2);
    var st3 := Step(st2, calls[2]).0;
    BinaryRead(st3, c, length);
    assert calls == [calls[0]] + ([calls[1]] + ([calls[2]] + ([calls[3]] + [])));
    RunOfCons(st, calls[0], [calls[1]] + ([calls[2]] + ([calls[3]] + [])));
    RunOfCons(st1, calls[1], [calls[2]] + ([calls[3]] + []));
    RunOfCons(st2, calls[2], [calls[3]] + []);
    RunOfCons(st3, calls[3], []);
    var o0, o1, o2, o3 := Step(st, calls[0]).1, Step(st1, calls[1]).1, Step(st2, calls[2]).1, Step(st3, calls[3]).1;
    DeliveredOfFour(o0, o1, o2, o3);
    FourSlices(value, MAX_LENGTH - 1, 2 * MAX_LENGTH - 2, MAX_WRAP_VALUE, o3.copied);
  }

  lemma DeliveredOfFour(o0: Output, o1: Output, o2: Output, o3: Output)
    ensures Delivered([o0] + ([o1] + ([o2] + ([o3] + [])))) == o0.copied + (o1.copied + (o2.copied + (o3.copied + "")))
  {
    DeliveredFirst(o3, []);
    DeliveredFirst(o2, [o3] + []);
    DeliveredFirst(o1, [o2] + ([o3] + []));
    DeliveredFirst(o0, [o1] + ([o2] + ([o3] + [])));
  }

  lemma FourSlices(s: string, a: nat, b: nat, c: nat, last: string)
    requires a <= b <= c <= |s|
    ensures s[0..a] + (s[a..b] + (s[b..c] + (last + ""))) == s[..c] + last
  {
    assert s[..c] == s[0..a] + s[a..b] + s[b..c];
  }

  /** From the start of a column every run of reads reassembles, and keeps the invariant, exactly
      when the value has at most 2^32 bytes. */
  lemma BinaryLimit(st: Statement, c: nat)
    requires Inv(st) && st.results.HasCell(c) && AtStart(st.stream, c)
    ensures (forall calls | Defined(st, calls) && StayOn(calls, c) :: Reassembles(st, calls, c))
            <==> |st.results.Value(c)| <= MAX_WRAP_VALUE
    ensures (forall calls | Defined(st, calls) && StayOn(calls, c) :: Inv(Run(st, calls).0))
            <==> |st.results.Value(c)| <= MAX_WRAP_VALUE
  {
    if |st.results.Value(c)| <= MAX_WRAP_VALUE {
      forall calls | Defined(st, calls) && StayOn(calls, c)
        ensures Reassembles(st, calls, c) && Inv(Run(st, calls).0)
      {
        SmallNeverWraps(st, calls, c);
        Reassembly(st, calls, c);
        NoWrapNoOverrun(st, calls);
        RunKeepsInv(st, calls);
      }
    } else {
      WrappedRun(st, c, -1);
      var calls := WrappingCalls(c, -1);
      assert Defined(st, calls) && StayOn(calls, c);
      assert !Reassembles(st, calls, c) && !Inv(Run(st, calls).0);
    }
  }

  lemma {:induction false} NoWrapNoOverrun(st: Statement, calls: seq<Call>)
    requires Defined(st, calls) && NeverWraps(st, calls)
    ensures NeverOverruns(st, calls)
    decreases |calls|
  {
    if calls != [] {
      NoWrapNoOverrun(FirstStep(st, calls).0, calls[1..]);
    }
  }

  // ---- How many calls

  /** How much one read with this buffer length takes at most. */
  function Width(w: Worker, length: int): int {
    if w.Character? then length - 1 else length
  }

  /** What a read with this width shows when `from` bytes were delivered before it. */
  function Piece(value: string, width: nat, from: nat): Output
    requires width >= 1
  {
    if from >= |value| then Answer(NoData, [])
    else if from + width < |value| then
      Output(SuccessWithInfo, ["01004"], value[from..from + width], Some(|value| - from))
    else
      Output(Success, [], value[from..], Some(|value| - from))
  }

  /** A binary read of the rest fails from here on. */
  predicate Stops(w: Worker, value: string, from: nat) {
    w.Binary? && MAX_INT_VALUE <= from < |value|
  }

  function SeriesOutput(w: Worker, value: string, width: nat, from: nat): Output
    requires width >= 1
  {
    if Stops(w, value, from) then Answer(Error, ["HY000"]) else Piece(value, width, from)
  }

  function NextFrom(w: Worker, value: string, width: nat, from: nat): nat {
    if Stops(w, value, from) then from else from + width
  }

  function FromAfter(w: Worker, value: string, width: nat, from: nat, j: nat): nat
    decreases j
  {
    if j == 0 then from else FromAfter(w, value, width, NextFrom(w, value, width, from), j - 1)
  }

  /** The position after reads that delivered up to `from`: before the first one that copies
      anything, after some, or after the last one. */
  predicate At(s: Stream, c: nat, value: string, from: nat) {
    if from == 0 then AtStart(s, c)
    else if from < |value| then s == Stream(c, HasMoreData, from)
    else s == Stream(c, NoMoreData, |value|)
  }

  lemma SeriesRead(value: string, s: Stream, w: Worker, length: int, from: nat)
    requires value != "" && Width(w, length) >= 1 && (w.Binary? ==> from < MAX_WRAP_VALUE)
    requires from < |value| && s.offset == from && s.status != NoMoreData && (from > 0 ==> s.status == HasMoreData)
    ensures var r := ReadStream(w, value, s, length, true);
            && GetDataOutput(r) == SeriesOutput(w, value, Width(w, length), from)
            && At(r.stream, s.column, value, NextFrom(w, value, Width(w, length), from))
  {
    if Stops(w, value, from) {
      assert Int32(from) < 0;
    } else {
      assert Start(w, from) == from;
      assert Take(w, length, |value| - from) == Min(Width(w, length), |value| - from);
    }
  }

  ghost predicate SeriesCall(st: Statement, call: Call, w: Worker) {
    && st.results.Valid() && call.GetData? && call.hasTarget && st.results.HasCell(call.column)
    && st.results.HandlerOf(st.results.columns[call.column - 1], call.targetType) == Streams(w)
    && Width(w, Int32(call.length)) >= 1 && st.results.Value(call.column) != ""
  }

  function Repeat(call: Call, k: nat): (calls: seq<Call>)
    ensures |calls| == k && forall i | 0 <= i < k :: calls[i] == call
  {
    seq(k, i => call)
  }

  /** One read of the series, and the run from there on. */
  lemma SeriesStep(st: Statement, call: Call, w: Worker, from: nat, k: nat) returns (next: Statement)
    requires SeriesCall(st, call, w) && k > 0
    requires At(st.stream, call.column, st.results.Value(call.column), from)
    requires w.Binary? && from < |st.results.Value(call.column)| ==> from < MAX_WRAP_VALUE
    ensures var value, width := st.results.Value(call.column), Width(w, Int32(call.length));
            && next.results == st.results
            && At(next.stream, call.column, value, NextFrom(w, value, width, from))
            && Run(st, Repeat(call, k)).1
               == [SeriesOutput(w, value, width, from)] + Run(next, Repeat(call, k - 1)).1
  {
    var value, s := st.results.Value(call.column), Selected(st.stream, call.column);
    if from < |value| {
      SeriesRead(value, s, w, Int32(call.length), from);
    }
    assert Repeat(call, k)[1..] == Repeat(call, k - 1);
    next := FirstStep(st, Repeat(call, k)).0;
  }

  /** The j-th of equal reads shows what lies at the j-th position of the series. */
  lemma {:induction false} ReadSeries(st: Statement, call: Call, w: Worker, from: nat, k: nat, j: nat)
    requires SeriesCall(st, call, w) && j < k
    requires At(st.stream, call.column, st.results.Value(call.column), from)
    requires w.Binary? && from < |st.results.Value(call.column)| ==> from < MAX_WRAP_VALUE
    ensures var value, width := st.results.Value(call.column), Width(w, Int32(call.length));
            Run(st, Repeat(call, k)).1[j] == SeriesOutput(w, value, width, FromAfter(w, value, width, from, j))
    decreases k
  {
    var next := SeriesStep(st, call, w, from, k);
    if j > 0 {
      var value, width := st.results.Value(call.column), Width(w, Int32(call.length));
      ReadSeries(next, call, w, NextFrom(w, value, width, from), k - 1, j - 1);
    }
  }

  /** The read from which on a binary series fails. */
  function StopIndex(width: nat): nat
    requires width >= 1
  {
    CeilDiv(MAX_INT_VALUE, width)
  }

  ghost predicate Stopped(w: Worker, value: string, width: nat, j: nat)
    requires width >= 1
  {
    w.Binary? && StopIndex(width) < CeilDiv(|value|, width) && StopIndex(width) <= j
  }

  lemma StopsAt(w: Worker, value: string, width: nat, i: nat)
    requires width >= 1
    ensures Stops(w, value, i * width) <==> w.Binary? && StopIndex(width) <= i < CeilDiv(|value|, width)
  {
    CeilDivBounds(MAX_INT_VALUE, width, i);
    CeilDivBounds(|value|, width, i);
  }

  lemma {:induction false} FromAfterReads(w: Worker, value: string, width: nat, i: nat, j: nat)
    requires width >= 1 && (Stopped(w, value, width, i) ==> i == StopIndex(width))
    ensures FromAfter(w, value, width, i * width, j) ==
            (if Stopped(w, value, width, i + j) then StopIndex(width) else i + j) * width
    decreases j
  {
    if j > 0 {
      StopsAt(w, value, width, i);
      if Stops(w, value, i * width) {
        FromAfterReads(w, value, width, i, j - 1);
      } else {
        MulDistributes(i, 1, width);
        FromAfterReads(w, value, width, i + 1, j - 1);
      }
    }
  }

  /** The j-th piece is truncated, the last one, or none at all. */
  lemma PieceAnswers(value: string, width: nat, j: nat)
    requires value != "" && width >= 1
    ensures var count, ret := CeilDiv(|value|, width), Piece(value, width, j * width).ret;
            && (j + 1 < count <==> ret == SuccessWithInfo)
            && (j + 1 == count <==> ret == Success)
            && (j >= count <==> ret == NoData)
  {
    CeilDivBounds(|value|, width, j);
    CeilDivBounds(|value|, width, j + 1);
    MulDistributes(j, 1, width);
  }

  /** What a read of the series shows: an error where it is stopped, else its piece. */
  ghost predicate SeriesAnswer(w: Worker, value: string, width: nat, j: nat, output: Output)
    requires width >= 1
  {
    var count := CeilDiv(|value|, width);
    if Stopped(w, value, width, j) then output == Answer(Error, ["HY000"])
    else
      && output == Piece(value, width, j * width)
      && (j + 1 < count <==> output.ret == SuccessWithInfo)
      && (j + 1 == count <==> output.ret == Success)
      && (j >= count <==> output.ret == NoData)
  }

  lemma SeriesAnswers(w: Worker, value: string, width: nat, j: nat)
    requires value != "" && width >= 1
    ensures SeriesAnswer(w, value, width, j, SeriesOutput(w, value, width, FromAfter(w, value, width, 0, j))) == true
  {
    FirstNotStopped(w, value, width);
    FromAfterReads(w, value, width, 0, j);
    StopsAt(w, value, width, if Stopped(w, value, width, j) then StopIndex(width) else j);
    PieceAnswers(value, width, j);
  }

  /** Reading a column with one buffer throughout takes exactly ceil(L / width) calls. The j-th
      (from 0) delivers the j-th piece and reports what is left before it; all but the last say
      "truncated", the last one is a success, and the next gives no data. A binary series over a
      value with a piece at 2^31 or later fails from that piece on, and only such a one. */
  lemma CallCount(st: Statement, call: Call, w: Worker, k: nat, j: nat)
    requires SeriesCall(st, call, w) && j < k && AtStart(st.stream, call.column)
    ensures SeriesAnswer(w, st.results.Value(call.column), Width(w, Int32(call.length)), j,
                         Run(st, Repeat(call, k)).1[j]) == true
  {
    ReadSeries(st, call, w, 0, k, j);
    SeriesAnswers(w, st.results.Value(call.column), Width(w, Int32(call.length)), j);
  }

  lemma FirstNotStopped(w: Worker, value: string, width: nat)
    requires width >= 1
    ensures !Stopped(w, value, width, 0)
  {
    CeilDivBounds(MAX_INT_VALUE, width, 0);
  }

  // ---- Errors

  /** A streaming read of a cell ends in an error exactly when it is a binary read whose offset is
      taken for a negative one. */
  lemma ReadStaysInside(st: Statement, c: nat, targetType: SqlType, hasTarget: bool, length: int)
    requires Inv(st) && st.results.HasCell(c)
    requires st.results.HandlerOf(st.results.columns[c - 1], targetType).Streams?
    ensures var s, worker := Selected(st.stream, c), st.results.HandlerOf(st.results.columns[c - 1], targetType).worker;
            GetDataStep(st, c, targetType, hasTarget, length).1.ret == Error <==>
            s.status != NoMoreData && ThrowsAt(worker, st.results.Value(c), s, hasTarget)
  {
    var s, handler := Selected(st.stream, c), st.results.HandlerOf(st.results.columns[c - 1], targetType);
    if s.status != NoMoreData {
      ReadAgrees(handler.worker, st.results.Value(c), s, Int32(length), hasTarget);
    }
  }

  // ---- Typed reads beside a position

  /** A typed read that converts is a plain success exactly when the column's position is still
      at its start: after part of it was read as text it is called truncated, and after all of
      it there is no data. */
  lemma TypedReadStatus(st: Statement, c: nat, targetType: SqlType, length: int)
    requires Inv(st) && st.results.HasCell(c)
    requires var handler := st.results.HandlerOf(st.results.columns[c - 1], targetType);
             !handler.Streams? && Throws(handler, st.results.Value(c)).None?
    ensures var output := GetDataStep(st, c, targetType, true, length).1;
            && (output.ret == Success <==> Selected(st.stream, c).status == NoDataRetrieved)
            && (output.ret == SuccessWithInfo <==> Selected(st.stream, c).status == HasMoreData)
            && (output.ret == NoData <==> Selected(st.stream, c).status == NoMoreData)
  {
  }

  lemma GuardNeverFires(c: nat, columnCount: nat)
    ensures !ColumnGuard(c, columnCount)
  {
  }

  /** A column number outside the result set is never reported as 07009. It surfaces as HY000,
      unless another query left its position at the end of a column of that number: then it gives
      no data. */
  lemma BadColumn(st: Statement, c: nat, targetType: SqlType, hasTarget: bool, length: int)
    requires st.results.Valid() && st.results.rows != [] && (c == 0 || c > |st.results.columns|)
    ensures GetDataStep(st, c, targetType, hasTarget, length).1 ==
            if Selected(st.stream, c).status == NoMoreData then Answer(NoData, []) else Answer(Error, ["HY000"])
    ensures Inv(st) ==> Selected(st.stream, c).status != NoMoreData
  {
    GuardNeverFires(c, |st.results.columns|);
  }

  // ---- The cursor

  predicate IsFetch(call: Call) {
    call.Fetch? || (call.FetchScroll? && call.next)
  }

  function Fetches(calls: seq<Call>): nat {
    if calls == [] then 0 else (if IsFetch(calls[0]) then 1 else 0) + Fetches(calls[1..])
  }

  /** The rows that the fetches of a run move to, in order. */
  function Visited(st: Statement, calls: seq<Call>): seq<nat>
    requires Defined(st, calls)
    decreases |calls|
  {
    if calls == [] then []
    else
      var (next, output) := FirstStep(st, calls);
      (if IsFetch(calls[0]) && output.ret != NoData then [next.results.row] else [])
      + Visited(next, calls[1..])
  }

  function Range(from: int, to: int): seq<int> {
    if from < to then seq(to - from, i => from + i) else []
  }

  lemma FetchMoves(st: Statement, call: Call)
    requires Defined(st, [call])
    ensures var (next, output) := Step(st, call);
            && (IsFetch(call) && st.results.NextRow() < |st.results.rows| ==>
                  output.ret != NoData && next.results.row == st.results.NextRow()
                  && next.results.NextRow() == st.results.NextRow() + 1)
            && (IsFetch(call) && st.results.NextRow() == |st.results.rows| ==>
                  (next, output) == (st, Answer(NoData, [])))
            && (!IsFetch(call) ==>
                  next.results.row == st.results.row && next.results.NextRow() == st.results.NextRow())
  {
  }

  lemma RangeFromFirst(from: int, to: int)
    requires from < to
    ensures Range(from, to) == [from] + Range(from + 1, to)
  {
  }

  /** The rows visited from a next row on, as the fetches among the calls give them. */
  function Cursor(next: nat, rows: nat, calls: seq<Call>): seq<nat>
    decreases |calls|
  {
    if calls == [] then []
    else if IsFetch(calls[0]) && next < rows then [next] + Cursor(next + 1, rows, calls[1..])
    else Cursor(next, rows, calls[1..])
  }

  lemma {:induction false} CursorIsRange(next: nat, rows: nat, calls: seq<Call>)
    requires next <= rows
    ensures Cursor(next, rows, calls) == Range(next, Min(next + Fetches(calls), rows))
    decreases |calls|
  {
    if calls != [] {
      if IsFetch(calls[0]) && next < rows {
        CursorIsRange(next + 1, rows, calls[1..]);
        RangeFromFirst(next, Min(next + Fetches(calls), rows));
      } else {
        CursorIsRange(next, rows, calls[1..]);
      }
    }
  }

  /** The first call of a run, and what it visits. */
  lemma FirstVisit(st: Statement, calls: seq<Call>)
    requires Defined(st, calls) && calls != []
    ensures var next, first := FirstStep(st, calls).0, st.results.NextRow();
            var moves := IsFetch(calls[0]) && first < |st.results.rows|;
            && next.results.rows == st.results.rows
            && next.results.NextRow() == (if moves then first + 1 else first)
            && Visited(st, calls) == (if moves then [first] else []) + Visited(next, calls[1..])
  {
    assert Defined(st, [calls[0]]);
    FetchMoves(st, calls[0]);
  }

  lemma {:induction false} VisitedIsCursor(st: Statement, calls: seq<Call>)
    requires Defined(st, calls)
    ensures Visited(st, calls) == Cursor(st.results.NextRow(), |st.results.rows|, calls)
    decreases |calls|
  {
    if calls != [] {
      FirstVisit(st, calls);
      VisitedIsCursor(FirstStep(st, calls).0, calls[1..]);
    }
  }

  /** The fetches of a run visit the rows one after the other up to the last one, whatever
      else happens in between and whether or not their rows translate. */
  lemma FetchesVisitInOrder(st: Statement, calls: seq<Call>, next: nat, rows: nat)
    requires Defined(st, calls) && next == st.results.NextRow() && rows == |st.results.rows|
    ensures Visited(st, calls) == Range(next, Min(next + Fetches(calls), rows))
  {
    VisitedIsCursor(st, calls);
    CursorIsRange(next, rows, calls);
  }

  /** The rows stay, and the cursor is on the row of the last fetch. */
  lemma {:induction false} RunMovesCursor(st: Statement, calls: seq<Call>)
    requires Defined(st, calls)
    ensures var r := Run(st, calls).0.results;
            && SameData(st.results, r) && r.Valid()
            && r.NextRow() == Min(st.results.NextRow() + Fetches(calls), |st.results.rows|)
            && (st.results.gotFirst || (Fetches(calls) > 0 && st.results.NextRow() < |st.results.rows|) ==> r.gotFirst)
    decreases |calls|
  {
    if calls != [] {
      var next := FirstStep(st, calls).0;
      assert Defined(st, [calls[0]]);
      StepKeepsData(st, calls[0]);
      StepKeepsValid(st, calls[0]);
      FetchMoves(st, calls[0]);
      FetchKeepsMark(st, calls[0]);
      RunMovesCursor(next, calls[1..]);
    }
  }

  lemma FetchKeepsMark(st: Statement, call: Call)
    requires Defined(st, [call])
    ensures st.results.gotFirst ==> Step(st, call).0.results.gotFirst
    ensures IsFetch(call) && st.results.NextRow() < |st.results.rows| ==> Step(st, call).0.results.gotFirst
  {
  }

  /** The n-th fetch of any run on freshly loaded rows (n from 1, and while there are rows) makes
      the application read row n - 1: a plain column has there what was loaded for it. */
  lemma FetchedCell(st: Statement, calls: seq<Call>, c: nat)
    requires Defined(st, calls) && !st.results.gotFirst && st.results.row == 0
    requires 1 <= Fetches(calls) <= |st.results.rows| && 1 <= c <= |st.results.columns|
    requires c <= |st.results.rows[Fetches(calls) - 1]| && st.results.columns[c - 1].data == Unmodified
    ensures var r := Run(st, calls).0.results;
            r.HasCell(c) && r.Value(c) == st.results.rows[Fetches(calls) - 1][c - 1]
  {
    RunMovesCursor(st, calls);
  }

  /** Of the orientations of a fetch only the next row is served; it is served as a plain fetch. */
  lemma OnlyNextIsServed(st: Statement)
    requires st.results.Valid()
    ensures Step(st, FetchScroll(true)) == Step(st, Fetch)
    ensures Step(st, FetchScroll(false)) == (st, Answer(Error, ["HY106"]))
  {
  }

  // ---- What a binding changes

  /** A binding with a target changes the one column asked for, and unbinding all of them; nothing
      else, and nothing where the target is missing or the number is wrong. */
  lemma BindingChanges(st: Statement, c: nat, targetType: SqlType, hasTarget: bool, length: int)
    requires st.results.Valid()
    ensures var (next, output) := Step(st, BindCol(c, targetType, hasTarget, length));
            && next.stream == st.stream && next.results.(columns := []) == st.results.(columns := [])
            && |next.results.columns| == |st.results.columns|
            && (output == Answer(Success, []) <==> hasTarget && 1 <= c <= |st.results.columns|)
            && (!hasTarget ==> output == Answer(Error, []))
            && (hasTarget && !(1 <= c <= |st.results.columns|) ==> output == Answer(Error, ["HY000"]))
            && forall i | 0 <= i < |st.results.columns| ::
                 next.results.columns[i] ==
                 if output.ret == Success && i == c - 1 then
                   st.results.columns[i].(binding := Some(Binding(targetType, length)))
                 else st.results.columns[i]
  {
  }

  lemma UnbindingChanges(st: Statement)
    requires st.results.Valid()
    ensures var (next, output) := Step(st, Unbind);
            && output == Answer(Success, []) && next.stream == st.stream
            && next.results.(columns := []) == st.results.(columns := [])
            && |next.results.columns| == |st.results.columns|
            && forall i | 0 <= i < |st.results.columns| ::
                 next.results.columns[i] == st.results.columns[i].(binding := None)
  {
  }

  /** A row that is loaded restarts the cursor at the first row before any fetch, but at the
      second one after a fetch: rows are then visited again, and the first never. */
  lemma RowAddedRestarts(st: Statement, row: seq<string>, calls: seq<Call>, first: nat)
    requires Defined(Statement(RowAdded(st.results, row), st.stream), calls)
    requires first == if st.results.gotFirst then 1 else 0
    ensures Visited(Statement(RowAdded(st.results, row), st.stream), calls)
            == Range(first, Min(first + Fetches(calls), |st.results.rows| + 1))
  {
    FetchesVisitInOrder(Statement(RowAdded(st.results, row), st.stream), calls, first, |st.results.rows| + 1);
  }

  /** From the last row on, a fetch gives no data and changes nothing, for good. */
  lemma {:induction false} ExhaustedForGood(st: Statement, calls: seq<Call>)
    requires Defined(st, calls) && st.results.NextRow() == |st.results.rows|
    ensures forall i | 0 <= i < |calls| && IsFetch(calls[i]) :: Run(st, calls).1[i] == Answer(NoData, [])
    ensures Run(st, calls).0.results.row == st.results.row
    decreases |calls|
  {
    if calls != [] {
      var (next, _) := FirstStep(st, calls);
      ExhaustedForGood(next, calls[1..]);
    }
  }
}
