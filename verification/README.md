# ezRETS verification model

ezRETS is an ODBC driver over RETS, the Real Estate Transaction Standard. This project models the parts of it
that keep state, parse or calculate, and proves what they promise.

| file | what it models |
|---|---|
| `Odbc.dfy`, `Text.dfy`, `Arithmetic.dfy` | return codes, C structures and application memory; string functions; facts about products |
| `Streaming.dfy` | the position within a column, and the character and binary workers |
| `DateTimes.dfy`, `Numerics.dfy`, `Lookups.dfy` | the date, time, timestamp and numeric workers; lookup decoding |
| `Statements.dfy` | a statement as a state machine: cursor, bindings, position |
| `StatementRuns.dfy` | what holds over whole runs and sessions |
| `RetsStatement.dfy` | the classes behind a statement handle, tied to that state machine and to the application's memory |
| `BoundReads.dfy`, `ColumnReads.dfy` | applications of the statement handle: bound columns against streamed reads, and columns read piece by piece |
| `TypedReads.dfy` | what an application gets for each type that it asks for or binds |
| `MetadataViews.dfy` | lazily filled metadata indexes and the name codec `data:Resource:Class` |
| `ObjectResultSet.dfy`, `ObjectStatements.dfy` | the result set over a multipart GetObject response, and runs of a statement over it |
| `DataSources.dfy`, `IniEntries.dfy`, `DataSourceObjects.dfy` | data source settings: connection strings, the INI, and the objects themselves |
| `DoubleNul.dfy` | the two parsers of NUL-separated lists |
| `HandleTree.dfy`, `HandleObjects.dfy` | environment, connection and statement handles: the state machine over runs, and the objects that refine it |

`dafny verify dfyconfig.toml` verifies all of it.

Code that computes is modelled by functions. Code that changes objects or buffers is modelled by classes and
methods, each with a contract that gives the new state as a function of the old one; the lemmas are about those
functions. `Statements.Step` and `HandleTree.Step` are the two state machines, and their classes refine them.

A predicate compared with `true` (`P == true`) says the same as the predicate: the comparison keeps the verifier from
taking it apart where only its name is needed. A ghost parameter `watch` stands for any one bound column: being
arbitrary, it lets a contract speak of all of them.

## Where the code differs from what it says

The model follows the code.

- The guard on the column number asks for a number that is both too small and too large
  (project/driver/src/RetsSTMT.cpp:963), so a bad column is an exception and HY000, or no data (`BadColumn`).
- A streaming character read puts its NUL into the last byte of the buffer, wherever the data ends
  (project/driver/src/TranslationWorkers.cpp:383). Read as a C string the buffer is right only under the condition in
  `BoundAndStreamedAgree`.
- An empty value reports null and leaves the position at its start, so reading it again never gives no data
  (`EmptyNeverDrains`); only on a position left over from another query it does, or is called truncated (`StaleRead`).
- The binary worker keeps the offset in an `int`, so that a binary read from 2^31 on fails and one from 2^32 on
  delivers bytes again (`BinaryOffsetWraps`, `BinaryLimit`, `CallCount`). `Column::setData` takes the buffer length as
  a 32-bit integer.
- A new query keeps the old position until a fetch (project/driver/src/RetsSTMT.cpp:364): a read may then skip the start
  of the value, find no data, or fail (`StaleRead`, `StaleReached`, `SessionKeepsInv`).
- A row added after a fetch makes the cursor start over at the second row (`RowAddedRestarts`).
- A typed read of a column that was read in part as text is called truncated (`TypedReadStatus`).
- Seven bytes of a numeric are copied, so decimals of 2^56 and more lose their top byte (`DecimalDenoted`).
- The fraction of a timestamp is stored as the three digits written, not in billionths of a second (`FractionIsUnscaled`).
- A token without `=` is its own key and its own value (`TokenApplied`).
- Loading from the INI overwrites flags and fills only empty texts. Saving skips empty texts, so that an older entry
  stays where the section stays (`LoadOfSaved`, `LoadOfReconfigured`). Taking the name away while editing a data source
  removes the old section and then throws (`ConfigDsn`).
- The resolver of SQL table names checks neither the first part nor the number of parts (`MakeOfResolved`).
- Disconnecting a connection without a session succeeds even with live statements; SQLDriverConnect opens a second
  session over an open one, and a login that throws closes the one that was open. A connection string that is both cut
  short and 32768 characters or longer throws after the login: the call fails and the session stays open
  (`SQLDriverConnect`, `FailureChangesNothing`).

## Model

| member | source | states |
|---|---|---|
| `StatementRuns.RunKeepsInv` | project/driver/src/RetsSTMT.cpp:180-255 | Over every run of fetches (successful, exhausted or failing in translation), reads, binds and unbinds, the position agrees with the tracked cell: never past its end, and status `NoMoreData` exactly when all of a non-empty value was delivered. Excluded are runs with a read that overruns, which needs a value of more than 2^32 bytes read as binary (`SmallRunsNeverWrap`); there the invariant does fail (`StepKeepsInv`, `BinaryLimit`) |
| `StatementRuns.StepKeepsInv` | project/driver/src/RetsSTMT.cpp:950-1024 | A call keeps that invariant, whatever it answers, if and only if it is not a binary read from 2^32 on, with a wrapped offset, that copies more than is left of the value |
| `StatementRuns.Reassembly` | project/driver/src/TranslationWorkers.cpp:360-403 | For any sequence of reads of one column, with any buffer lengths, null targets and mixes of types, and binds and refused scrolls in between, the copied chunks concatenate to exactly the slice of the value between the positions before and after. Excluded are runs with a binary read from 2^32 on, whose offset wraps (`BinaryLimit`) |
| `StatementRuns.BinaryLimit` | project/driver/src/TranslationWorkers.cpp:454-463 | From the start of a column all runs of reads reassemble, and all keep the invariant, if and only if its value has at most 2^32 bytes |
| `StatementRuns.WrappedRun` | project/driver/src/TranslationWorkers.cpp:454-463 | For every longer value the run that shows it: three reads as characters up to 2^32 and a binary one, which delivers the first bytes again |
| `StatementRuns.SmallRunsNeverWrap` | project/driver/src/TranslationWorkers.cpp:454-463 | No run with binary reads only of columns whose values have at most 2^32 bytes has a read that wraps or overruns, fetches and changes of column included |
| `StatementRuns.GetDataOnCell` | project/driver/src/RetsSTMT.cpp:978-1000 | One read moves only the position, to the column asked for; the position then agrees with the value exactly when the read does not overrun, and unless it is a binary read from 2^32 on, whose offset wraps, it copies exactly the slice between the old and the new position |
| `StatementRuns.ReadAgrees` | project/driver/src/TranslationWorkers.cpp:373-396 | One call of a streaming worker on an agreeing position, of any size: it throws exactly when a binary offset is taken for negative, and otherwise copies the next bytes, or, where a binary offset wraps, those from the wrapped start; when the position then still agrees |
| `StatementRuns.DrainedForGood` | project/driver/src/RetsSTMT.cpp:985-989 | Once all is delivered, every later read of the column answers `SQL_NO_DATA`, copies nothing and reports nothing |
| `StatementRuns.EmptyNeverDrains` | project/driver/src/TranslationWorkers.cpp:364-368 | No read of an empty cell, in any run that stays on it, answers `SQL_NO_DATA`; as characters or binary each one succeeds and reports null |
| `StatementRuns.CallCount` | project/driver/src/TranslationWorkers.cpp:443-482 | Reading from the start with one buffer, also after reads that copied nothing, takes exactly ceil(L/width) calls (width n-1 for characters, n for binary): call j delivers piece j and reports what was left; truncated, success and no data each hold exactly where they should. A binary series with a piece at 2^31 or later answers HY000 from the first such piece on |
| `StatementRuns.ReadSeries` | project/driver/src/RetsSTMT.cpp:985-999 | The j-th of any number of equal reads, from any position of the series, shows the j-th piece from there, or HY000 once a binary series is stopped; a binary series is followed from positions below 2^32, all of those that it reaches from the start |
| `StatementRuns.ReadStaysInside` | project/driver/src/RetsSTMT.cpp:991-1018 | With the invariant a streaming read of a cell ends in an error if and only if it is a binary read that reaches its worker with an offset taken for negative |
| `StatementRuns.BinaryOffsetWraps` | project/driver/src/TranslationWorkers.cpp:454-463 | The binary worker's `int` offset: the read starts at its offset if and only if that is below 2^31; above it starts at the offset modulo 2^32, or throws where that is 2^31 or more |
| `StatementRuns.FetchRestores` | project/driver/src/RetsSTMT.cpp:203-217 | A fetch that moves the cursor establishes the invariant from any position |
| `StatementRuns.StaleRead` | project/driver/src/RetsSTMT.cpp:978-1000 | A streaming read with any position, also one left over from another query: it reports the length of the whole value if and only if nothing was delivered yet for that column, gives no data exactly on a finished position, and ends in HY000 exactly when it copies from outside the value; an empty cell reports null, with 01004 where the column was read in part before |
| `StatementRuns.StaleReached` | project/driver/src/RetsSTMT.cpp:346-380 | A fetch, a read as characters and a new query lead to every such position: within the old value after a buffer that it does not fit, at its end after one that it does |
| `StatementRuns.SessionKeepsInv` | project/driver/src/RetsSTMT.cpp:346-380 | Over any session of queries, fetches, reads, binds and unbinds the invariant is back after the first fetch that moves and stays until the next query (binary reads that overrun excluded) |
| `StatementRuns.TypedReadStatus` | project/driver/src/RetsSTMT.cpp:991-999 | A typed read that converts succeeds, is called truncated, or gives no data exactly according to the text position of its column |
| `StatementRuns.BadColumn` | project/driver/src/RetsSTMT.cpp:963-993 | A column number outside the result set is never answered with 07009: it gives `SQL_NO_DATA` where another query left a finished position at that number, and HY000 otherwise |
| `StatementRuns.FetchesVisitInOrder` | project/driver/src/ResultSet.cpp:132-182 | The fetches of any run visit the rows one by one, each once, up to the last, whether or not a row translates |
| `StatementRuns.ExhaustedForGood` | project/driver/src/ResultSet.cpp:132-142 | From the last row on every fetch answers `SQL_NO_DATA` and moves nothing |
| `StatementRuns.FetchedCell` | project/driver/src/ResultSet.cpp:144-182 | The n-th fetch of any run on freshly loaded rows leads to row n, whose plain cells are those loaded |
| `StatementRuns.BindingChanges` | project/driver/src/RetsSTMT.cpp:78-108 | What a binding answers, and that it changes the one column asked for and nothing else |
| `StatementRuns.UnbindingChanges` | project/driver/src/RetsSTMT.cpp:582-585 | Unbinding clears the binding of every column and changes nothing else |
| `StatementRuns.OnlyNextIsServed` | project/driver/src/RetsSTMT.cpp:1145-1167 | A scrolling fetch of the next row is a fetch; any other is HY106 and changes nothing |
| `StatementRuns.RowAddedRestarts` | project/driver/src/ResultSet.cpp:184-188 | After a row is added the fetches of any run start over at the first row before any fetch, but at the second one after a fetch |
| `BoundReads.BoundAndStreamedAgree` | project/driver/src/TranslationWorkers.cpp:373-402 | With a buffer longer than the value the bound path and a fresh read leave the same characters and length; the images are equal, and the streamed one is the same C string, exactly under the stated conditions on what the buffer held |
| `BoundReads.BoundWrites` | project/driver/src/utils.cpp:31-54 | The bound path writes the first min(L, n-1) characters, a NUL right after them, and nothing further |
| `BoundReads.BoundBytes` | project/driver/src/TranslationWorkers.cpp:464-479 | A bound column of bytes gets the bytes that fit and no NUL |
| `BoundReads.BoundEdges` | project/driver/src/utils.cpp:31-54 | Empty values, buffers of no and of unlimited length, and no buffer |
| `BoundReads.FetchThenRead` | project/driver/src/RetsSTMT.cpp:180-255 | At the statement handle: a fetch into a bound column and a first SQLGetData of it, both as characters with buffers longer than the value, leave the same characters and the same length |
| `BoundReads.BindFetchRead` | project/driver/src/RetsSTMT.cpp:78-108 | Binding a column to a buffer, fetching, and reading the same column into another: both buffers given hold the value of the row fetched, and both cells its length, as long as no bound column before it fails to translate |
| `BoundReads.BindColumn` | project/driver/src/RetsSTMT.cpp:78-108 | A successful binding of memory that no other column uses leaves the statement ready for a fetch into it |
| `BoundReads.FetchedHolds` | project/driver/src/ResultSet.cpp:157-181 | What a fetch leaves behind such a column is the value and its length, also where a column at or after it fails |
| `BoundReads.ReadHolds` | project/driver/src/TranslationWorkers.cpp:373-402 | What a first read leaves in such a buffer is the value and its length |
| `ColumnReads.ReadColumn` | project/driver/src/RetsSTMT.cpp:950-1024 | An application that calls SQLGetData with one buffer until no more is announced, and joins what each call leaves in the buffer, ends with the value of the cell; read as binary with a piece at 2^31 or later it ends with HY000 and all before that piece |
| `ColumnReads.ReadPiece` | project/driver/src/RetsSTMT.cpp:985-999 | One such call: the next chunk, at the start of the buffer, and where the position is then |
| `TypedReads.ReadDate` | project/driver/src/DataTranslator.cpp:46-48 | SQLGetData as a date of a text that starts with one: success, the date in the structure and nowhere else, length 10, or null for 0000-00-00 |
| `TypedReads.ReadTime` | project/driver/src/DataTranslator.cpp:54-56 | The same as a time of day, length 8 |
| `TypedReads.ReadTimestamp` | project/driver/src/DataTranslator.cpp:50-52 | The same as a timestamp, length 19 |
| `TypedReads.ReadDecimal` | project/driver/src/DataTranslator.cpp:109-111 | The same as a decimal: succeeds exactly with at most 127 places and digits below 2^64, HY000 otherwise; sign, places, the lowest seven bytes lowest first, and what the structure denotes |
| `TypedReads.DateRead` | project/driver/src/TranslationWorkers.cpp:86-129 | The whole answer and the memory of such a read, at any first read of the column, without naming its worker |
| `TypedReads.NoDateRead` | project/driver/src/TranslationWorkers.cpp:86-129 | As a date, time or timestamp: 22007 for a text without a place of that shape, null for a blank one, no structure touched |
| `TypedReads.DecimalRead` | project/driver/src/TranslationWorkers.cpp:493-637 | Answer and memory of a read as a decimal |
| `TypedReads.TextRead` | project/driver/src/DataTranslator.cpp:205-242 | Read as either type of characters, and under the character-only translator as any type but bytes: the characters that fit, a NUL in the last place, the whole length, 01004 where more is left |
| `TypedReads.BytesRead` | project/driver/src/DataTranslator.cpp:101-107 | Read as any of the three types of bytes: the bytes that fit and nothing else, the whole length, 01004 where more is left |
| `TypedReads.LengthRead` | project/driver/src/TranslationWorkers.cpp:376-396 | Asking for the length, without a target or with room for no character: nothing copied, written or moved, the whole length reported with 01004 |
| `TypedReads.UnusualBytesRead` | project/driver/src/TranslationWorkers.cpp:454-479 | Bytes into a buffer of no length, and into one of a negative length, which announces no limit |
| `TypedReads.DefaultIsPreferred` | project/driver/src/Column.cpp:185-200 | Without a type in particular the column's own type is taken |
| `TypedReads.UnknownTypeRead` | project/driver/src/DataTranslator.cpp:128-161 | A type without a worker: success with 01000 and null |
| `TypedReads.BoundAsRead` | project/driver/src/ResultSet.cpp:157-181 | A column bound to a type with a structure receives at a fetch what a first read of that type leaves |
| `TypedReads.BoundFailureIs` | project/driver/src/ResultSet.cpp:157-181 | On which values each bound type fails, and with what |
| `TypedReads.FetchFailsAtFirst` | project/driver/src/RetsSTMT.cpp:219-247 | A fetch answers for the first column from the left that fails: 22007, HY000 or 01S01, and 01S01 for a row longer than the columns |
| `TypedReads.PlainValue` | project/driver/src/ResultSet.cpp:190-217 | A plain column's value is the cell of the current row with its number |
| `Streaming.DataStreamInfo.Reset` | project/driver/src/DataStreamInfo.cpp:25-30 | The position goes back to its initial value |
| `Streaming.CopyString` | project/driver/src/utils.cpp:31-54 | Bounded copy: contents, NUL and untouched rest of the buffer, and the size returned, also for null, zero and negative (unlimited) lengths |
| `Streaming.StreamCharacter` | project/driver/src/TranslationWorkers.cpp:373-396 | The streaming branch, against `ReadStream`: buffer image with the NUL in the last byte, position, length, exception |
| `Streaming.TranslateCharacter` | project/driver/src/TranslationWorkers.cpp:360-403 | The whole character worker on the heap, with and without a position |
| `Streaming.StreamBinary` | project/driver/src/TranslationWorkers.cpp:454-479 | The streaming branch of the binary worker, with its 32-bit offset |
| `Streaming.TranslateBinary` | project/driver/src/TranslationWorkers.cpp:443-482 | The whole binary worker on the heap, with and without a position |
| `RetsStatement.Translate` | project/driver/src/DataTranslator.cpp:128-161 | Hands a value to the worker for its type; the whole effect on memory, position and exception |
| `RetsStatement.TranslateTyped` | project/driver/src/DataTranslator.cpp:128-161 | Typed workers leave the position alone; an unknown type reports null and throws |
| `RetsStatement.TranslateStreamed` | project/driver/src/DataTranslator.cpp:225-242 | Character and binary go through the streaming workers |
| `RetsStatement.Column.Bind` | project/driver/src/Column.cpp:55-64 | Stores the binding and where it points |
| `RetsStatement.Column.Unbind` | project/driver/src/Column.cpp:66-74 | Clears the binding; the column points nowhere |
| `RetsStatement.Column.SetData` | project/driver/src/Column.cpp:91-130 | Adjusts the value and translates it; the buffer length is cut to 32 bits |
| `RetsStatement.BulkResultSet.AddColumn` | project/driver/src/ResultSet.cpp:74-86 | Appends a new, unbound column that points nowhere, and keeps the others |
| `RetsStatement.BulkResultSet.AddRow` | project/driver/src/ResultSet.cpp:184-188 | Appends a row and rewinds the iterator, but not the first-row mark; the columns stay |
| `RetsStatement.BulkResultSet.HasNext` | project/driver/src/ResultSet.cpp:132-142 | Answers for the row after the current one |
| `RetsStatement.BulkResultSet.BindColumn` | project/driver/src/ResultSet.cpp:56-63 | Binds one column, which then points at the target given, or throws for a bad number; all other columns point where they did |
| `RetsStatement.BulkResultSet.UnbindColumns` | project/driver/src/ResultSet.cpp:65-72 | Unbinds every column, so that none points anywhere, and changes nothing else |
| `RetsStatement.BulkResultSet.HandOverRow` | project/driver/src/ResultSet.cpp:157-181 | Hands the row to the bound columns from left to right up to the first failure, which it throws; also then, every bound column that shares no memory with another one holds what its worker made of its cell if it was reached, and what it held before if not |
| `RetsStatement.BulkResultSet.ProcessNextRow` | project/driver/src/ResultSet.cpp:144-182 | Moves the cursor by one row, then hands that row over, with the same said of the columns' memory |
| `RetsStatement.BulkResultSet.GetData` | project/driver/src/ResultSet.cpp:190-217 | Reads a cell of the current row, or throws for a bad column |
| `RetsStatement.RetsSTMT.SQLPrepare` | project/driver/src/RetsSTMT.cpp:346-380 | Replaces the query only if one can be made, never the position |
| `RetsStatement.RetsSTMT.SQLBindCol` | project/driver/src/RetsSTMT.cpp:78-108 | State, return code and SQLSTATEs of the state machine's bind; where each column points afterwards |
| `RetsStatement.RetsSTMT.SQLGetData` | project/driver/src/RetsSTMT.cpp:950-1024 | State, return code and SQLSTATEs of the state machine's read, and what it leaves in the application's memory |
| `RetsStatement.RetsSTMT.FinishRead` | project/driver/src/RetsSTMT.cpp:991-1021 | Return code and SQLSTATE for each exception and status, and for a read that finds no more data |
| `RetsStatement.RetsSTMT.ReadSelected` | project/driver/src/RetsSTMT.cpp:985-993 | The read itself, once its column is selected: position, exception, and what it leaves in the application's memory |
| `RetsStatement.RetsSTMT.FetchRow` | project/driver/src/RetsSTMT.cpp:202-252 | Resets the position, moves the cursor also when the row fails, says what a bound column receives, fills row status and row count |
| `RetsStatement.RetsSTMT.FetchFrom` | project/driver/src/RetsSTMT.cpp:186-252 | The fetch up to its return code, with and without a next row |
| `RetsStatement.RetsSTMT.SQLFetch` | project/driver/src/RetsSTMT.cpp:180-255 | State, return code and SQLSTATEs of the state machine's fetch; what a bound column receives, row status and row count |
| `RetsStatement.RetsSTMT.SQLFetchScroll` | project/driver/src/RetsSTMT.cpp:1145-1167 | A fetch for `SQL_FETCH_NEXT`, with all that SQLFetch delivers; HY106 and no change otherwise |
| `RetsStatement.RetsSTMT.RowCodes` | project/driver/src/RetsSTMT.cpp:219-252 | Row status 0 for a success and 5 for an error, and a row count of 1 |
| `RetsStatement.RetsSTMT.UnbindColumns` | project/driver/src/RetsSTMT.cpp:582-585 | The state machine's unbind; no column points anywhere afterwards |
| `DateTimes.TranslateDate` | project/driver/src/TranslationWorkers.cpp:86-129 | Fields from the least index at which the shape matches; throws exactly when there is none and the text is not blank; 0000-00-00 is null |
| `DateTimes.TranslateTimestamp` | project/driver/src/TranslationWorkers.cpp:143-188 | The same with an optional time of day and fraction |
| `DateTimes.TranslateTime` | project/driver/src/TranslationWorkers.cpp:196-232 | The same for the time shape |
| `DateTimes.FindDate` | project/driver/src/TranslationWorkers.cpp:99-104 | The least index at which the shape matches, none exactly if there is none |
| `DateTimes.DateShape` | project/driver/src/TranslationWorkers.cpp:99-104 | The date shape character by character: eight digits and two hyphens, each in its place |
| `DateTimes.TimeShape` | project/driver/src/TranslationWorkers.cpp:207-214 | The time shape character by character |
| `DateTimes.SeparatorIsForced` | project/driver/src/TranslationWorkers.cpp:156-160 | The optional blank and `T` can be matched in one way only, so a backtracking matcher ends where the model does |
| `DateTimes.TimestampRoundTrip` | project/driver/src/TranslationWorkers.cpp:156-187 | Reading inverts formatting YYYY-MM-DDThh:mm:ss.sss |
| `DateTimes.ShortTimestampRoundTrip` | project/driver/src/TranslationWorkers.cpp:156-187 | The same without fraction, and without time of day |
| `DateTimes.FractionIsUnscaled` | project/driver/src/TranslationWorkers.cpp:178-187 | The fraction stored equals the written one in billionths of a second if and only if its digits are 000 |
| `DateTimes.DateRoundTrip` | project/driver/src/TranslationWorkers.cpp:99-128 | Reading inverts formatting a date, whatever follows it |
| `DateTimes.DateWritten` | project/driver/src/TranslationWorkers.cpp:99-128 | The text that the date round trips speak of, character by character: year, month, day |
| `DateTimes.TimeRoundTrip` | project/driver/src/TranslationWorkers.cpp:209-231 | Reading inverts formatting a time, whatever follows it |
| `Numerics.TranslateNumeric` | project/driver/src/TranslationWorkers.cpp:493-637 | Converts exactly the texts with a scale up to 127 and digits that the cast takes; sign, scale, precision, and a little-endian value equal to the integer modulo 2^56 |
| `Numerics.CopyBytes` | project/driver/src/TranslationWorkers.cpp:598-610 | Seven bytes of the integer are copied, not eight |
| `Numerics.DecimalConverts` | project/driver/src/TranslationWorkers.cpp:508-596 | A text [-]digits[.digits] converts exactly if its scale is at most 127 and its digits are below 2^64 |
| `Numerics.CastOfSigned` | project/driver/src/TranslationWorkers.cpp:585-596 | A second sign: a minus negates modulo 2^64, a plus does nothing |
| `Numerics.CastOfOther` | project/driver/src/TranslationWorkers.cpp:585-596 | Anything that is not an optional sign and digits is refused |
| `Numerics.DecimalDenoted` | project/driver/src/TranslationWorkers.cpp:508-626 | Sign, scale and value denote exactly the decimal written if and only if its digits are below 2^56 |
| `Lookups.LookupDecoder` | project/driver/src/Column.cpp:445-479 | The decoding loop against `Decoded`, which `KnownCode`, `KnownCodes` and `UnknownCode` describe |
| `Lookups.ModifyData` | project/driver/src/Column.cpp:409-421 | Which values are decoded, and where commas are dropped: a plain column keeps its data, and one with separators has no comma left |
| `Lookups.KnownCode` | project/driver/src/MetadataView.cpp:492-534 | A code known under the resource of the table, the lookup's name and itself becomes its long value |
| `Lookups.KnownCodes` | project/driver/src/Column.cpp:445-479 | A list of known codes becomes the list of their long values, field by field, as long as none has a comma |
| `Lookups.UnknownCode` | project/driver/src/MetadataView.cpp:492-534 | An unknown code, one of a table without lookup name, and one of no lookup column stay |
| `Lookups.ModifiedLookup` | project/driver/src/Column.cpp:409-421 | A lookup column delivers the long value of a known code, or the data where they come decoded |
| `Lookups.ModifiedPlain` | project/driver/src/Column.cpp:409-421 | Every other column delivers its data, with separators dropped where it has them |
| `Lookups.DecodesPositionWise` | project/driver/src/Column.cpp:454-472 | The decoded list has one field for each code, field i being the long value of code i, exactly when no long value used contains a comma |
| `Lookups.DecodesUnknownToItself` | project/driver/src/MetadataView.cpp:492-534 | With no code known decoding changes nothing |
| `MetadataViews.MetadataView.InitResources` | project/driver/src/MetadataView.cpp:48-67 | Both resource indexes hold the last resource with each name |
| `MetadataViews.MetadataView.InitClasses` | project/driver/src/MetadataView.cpp:69-99 | Both class indexes hold the last class with each name, for each resource |
| `MetadataViews.MetadataView.InitTablesForClass` | project/driver/src/MetadataView.cpp:182-211 | Loads one class: every standard name leads to a table with that standard name, every system name to one with that system name |
| `MetadataViews.LoadIsConsistent` | project/driver/src/MetadataView.cpp:182-211 | Loading a class makes its answers those of a scan and changes no other class's |
| `MetadataViews.LoadEnters` | project/driver/src/MetadataView.cpp:182-211 | After a load each name of a table leads, in its own index, to the last table of the class with that name |
| `MetadataViews.FoundTable` | project/driver/src/MetadataView.cpp:146-169 | What a scan finds, in terms of the fields standardName and systemName: the last table with the name, none exactly where no table has it |
| `MetadataViews.FoundClass` | project/driver/src/MetadataView.cpp:229-249 | The same for classes, by standardName and className |
| `MetadataViews.FoundResource` | project/driver/src/MetadataView.cpp:213-227 | The same for resources, by standardName and resourceID |
| `MetadataViews.EveryHistoryIsScan` | project/driver/src/MetadataView.cpp:146-211 | From the start, after any history of queries, every reply is what a scan of the metadata answers |
| `MetadataViews.HistoryIsScan` | project/driver/src/MetadataView.cpp:283-301 | The same from any consistent state of the indexes |
| `MetadataViews.AskIsScan` | project/driver/src/MetadataView.cpp:146-169 | One query answers as a scan does and keeps the indexes consistent |
| `MetadataViews.MetadataView.GetTableBy` | project/driver/src/MetadataView.cpp:146-169 | The last table of the class with that name in that mode, whatever was loaded before; its standard name in the one mode and its system name in the other equals the name asked for |
| `MetadataViews.MetadataView.GetTable` | project/driver/src/MetadataView.cpp:134-138 | The same in the active mode, in terms of the two name fields |
| `MetadataViews.MetadataView.GetKeyFieldTable` | project/driver/src/MetadataView.cpp:140-144 | The same by system name in either mode |
| `MetadataViews.MetadataView.GetTablesForClass` | project/driver/src/MetadataView.cpp:283-301 | The tables as the metadata lists them |
| `MetadataViews.MetadataView.GetResource` | project/driver/src/MetadataView.cpp:213-227 | What a scan of the resources finds, in terms of the two name fields |
| `MetadataViews.MetadataView.GetClass` | project/driver/src/MetadataView.cpp:229-249 | What a scan of the classes of that resource finds |
| `MetadataViews.MetadataView.GetResourceClassPairs` | project/driver/src/MetadataView.cpp:101-124 | Every class of every resource, in order |
| `MetadataViews.PairsAreAll` | project/driver/src/MetadataView.cpp:101-124 | A pair is enumerated if and only if the metadata lists the resource and, under it, the class |
| `MetadataViews.MetadataView.GetResourceClassPairBySQLTable` | project/driver/src/MetadataView.cpp:251-281 | The parts of the name, looked up by scans; the pair found has parts two and three as its names in the active mode |
| `MetadataViews.ResolveOfMake` | project/driver/src/MetadataView.cpp:411-435 | Resolving the name of an enumerated pair gives it back if and only if its names are non-empty, free of colons and not taken again later |
| `MetadataViews.UniqueNamesRoundTrip` | project/driver/src/MetadataView.cpp:251-281 | Names that are non-empty, free of colons and unique in the active mode round-trip for every enumerated pair |
| `MetadataViews.MakeOfResolved` | project/driver/src/MetadataView.cpp:411-435 | Printing a resolved pair gives the name back if and only if it has three parts and starts with `data` |
| `MetadataViews.SQLNameParts` | project/driver/src/MetadataView.cpp:411-435 | The name made for a pair is `data` and its two names in the mode, or empty where one is |
| `MetadataViews.ResolvedNames` | project/driver/src/MetadataView.cpp:251-281 | A name that resolves has three parts at least, two of them the names of the pair |
| `DataSources.RoundTrip` | project/common/src/DataSource.cpp:748-861 | Parsing a printed connection string into a fresh object gives the settings back, with switched-off credentials cleared, if and only if no string that is kept contains a semicolon |
| `DataSources.PrintOfParsed` | project/common/src/DataSource.cpp:748-861 | Printing what was parsed gives the identical string |
| `DataSources.ParseOfConcat` | project/common/src/DataSource.cpp:944-1065 | Parsing s1;s2 is parsing s1 and then s2 |
| `DataSources.LastTokenWins` | project/common/src/DataSource.cpp:944-1065 | Each field holds the value of the last token with its key; tokens with unknown keys change nothing |
| `DataSources.TokenApplied` | project/common/src/DataSource.cpp:944-955 | A token with an `=` sets the field named before the first one to what follows; a token without one sets the field it names to that name |
| `DataSources.TextToken` | project/common/src/DataSource.cpp:45-73 | Each of the 14 tokens of a text, by its literal name, sets that text |
| `DataSources.FlagToken` | project/common/src/DataSource.cpp:45-73 | Each of the 13 tokens of a flag, by its literal name, sets that flag |
| `DataSources.Credentials` | project/common/src/DataSource.cpp:960-967 | `UID=u;PWD=p` sets user and password, each to its own, and nothing else |
| `DataSources.FlagTexts` | project/common/src/DataSource.cpp:98-107 | A flag is on for `true` in any letter case, and for nothing else |
| `DataSources.FreshSettings` | project/common/src/DataSource.cpp:228-248 | Every member of a new object |
| `DataSources.TextPiece` | project/common/src/DataSource.cpp:748-846 | When a text is printed, and how |
| `DataSources.FlagPiece` | project/common/src/DataSource.cpp:748-846 | When a flag is printed, and how |
| `DataSources.PrintedInOrder` | project/common/src/DataSource.cpp:748-846 | The string is the 27 pieces one after the other, each at its literal place |
| `DataSources.PermutedTokens` | project/common/src/DataSource.cpp:944-1065 | Permuting tokens with distinct keys gives the same object |
| `DataSources.BoolRoundTrip` | project/common/src/DataSource.cpp:98-107 | Printed flags read back |
| `DataSources.NamesDiffer` | project/common/src/DataSource.cpp:45-73 | No two keys share a name |
| `DataSourceObjects.DataSource.GetConnectionString` | project/common/src/DataSource.cpp:748-846 | Appends the pieces in order |
| `DataSourceObjects.DataSource.AppendToConnectionString` | project/common/src/DataSource.cpp:848-855 | Appends `name=value;` unless the value is empty |
| `DataSourceObjects.DataSource.AppendMember` | project/common/src/DataSource.cpp:748-846 | What one member contributes, with its condition |
| `DataSourceObjects.DataSource.SetFromToken` | project/common/src/DataSource.cpp:949-1063 | One token: cut at its first `=`, or key and value both the whole token; unknown keys change nothing |
| `DataSourceObjects.DataSource.SetFromOdbcConnectionString` | project/common/src/DataSource.cpp:944-1065 | All tokens in order |
| `DataSourceObjects.DataSource.constructor` | project/common/src/DataSource.cpp:228-248 | A fresh object |
| `DataSourceObjects.DataSource.Named` | project/common/src/DataSource.cpp:250-254 | A fresh object with a name |
| `IniEntries.LoadOfSaved` | project/common/src/DataSource.cpp:264-355 | An otherwise fresh object of the same name loads every setting but the driver if and only if each text is at most 1000 characters without a NUL, and no stale entry stands where a text is empty |
| `IniEntries.FieldOfReload` | project/common/src/DataSource.cpp:264-310 | Field by field: flags come back, texts as the buffer and the C string leave them, empty texts as the stale entry |
| `IniEntries.LoadedIsFrom` | project/common/src/DataSource.cpp:272-310 | Settings are what a load gives if and only if each field with an entry is the merged one and every other field, and each one without a name, is as before |
| `IniEntries.FetchedOfStored` | project/common/src/DataSource.cpp:363-371 | A text survives storing and loading exactly when it is at most 1000 characters long and has no NUL |
| `IniEntries.LoadOfReconfigured` | project/setup/src/Setup.cpp:113-130 | After remove and create, a load gives the edited settings if and only if their texts are storable and, under a new name whose section the installer keeps, no stale entry stands where a text is empty |
| `IniEntries.WriteOneMore` | project/common/src/DataSource.cpp:312-348 | The entries written do not depend on the order of writing |
| `IniEntries.LoadedText` | project/common/src/DataSource.cpp:264-310 | An empty text is loaded from the entry with its name, up to 1000 characters; any other stays |
| `IniEntries.LoadedFlag` | project/common/src/DataSource.cpp:272-310 | A flag is loaded from its entry, or takes its default |
| `IniEntries.SavedTextEntry` | project/common/src/DataSource.cpp:312-348 | What a save leaves under the name of a text |
| `IniEntries.SavedFlag` | project/common/src/DataSource.cpp:312-348 | What it leaves under the name of a flag: `true` or `false` |
| `IniEntries.SavedOther` | project/common/src/DataSource.cpp:312-348 | Every other entry stays |
| `IniEntries.CreatedSections` | project/common/src/DataSource.cpp:350-355 | Creating names the driver in the section, and touches no other section |
| `IniEntries.NameTaken` | project/driver/src/RetsDBC.cpp:108-129 | The settings of a connection by name: the name, the credentials given, and the rest as stored |
| `DataSourceObjects.DataSource.MergeFromProfileString` | project/common/src/DataSource.cpp:264-270 | Only an empty text is loaded |
| `DataSourceObjects.DataSource.MergeFromIni` | project/common/src/DataSource.cpp:272-310 | Texts are filled where empty and flags always overwritten; nothing without a name |
| `DataSourceObjects.DataSource.PrepareByName` | project/driver/src/RetsDBC.cpp:108-129 | Settings by name: what is stored under it, with the credentials given put over it |
| `DataSourceObjects.DataSource.PrepareByString` | project/driver/src/RetsDBC.cpp:182-192 | Settings by connection string: the string parsed, then filled from the INI under the name it gives; whether that is complete, and the string printed from it |
| `DataSourceObjects.DataSource.WriteProfileString` | project/common/src/DataSource.cpp:403-419 | An empty value is not written |
| `DataSourceObjects.DataSource.WriteToIni` | project/common/src/DataSource.cpp:312-348 | All settings written over the section; throws without a name |
| `DataSourceObjects.DataSource.CreateInIni` | project/common/src/DataSource.cpp:350-355 | Registers the name, then writes |
| `DataSourceObjects.DataSource.RemoveFromIni` | project/common/src/DataSource.cpp:357-361 | Removes the section; throws without a name |
| `DataSourceObjects.ConfigDsn` | project/setup/src/Setup.cpp:113-130 | What is offered to the user, and the INI after a cancel, an edit, a rename, and an edit that takes the name away |
| `ObjectResultSet.OnDemandObjectResultSet.HasNext` | project/driver/src/OnDemandObjectResultSet.cpp:74-149 | Consumes the response up to the first part that is not skipped; row, end or error, and the row's map |
| `ObjectResultSet.OnDemandObjectResultSet.ValueOf` | project/driver/src/OnDemandObjectResultSet.cpp:160-170 | The lookup of a column's value: a column without an entry reads as empty |
| `ObjectResultSet.AnswersInOrder` | project/driver/src/OnDemandObjectResultSet.cpp:74-149 | Call i answers for the i-th part that is not 20403, and with the end from then on |
| `ObjectResultSet.DeliversAllUpToFatal` | project/driver/src/OnDemandObjectResultSet.cpp:74-149 | Exactly the parts other than 20403 arrive, in order, up to the first fatal reply code or the end |
| `ObjectResultSet.RowNames` | project/driver/src/OnDemandObjectResultSet.cpp:128-146 | The row of a part: each of the six literal column names with its own field |
| `ObjectResultSet.FatalCodes` | project/driver/src/OnDemandObjectResultSet.cpp:88-122 | Exactly the codes 20400 to 20414 other than 20403, 20404 and 20405 fail, and only 20403 is skipped |
| `ObjectStatements.ObjectColumns` | project/driver/src/OnDemandObjectQuery.cpp:104-123 | The six columns by number, and what each reads of a part |
| `ObjectStatements.QueriedColumns` | project/driver/src/OnDemandObjectQuery.cpp:104-123 | The types of the six columns of a new query, and that each reads as empty before a fetch |
| `ObjectStatements.FetchAnswersForPart` | project/driver/src/RetsSTMT.cpp:180-255 | After any run of calls on a statement over a GetObject response, the next fetch answers for the part with the number of the fetches before it: that part's row, HY000 for a fatal one with row and position untouched, no data after the last |
| `ObjectStatements.ObjectReassembles` | project/driver/src/OnDemandObjectResultSet.cpp:192-227 | After any run and a fetch that brings a part, any reads of `raw_data` copy the beginning of that part's object up to the position, and the whole object once it is drained (binary reads from 2^32 on excluded) |
| `ObjectStatements.RunConsumes` | project/driver/src/OnDemandObjectResultSet.cpp:74-112 | The parts still to come after any run are those beyond as many as there were fetches |
| `DoubleNul.Drivers2Vector` | project/installer/src/RegisterFuncs.cpp:33-49 | The pointer walk returns the strings up to the final NUL and never reads past it |
| `DoubleNul.Att2Map` | project/setup/src/Setup.cpp:153-170 | The same walk, entering each pair |
| `DoubleNul.DecodeOfEncode` | project/installer/src/RegisterFuncs.cpp:33-49 | Decoding an encoded list gives the list, whatever follows it in memory |
| `DoubleNul.EncodeOfDecode` | project/installer/src/RegisterFuncs.cpp:33-49 | Memory on which the walk ends starts with the encoding of what is decoded |
| `DoubleNul.AttributesLastWin` | project/setup/src/Setup.cpp:153-170 | The map of an encoded list has the keys of its pairs, each with the value of the last pair, cut at the first `=` |
| `DoubleNul.EncodedPair` | project/installer/src/RegisterFuncs.cpp:33-49 | A list of two strings as it stands in memory |
| `DoubleNul.PairEntered` | project/setup/src/Setup.cpp:153-170 | A pair with an `=` enters its value under its key |
| `HandleTree.EveryRunIsConsistent` | project/driver/src/RetsDBC.cpp:62-91 | In every reachable state the child lists hold exactly the live handles with that parent, each once, and every parent is live |
| `HandleTree.StepKeepsConsistent` | project/driver/src/RetsENV.cpp:69-97 | Every call keeps that invariant |
| `HandleTree.FreesEnvWithoutConnections` | project/driver/src/SQLFreeEnv.cpp:46-63 | Freeing an environment succeeds if and only if no live connection has it as parent; otherwise nothing changes |
| `HandleTree.FreesConnectionWithoutStatements` | project/driver/src/RetsENV.cpp:152-171 | Freeing a connection succeeds if and only if it has no session and no live statement; otherwise nothing changes |
| `HandleTree.DisconnectLeavesNoStatements` | project/driver/src/RetsDBC.cpp:145-170 | Disconnecting an open session succeeds if and only if no statement is live under it and the logout does not throw; a closed one always succeeds, whatever is live, and changes nothing |
| `HandleTree.FailureChangesNothing` | project/driver/src/RetsDBC.cpp:172-266 | A call that fails changes no handle if and only if it is not a SQLDriverConnect whose login throws on an open session, or is accepted on a closed one and followed by a string whose length cannot be told |
| `HandleTree.DropUndoesAllocation` | project/driver/src/RetsDBC.cpp:62-91 | Dropping a statement just allocated gives back the state before, call by call |
| `HandleTree.StatementAllocated` | project/driver/src/RetsDBC.cpp:62-91 | Allocating a statement: success, the statement is live and last in its connection's list, all else is unchanged; disconnecting the open session then fails with HY000, and dropping the statement gives back the state before |
| `HandleTree.ConnectionAllocated` | project/driver/src/RetsENV.cpp:69-97 | Allocating a connection: live, last in its environment's list, closed and without statements, all else unchanged; the environment can then not be freed, and freeing the connection gives back the state before |
| `HandleTree.EnvAllocated` | project/driver/src/SQLAllocEnv.cpp:58-80 | Allocating an environment: live, without connections, all else unchanged; freeing it gives back the state before |
| `HandleTree.NothingAllocated` | project/driver/src/RetsDBC.cpp:62-91 | Without a place for the handle or without memory nothing changes, with the codes and SQLSTATEs of each call |
| `HandleTree.LoginChanges` | project/driver/src/RetsDBC.cpp:93-143 | What each outcome of a login by name and by connection string does to the session, and its answer; nothing else changes |
| `HandleTree.DisconnectChanges` | project/driver/src/RetsDBC.cpp:145-170 | A disconnect closes that session alone, or changes nothing |
| `HandleTree.StatementDropped` | project/driver/src/RetsDBC.cpp:720-739 | Dropping takes out that statement, the others keep their order; every other option changes nothing |
| `HandleTree.ConnectionFreed` | project/driver/src/RetsENV.cpp:152-171 | Freeing takes out that connection, the others keep their order |
| `HandleTree.EnvFreed` | project/driver/src/SQLFreeEnv.cpp:46-63 | Freeing takes out that environment and nothing else |
| `HandleTree.Teardown` | project/driver/src/RetsDBC.cpp:710-739 | From every consistent state some calls, all successful, free everything |
| `HandleTree.WithoutMembers` | project/driver/src/RetsDBC.cpp:733-736 | `list::remove` on a list without duplicates takes out exactly that handle |
| `HandleObjects.Driver.AllocEnv` | project/driver/src/SQLAllocEnv.cpp:58-80 | The state machine's step on the objects |
| `HandleObjects.Driver.FreeEnv` | project/driver/src/SQLFreeEnv.cpp:46-63 | The state machine's step on the objects |
| `HandleObjects.RetsENV.SQLAllocConnect` | project/driver/src/RetsENV.cpp:69-97 | The state machine's step, return code and SQLSTATE on the objects, also for null and out of memory; the new connection is live, last in the list, and has the default settings |
| `HandleObjects.RetsENV.SQLFreeConnect` | project/driver/src/RetsENV.cpp:152-166 | The state machine's step on the objects |
| `HandleObjects.RetsDBC.SQLAllocStmt` | project/driver/src/RetsDBC.cpp:62-91 | The state machine's step, return code and SQLSTATE on the objects; the new statement is valid, has no columns, is live and last in the connection's list |
| `HandleObjects.RetsDBC.Login` | project/driver/src/RetsDBC.cpp:646-698 | An accepted login opens the session, a refused one leaves it, one that throws closes it |
| `HandleObjects.RetsDBC.OpenSession` | project/driver/src/RetsDBC.cpp:136-142 | The login of SQLConnect: 08001 and no session unless it is accepted |
| `HandleObjects.RetsDBC.SQLConnect` | project/driver/src/RetsDBC.cpp:93-143 | The state machine's step; 08002 and untouched settings on an open session; otherwise the settings are those stored under the name, with the credentials given, and 08001 follows a failed login |
| `HandleObjects.RetsDBC.SQLDriverConnect` | project/driver/src/RetsDBC.cpp:172-266 | The state machine's step; the settings are those parsed, filled from the INI; `SQL_NO_DATA` exactly while they lack URL, user or password; an open session is replaced without a question; the returned string is the one printed from the settings, with 01004 where it does not fit, and HY000 with the session open where it also is 32768 characters or longer |
| `HandleObjects.RetsDBC.ReturnString` | project/driver/src/RetsDBC.cpp:246-259 | Buffer and 16-bit length after the string is returned: whole, cut short, or too long to tell its length |
| `HandleObjects.StringAsReturned` | project/driver/src/RetsDBC.cpp:246-259 | What the caller finds in the buffer and as length: the whole string, or as much as fits, a NUL, and the whole length |
| `HandleObjects.RetsDBC.Establish` | project/driver/src/RetsDBC.cpp:233-265 | What SQLDriverConnect answers and leaves once the settings are resolved |
| `HandleObjects.RetsDBC.SQLDisconnect` | project/driver/src/RetsDBC.cpp:145-170 | The state machine's step on the objects |
| `HandleObjects.RetsDBC.SQLFreeStmt` | project/driver/src/RetsDBC.cpp:720-739 | Only the drop option takes the statement out of the list, and only the unbind option touches its columns, all of which it unbinds |
| `HandleObjects.ListsAreExact` | project/driver/src/RetsENV.cpp:69-97 | In a consistent state the objects' own lists hold exactly the live objects with them as parent |

## Left out

- The integer, decimal, double and bit workers: each is one call of `lexical_cast`. `SqlOther` stands for a type
  that no worker is registered for.
- `RetsStatement.BulkResultSet.HandOverRow`: says what a column's memory ends up as only for a column that shares no memory with another, because columns may be bound to the same buffer; the failure thrown and the cursor are stated for all. The fetches that call it say the same.
- `RetsStatement.RetsSTMT.SQLPrepare`: the SQL to DMQL compiler belongs to librets; the result set made, or the SQLSTATE of the failure, is a parameter.
- `DataSourceObjects.DataSource.GetConnectionString`: the members are kept in one table by key, so the driver's run of statements, one for each member, is a loop over the keys in the order of those statements. MergeFromIni, WriteToIni and the chain of comparisons in SetFromOdbcConnectionString are loops over the table for the same reason; the order of loading and of writing does not matter (`OneMoreLoaded`, `WriteOneMore`).
- `HandleObjects.RetsDBC.Login`: the exchange with the server is a parameter (accepted, refused, or an exception on the way).
- `DataSourceObjects.ConfigDsn`: the dialog is a parameter (accepted or not, and the settings it leaves).
- `ObjectStatements.FetchAnswersForPart`: rows of a GetObject response and the reads of them are modelled on values; what their bound columns receive is what `BulkResultSet.HandOverRow` says of one row, and is not repeated for this class.
- The memory that leaks when a handle is made but the list cannot grow.
- The INI file itself: sections are maps, entry names compare exactly, installer calls do not fail, and registering a
  name keeps or replaces its section, as the installer does. The iODBC build asks for flags in another way.
- The descriptors' bind offset and data pointer offsets: taken as unset.
- Byte layout of the C structures: a target holds its structures beside its bytes. The big-endian build.
- Regular expressions of Boost: the three shapes are matched explicitly.
- librets: HTTP, login, metadata loading and SQL compilation. Metadata is an immutable snapshot, and a GetObject response
  a finite sequence; `librets` is not part of this model.
- `OnDemandResultSet`, whose cursor is entirely librets', and `DummyResultSet`, which is always empty.
- SQLGetInfo, SQLColAttribute, SQLSetStmtAttr, catalog functions and type tables: constant switches.
- The setup dialogs, logging, and diagnostics records beyond the SQLSTATEs.
- Use of handles that were freed: calls are on live handles.
