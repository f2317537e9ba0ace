/** The handle objects themselves: environments and connections keep lists of their children and
    change them in place. What is live is tracked beside them. */
module HandleObjects {
  import opened Text
  import opened Odbc
  import opened Streaming
  import opened DataSources
  import opened IniEntries
  import opened DataSourceObjects
  import opened HandleTree
  import Statements
  import RetsStatement

  type Handles = World<RetsENV, RetsDBC, RetsSTMT>

  /** The handles that are live. A deleted object is no longer among them. */
  class Driver {
    ghost var world: Handles

    /** Every live object holds what the state machine says. */
    ghost predicate Valid()
      reads this, world.envs.Keys`connections, world.dbcs.Keys`session, world.dbcs.Keys`statements
    {
      (forall e | e in world.envs :: e.connections == world.envs[e])
      && (forall d | d in world.dbcs :: world.dbcs[d] == Connection(d.env, d.session, d.statements))
      && (forall s | s in world.stmts :: world.stmts[s] == s.dbc)
    }

    constructor ()
      ensures Valid() == true && world == EmptyWorld()
    {
      world := EmptyWorld();
    }

    /** An environment is allocated without a parent. */
    method AllocEnv(wanted: bool, memory: bool) returns (code: ReturnCode, made: Option<RetsENV>)
      requires Valid()
      modifies this
      ensures Valid() == true && made.Some? == (wanted && memory)
      ensures made.Some? ==> fresh(made.value) && made.value in world.envs && made.value.connections == []
      ensures Legal(old(world), Call.AllocEnv(wanted, made))
      ensures (world, code) == Told(Step(old(world), Call.AllocEnv(wanted, made)))
    {
      made := None;
      if !wanted {
        return InvalidHandle, None;
      }
      if !memory {
        return Error, None;
      }
      var env := new RetsENV();
      made := Some(env);
      world := AddEnv(world, env);
      code := Success;
    }

    /** The guarded delete at the root of the tree. */
    method FreeEnv(env: Option<RetsENV>) returns (code: ReturnCode)
      requires Valid() && Legal(world, Call.FreeEnv(env))
      modifies this
      ensures Valid() == true
      ensures (world, code) == Told(Step(old(world), Call.FreeEnv(env)))
    {
      if env.None? {
        return InvalidHandle;
      }
      var free := env.value.CanBeFreed();
      if !free {
        return Error;
      }
      world := DropEnv(world, env.value);
      return Success;
    }
  }

  /** A call led from one state to the next, with a return code and some errors recorded. */
  ghost predicate Follows(before: Handles, call: Call<RetsENV, RetsDBC, RetsSTMT>, after: Handles, code: ReturnCode,
                          errors: seq<string>)
    requires Legal(before, call)
  {
    var (world, reply) := Step(before, call);
    after == world && code == reply.code && LastState(errors) == reply.state
  }

  /** The state and the return code of a step. */
  ghost function Told(result: (Handles, Reply)): (Handles, ReturnCode) {
    (result.0, result.1.code)
  }

  /** The SQLSTATE of the last error recorded. */
  function LastState(errors: seq<string>): Option<string> {
    if errors == [] then None else Some(errors[|errors| - 1])
  }

  /** How much of a text the bounded copy writes; nothing without a buffer. */
  function WrittenLength(text: string, hasBuffer: bool, bufferLength: int): nat {
    if hasBuffer then BoundCount(Character, text, bufferLength) else 0
  }

  /** The buffer after that: what is copied, a NUL, and the rest as it was. */
  function WrittenImage(before: seq<char>, text: string, bufferLength: int): seq<char>
    requires if bufferLength < 0 then |text| < |before| else bufferLength <= |before|
  {
    var n := BoundCount(Character, text, bufferLength);
    if bufferLength == 0 then before else text[..n] + ['\0'] + before[n + 1..]
  }

  /** A length is told in 16 bits; a text cut short that is longer than that throws. */
  function Fit(text: string, hasBuffer: bool, bufferLength: int): Returned {
    if |text| <= WrittenLength(text, hasBuffer, bufferLength) then Whole
    else if |text| >= 0x8000 then TooLong
    else Truncated
  }

  /** What the caller of SQLDriverConnect with a buffer finds after an accepted login: a string that
      is shorter than the buffer, whole; and of a longer one what fits, a NUL in the last place,
      and its whole length, unless that is beyond 16 bits. */
  lemma StringAsReturned(text: string, bufferLength: int, before: seq<char>, after: Option<seq<char>>,
                         lengthBefore: int, lengthAfter: Option<int>)
    requires 1 <= bufferLength <= |before|
    requires StringReturned(text, true, true, bufferLength, Some(before), after, Some(lengthBefore), lengthAfter)
    ensures after.Some? && |after.value| == |before|
    ensures |text| < bufferLength ==>
              Fit(text, true, bufferLength) == Whole
              && after.value[..|text|] == text && after.value[|text|] == '\0'
              && (|text| < 0x8000 ==> lengthAfter == Some(|text|))
    ensures |text| >= bufferLength ==>
              Fit(text, true, bufferLength) == (if |text| < 0x8000 then Truncated else TooLong)
              && after.value[..bufferLength - 1] == text[..bufferLength - 1] && after.value[bufferLength - 1] == '\0'
              && (|text| < 0x8000 ==> lengthAfter == Some(|text|))
  {
  }

  /** Without a buffer, or with one of no length, nothing is written, and any text but the empty one
      counts as cut short. */
  lemma NothingReturned(text: string, hasBuffer: bool, bufferLength: int)
    requires !hasBuffer || bufferLength == 0
    ensures Fit(text, hasBuffer, bufferLength) ==
            if text == "" then Whole else if |text| < 0x8000 then Truncated else TooLong
  {
  }

  /** What a buffer and a length hold; nothing for null pointers. */
  ghost function CharsAt(out: array?<char>): Option<seq<char>>
    reads out
  {
    if out == null then None else Some(out[..])
  }

  ghost function IntAt(cell: Cell?): Option<int>
    reads cell
  {
    if cell == null then None else Some(cell.value)
  }

  /** Buffer and length after the connection string is returned, or not where none is. */
  ghost predicate StringReturned(text: string, connected: bool, hasBuffer: bool, bufferLength: int,
                                 before: Option<seq<char>>, after: Option<seq<char>>,
                                 lengthBefore: Option<int>, lengthAfter: Option<int>)
  {
    if !connected then after == before && lengthAfter == lengthBefore
    else
      && (hasBuffer ==>
            && before.Some?
            && (if bufferLength < 0 then |text| < |before.value| else bufferLength <= |before.value|)
            && after == Some(WrittenImage(before.value, text, bufferLength)))
      && lengthAfter == if lengthBefore.None? then None
                        else if Fit(text, hasBuffer, bufferLength) == Truncated then Some(|text|)
                        else Some(Int16(WrittenLength(text, hasBuffer, bufferLength)))
  }

  function ConnectReply(complete: bool, connected: bool, returned: Returned): Reply {
    if !complete then Reply(NoData, None)
    else if !connected then Reply(Error, Some("08001"))
    else
      match returned
      case Whole => Reply(Success, None)
      case Truncated => Reply(SuccessWithInfo, Some("01004"))
      case TooLong => Reply(Error, Some("HY000"))
  }

  lemma ConnectFollows(before: Handles, dbc: RetsDBC, complete: bool, outcome: Login, returned: Returned,
                       after: Handles, code: ReturnCode, errors: seq<string>)
    requires dbc in before.dbcs
    requires after == if complete then LoggedIn(before, dbc, outcome) else before
    requires Reply(code, LastState(errors)) == ConnectReply(complete, complete && outcome == Accepted, returned)
    ensures Follows(before, DriverConnect(dbc, complete, outcome, returned), after, code, errors) == true
  {
  }

  /** What SQLDriverConnect answers and leaves, given the settings it resolved. */
  ghost predicate Established(before: Handles, dbc: RetsDBC, complete: bool, connection: string, hasBuffer: bool,
                              bufferLength: int, outcome: Login, after: Handles, code: ReturnCode, errors: seq<string>,
                              chars: Option<seq<char>>, chars': Option<seq<char>>, length: Option<int>,
                              length': Option<int>)
  {
    && dbc in before.dbcs
    && Follows(before, DriverConnect(dbc, complete, outcome, Fit(connection, hasBuffer, bufferLength)), after, code,
               errors)
    && StringReturned(connection, complete && outcome == Accepted, hasBuffer, bufferLength, chars, chars', length,
                      length')
  }

  lemma IsEstablished(before: Handles, dbc: RetsDBC, complete: bool, connection: string, hasBuffer: bool,
                      bufferLength: int, outcome: Login, after: Handles, code: ReturnCode, errors: seq<string>,
                      chars: Option<seq<char>>, chars': Option<seq<char>>, length: Option<int>, length': Option<int>)
    requires dbc in before.dbcs
    requires Follows(before, DriverConnect(dbc, complete, outcome, Fit(connection, hasBuffer, bufferLength)), after,
                     code, errors) == true
    requires StringReturned(connection, complete && outcome == Accepted, hasBuffer, bufferLength, chars, chars',
                            length, length') == true
    ensures Established(before, dbc, complete, connection, hasBuffer, bufferLength, outcome, after, code, errors,
                        chars, chars', length, length') == true
  {
  }

  /** A buffer of that size has the length announced, or, without a limit, room for the connection
      string that is returned. */
  ghost predicate RoomFor(size: nat, bufferLength: int, before: Settings, sections: Sections, text: string) {
    && bufferLength <= size
    && (bufferLength < 0 ==>
          forall after, complete, connection :: TookString(before, after, sections, text, complete, connection) ==>
                                                  |connection| < size)
  }

  lemma RoomForString(out: array<char>, bufferLength: int, before: Settings, sections: Sections, text: string,
                      after: Settings, complete: bool, connection: string)
    requires RoomFor(out.Length, bufferLength, before, sections, text) == true
    requires TookString(before, after, sections, text, complete, connection) == true
    ensures HasRoom(out, bufferLength, connection) == true
  {
  }

  class RetsSTMT {
    const dbc: RetsDBC
    const statement: RetsStatement.RetsSTMT

    constructor (dbc: RetsDBC)
      ensures this.dbc == dbc && fresh(statement) && fresh(statement.resultSet) && fresh(statement.dataStreamInfo)
      ensures IsBlank(statement) == true
    {
      this.dbc := dbc;
      var results := new RetsStatement.BulkResultSet(Statements.CharOnly, map[]);
      statement := new RetsStatement.RetsSTMT(results);
    }
  }

  /** A valid statement without columns. */
  ghost predicate IsBlank(stmt: RetsStatement.RetsSTMT)
    reads stmt`resultSet, stmt.resultSet, stmt.resultSet.columns
  {
    stmt.Valid() && stmt.resultSet.columns == []
  }

  /** No column points anywhere. */
  ghost predicate Unpointed(stmt: RetsStatement.RetsSTMT)
    reads stmt`resultSet, stmt.resultSet`columns, stmt.resultSet.columns
  {
    forall k | 0 <= k < |stmt.resultSet.columns| :: stmt.resultSet.columns[k].Pointing() == RetsStatement.NOWHERE
  }

  class RetsENV {
    var connections: seq<RetsDBC>
    var errors: seq<string>

    constructor ()
      ensures connections == [] && errors == []
    {
      connections, errors := [], [];
    }

    method CanBeFreed() returns (free: bool)
      ensures free == (connections == [])
    {
      free := connections == [];
    }

    method Adopt(ghost driver: Driver, dbc: RetsDBC)
      requires driver.Valid() && this in driver.world.envs && dbc !in driver.world.dbcs
      requires dbc.env == this && !dbc.session && dbc.statements == []
      modifies this`connections, driver
      ensures driver.Valid() == true && driver.world == AddConnection(old(driver.world), this, dbc)
      ensures connections == old(connections) + [dbc]
    {
      connections := connections + [dbc];
      driver.world := AddConnection(driver.world, this, dbc);
    }

    method SQLAllocConnect(ghost driver: Driver, wanted: bool, memory: bool)
      returns (code: ReturnCode, made: Option<RetsDBC>)
      requires driver.Valid() && this in driver.world.envs
      modifies this, driver
      ensures driver.Valid() == true && made.Some? == (wanted && memory)
      ensures made.Some? ==> fresh(made.value) && made.value.env == this
      ensures made.Some? ==> made.value in driver.world.dbcs && connections == old(connections) + [made.value]
      ensures made.Some? ==> fresh(made.value.dataSource) && made.value.dataSource.members == DataSources.FRESH
      ensures Legal(old(driver.world), AllocConnect(this, wanted, made))
      ensures Follows(old(driver.world), AllocConnect(this, wanted, made), driver.world, code, errors) == true
    {
      errors, made := [], None;
      if !wanted {
        errors := ["HY009"];
        return InvalidHandle, None;
      }
      if !memory {
        errors := ["HY013"];
        return Error, None;
      }
      var dbc := new RetsDBC(this);
      made := Some(dbc);
      Adopt(driver, dbc);
      code := Success;
    }

    method SQLFreeConnect(ghost driver: Driver, dbc: RetsDBC) returns (code: ReturnCode)
      requires driver.Valid() && dbc in driver.world.dbcs && dbc.env == this && this in driver.world.envs
      modifies this, driver
      ensures driver.Valid() == true
      ensures Follows(old(driver.world), FreeConnect(dbc), driver.world, code, errors) == true
    {
      errors := [];
      var free := dbc.CanBeFreed();
      if !free {
        return Error;
      }
      connections := Without(connections, dbc);
      driver.world := DropConnection(driver.world, dbc);
      return Success;
    }
  }

  class RetsDBC {
    const env: RetsENV
    const dataSource: DataSource
    var session: bool
    var statements: seq<RetsSTMT>
    var errors: seq<string>

    constructor (env: RetsENV)
      ensures this.env == env && !session && statements == [] && errors == []
      ensures fresh(dataSource) && dataSource.members == DataSources.FRESH
    {
      this.env, session, statements, errors := env, false, [], [];
      dataSource := new DataSource();
    }

    method CanBeFreed() returns (free: bool)
      ensures free == (!session && statements == [])
    {
      free := !session && statements == [];
    }

    method Adopt(ghost driver: Driver, stmt: RetsSTMT)
      requires driver.Valid() && this in driver.world.dbcs && stmt.dbc == this && stmt !in driver.world.stmts
      modifies this`statements, driver
      ensures driver.Valid() == true && driver.world == AddStatement(old(driver.world), this, stmt)
      ensures statements == old(statements) + [stmt]
    {
      statements := statements + [stmt];
      driver.world := AddStatement(driver.world, this, stmt);
    }

    method SQLAllocStmt(ghost driver: Driver, wanted: bool, memory: bool)
      returns (code: ReturnCode, made: Option<RetsSTMT>)
      requires driver.Valid() && this in driver.world.dbcs
      modifies this, driver
      ensures driver.Valid() == true && made.Some? == (wanted && memory)
      ensures made.Some? ==> fresh(made.value) && made.value.dbc == this
      ensures made.Some? ==> fresh(made.value.statement) && fresh(made.value.statement.dataStreamInfo)
      ensures made.Some? ==> (IsBlank(made.value.statement) == true)
      ensures made.Some? ==>
                made.value in driver.world.stmts && driver.world.stmts[made.value] == this
                && statements == old(statements) + [made.value]
      ensures Legal(old(driver.world), AllocStmt(this, wanted, made))
      ensures Follows(old(driver.world), AllocStmt(this, wanted, made), driver.world, code, errors) == true
    {
      errors, made := [], None;
      if !wanted {
        errors := ["HY009"];
        return InvalidHandle, None;
      }
      if !memory {
        errors := ["HY013"];
        return Error, None;
      }
      var stmt := NewStatement(driver);
      return Success, Some(stmt);
    }

    method NewStatement(ghost driver: Driver) returns (stmt: RetsSTMT)
      requires driver.Valid() && this in driver.world.dbcs
      modifies this`statements, driver
      ensures driver.Valid() == true && fresh(stmt) && stmt.dbc == this && stmt !in old(driver.world).stmts
      ensures stmt in driver.world.stmts && driver.world.stmts[stmt] == this && statements == old(statements) + [stmt]
      ensures fresh(stmt.statement) && fresh(stmt.statement.dataStreamInfo) && (IsBlank(stmt.statement) == true)
      ensures driver.world == AddStatement(old(driver.world), this, stmt)
    {
      stmt := new RetsSTMT(this);
      Adopt(driver, stmt);
    }

    /** `outcome` is how the exchange with the server ends. */
    method Login(ghost driver: Driver, outcome: Login) returns (success: bool)
      requires driver.Valid() && this in driver.world.dbcs
      modifies this`session, this`errors, driver
      ensures driver.Valid() == true && driver.world == LoggedIn(old(driver.world), this, outcome)
      ensures success == (outcome == Accepted)
      ensures outcome != Threw ==> errors == old(errors)
    {
      match outcome {
        case Accepted => session := true;
        case Refused =>
        case Threw =>
          errors := errors + ["08001"];
          session := false;
      }
      driver.world := LoggedIn(driver.world, this, outcome);
      success := outcome == Accepted;
    }

    /** The login of SQLConnect, with no session open. */
    method OpenSession(ghost driver: Driver, outcome: Login) returns (code: ReturnCode)
      requires driver.Valid() && this in driver.world.dbcs && !session && errors == []
      modifies this`session, this`errors, driver
      ensures driver.Valid() == true
      ensures Follows(old(driver.world), Connect(this, outcome), driver.world, code, errors) == true
    {
      var success := Login(driver, outcome);
      if !success {
        errors := errors + ["08001"];
        return Error;
      }
      return Success;
    }

    method TakeName(ghost driver: Driver, ini: Ini, name: string, user: Option<string>, password: Option<string>)
      requires driver.Valid()
      modifies dataSource`members
      ensures driver.Valid() == true
      ensures TookName(old(dataSource.members), dataSource.members, ini.sections, name, user, password) == true
    {
      dataSource.PrepareByName(ini, name, user, password);
    }

    /** Takes what is stored under the name and the credentials given, and logs in. */
    method SQLConnect(ghost driver: Driver, ini: Ini, name: string, user: Option<string>, password: Option<string>,
                      outcome: Login)
      returns (code: ReturnCode)
      requires driver.Valid() && this in driver.world.dbcs
      modifies this`session, this`errors, driver, dataSource`members
      ensures driver.Valid() == true
      ensures Follows(old(driver.world), Connect(this, outcome), driver.world, code, errors) == true
      ensures if old(session) then dataSource.members == old(dataSource.members)
              else TookName(old(dataSource.members), dataSource.members, ini.sections, name, user, password) == true
    {
      errors := [];
      if session {
        errors := ["08002"];
        return Error;
      }
      TakeName(driver, ini, name, user, password);
      code := OpenSession(driver, outcome);
    }

    /** Writes the connection string where the caller asked for it. */
    method ReturnString(text: string, out: array?<char>, bufferLength: int, outLength: Cell?)
      returns (returned: Returned)
      requires out != null ==> HasRoom(out, bufferLength, text)
      modifies out, outLength
      ensures returned == Fit(text, out != null, bufferLength)
      ensures true == StringReturned(text, true, out != null, bufferLength, old(CharsAt(out)), CharsAt(out),
                                     old(IntAt(outLength)), IntAt(outLength))
    {
      var size := CopyString(text, out, bufferLength);
      SetResultSize(outLength, Int16(size));
      returned := Whole;
      if |text| > size {
        if |text| >= 0x8000 {
          return TooLong;
        }
        SetResultSize(outLength, |text|);
        returned := Truncated;
      }
    }

    /** The login of SQLDriverConnect. An open session is no obstacle. */
    method LoginIfComplete(ghost driver: Driver, complete: bool, outcome: Login) returns (connected: bool)
      requires driver.Valid() && this in driver.world.dbcs
      modifies this`session, this`errors, driver
      ensures driver.Valid() == true
      ensures driver.world == if complete then LoggedIn(old(driver.world), this, outcome) else old(driver.world)
      ensures connected == (complete && outcome == Accepted)
      ensures complete == connected ==> errors == old(errors)
    {
      connected := false;
      if complete {
        connected := Login(driver, outcome);
      }
    }

    /** The return code and the errors of SQLDriverConnect; nothing else changes. */
    method AnswerConnect(ghost driver: Driver, complete: bool, connected: bool, returned: Returned)
      returns (code: ReturnCode)
      requires driver.Valid() && (connected ==> complete) && (complete == connected ==> errors == [])
      modifies this`errors
      ensures driver.Valid() == true && driver.world == old(driver.world)
      ensures Reply(code, LastState(errors)) == ConnectReply(complete, connected, returned)
    {
      if !complete {
        return NoData;
      }
      if !connected {
        errors := errors + ["08001"];
        return Error;
      }
      match returned
      case Whole => return Success;
      case Truncated =>
        errors := ["01004"];
        return SuccessWithInfo;
      case TooLong =>
        errors := ["01004", "HY000"];
        return Error;
    }

    /** The rest of SQLDriverConnect, once the settings are complete or known not to be. */
    method Establish(ghost driver: Driver, complete: bool, connection: string, out: array?<char>, bufferLength: int,
                     outLength: Cell?, outcome: Login, ghost before: Handles, ghost chars: Option<seq<char>>,
                     ghost length: Option<int>)
      returns (code: ReturnCode)
      requires driver.Valid() && this in driver.world.dbcs && driver.world == before && errors == []
      requires CharsAt(out) == chars && IntAt(outLength) == length
      requires out != null ==> HasRoom(out, bufferLength, connection)
      modifies this`session, this`errors, driver, out, outLength
      ensures driver.Valid() == true
      ensures true == Established(before, this, complete, connection, out != null, bufferLength, outcome, driver.world,
                                  code, errors, chars, CharsAt(out), length, IntAt(outLength))
    {
      var connected := LoginIfComplete(driver, complete, outcome);
      var returned := Fit(connection, out != null, bufferLength);
      if connected {
        returned := ReturnString(connection, out, bufferLength, outLength);
      }
      code := AnswerConnect(driver, complete, connected, returned);
      ConnectFollows(before, this, complete, outcome, returned, driver.world, code, errors);
      IsEstablished(before, this, complete, connection, out != null, bufferLength, outcome, driver.world, code, errors,
                    chars, CharsAt(out), length, IntAt(outLength));
    }

    method ForgetErrors(ghost driver: Driver)
      requires driver.Valid()
      modifies this`errors
      ensures driver.Valid() == true && errors == []
    {
      errors := [];
    }

    /** Changes the settings alone. */
    method TakeString(ghost driver: Driver, ini: Ini, text: string, ghost out: array?<char>, ghost bufferLength: int)
      returns (complete: bool, connection: string)
      requires driver.Valid()
      requires out != null ==> (RoomFor(out.Length, bufferLength, dataSource.members, ini.sections, text) == true)
      modifies dataSource`members
      ensures driver.Valid() == true
      ensures out != null ==> HasRoom(out, bufferLength, connection) == true
      ensures TookString(old(dataSource.members), dataSource.members, ini.sections, text, complete, connection) == true
    {
      ghost var before := dataSource.members;
      complete, connection := dataSource.PrepareByString(ini, text);
      if out != null {
        RoomForString(out, bufferLength, before, ini.sections, text, dataSource.members, complete, connection);
      }
    }

    /** Takes the connection string `text`, logs in, and returns the string that names what was
        connected to. */
    method SQLDriverConnect(ghost driver: Driver, ini: Ini, text: string, out: array?<char>, bufferLength: int,
                            outLength: Cell?, outcome: Login)
      returns (code: ReturnCode, ghost complete: bool, ghost connection: string)
      requires driver.Valid() && this in driver.world.dbcs
      requires out != null ==> (RoomFor(out.Length, bufferLength, dataSource.members, ini.sections, text) == true)
      modifies this`session, this`errors, driver, dataSource`members, out, outLength
      ensures driver.Valid() == true
      ensures true == TookString(old(dataSource.members), dataSource.members, old(ini.sections), text, complete,
                                 connection)
      ensures true == Established(old(driver.world), this, complete, connection, out != null, bufferLength, outcome,
                                  driver.world, code, errors, old(CharsAt(out)), CharsAt(out), old(IntAt(outLength)),
                                  IntAt(outLength))
    {
      ghost var before, chars, length := driver.world, CharsAt(out), IntAt(outLength);
      ForgetErrors(driver);
      var isComplete, ownString := TakeString(driver, ini, text, out, bufferLength);
      complete, connection := isComplete, ownString;
      code := Establish(driver, isComplete, ownString, out, bufferLength, outLength, outcome, before, chars, length);
    }

    method SQLDisconnect(ghost driver: Driver, logoutThrows: bool) returns (code: ReturnCode)
      requires driver.Valid() && this in driver.world.dbcs
      modifies this`session, this`errors, driver
      ensures driver.Valid() == true
      ensures Follows(old(driver.world), Disconnect(this, logoutThrows), driver.world, code, errors) == true
    {
      errors := [];
      if !session {
        return Success;
      }
      if statements != [] {
        errors := ["HY000"];
        return Error;
      }
      if logoutThrows {
        errors := ["HY000"];
        return Error;
      }
      CloseSession(driver);
      return Success;
    }

    method CloseSession(ghost driver: Driver)
      requires driver.Valid() && this in driver.world.dbcs
      modifies this`session, driver
      ensures driver.Valid() == true && driver.world == Session(old(driver.world), this, false)
    {
      session := false;
      driver.world := Session(driver.world, this, false);
    }

    method Abandon(ghost driver: Driver, stmt: RetsSTMT)
      requires driver.Valid() && stmt in driver.world.stmts && stmt.dbc == this && this in driver.world.dbcs
      modifies this`statements, driver
      ensures driver.Valid() == true && driver.world == DropStatement(old(driver.world), stmt)
    {
      statements := Without(statements, stmt);
      driver.world := DropStatement(driver.world, stmt);
    }

    /** What SQLFreeStmt does to the handles. */
    method Release(ghost driver: Driver, stmt: RetsSTMT, option: FreeOption) returns (code: ReturnCode)
      requires driver.Valid() && stmt in driver.world.stmts && stmt.dbc == this && this in driver.world.dbcs
      modifies this`statements, this`errors, driver
      ensures driver.Valid() == true
      ensures Follows(old(driver.world), FreeStmt(stmt, option), driver.world, code, errors) == true
    {
      errors := [];
      if option == Drop {
        Abandon(driver, stmt);
      }
      return Success;
    }

    method UnbindStatement(ghost driver: Driver, stmt: RetsSTMT)
      requires driver.Valid() && stmt.statement.Valid()
      modifies stmt.statement.resultSet.columns
      ensures driver.Valid() == true && stmt.statement.Valid()
      ensures stmt.statement.View() == Statements.Step(old(stmt.statement.View()), Statements.Call.Unbind).0
      ensures Unpointed(stmt.statement) == true
    {
      stmt.statement.UnbindColumns();
    }

    method SQLFreeStmt(ghost driver: Driver, stmt: RetsSTMT, option: FreeOption) returns (code: ReturnCode)
      requires driver.Valid() && stmt in driver.world.stmts && stmt.dbc == this && this in driver.world.dbcs
      requires stmt.statement.Valid()
      modifies this`statements, this`errors, driver, stmt.statement.resultSet.columns
      ensures driver.Valid() == true
      ensures Follows(old(driver.world), FreeStmt(stmt, option), driver.world, code, errors) == true
      ensures stmt.statement.Valid() && stmt.statement.resultSet == old(stmt.statement.resultSet)
      ensures option == Unbind ==> (Unpointed(stmt.statement) == true)
      ensures stmt.statement.View() ==
              if option == Unbind then Statements.Step(old(stmt.statement.View()), Statements.Call.Unbind).0
              else old(stmt.statement.View())
    {
      if option == Unbind {
        UnbindStatement(driver, stmt);
      }
      code := Release(driver, stmt, option);
    }
  }

  /** In a consistent state, which every run of calls leads to, the lists of the live objects hold
      exactly the live objects with them as parent, each once. */
  lemma ListsAreExact(driver: Driver, env: RetsENV, dbc: RetsDBC)
    requires driver.Valid() && Consistent(driver.world) && env in driver.world.envs && dbc in driver.world.dbcs
    ensures NoDuplicates(env.connections) && NoDuplicates(dbc.statements)
    ensures forall d | d in env.connections :: d in driver.world.dbcs && d.env == env
    ensures forall d | d in driver.world.dbcs && d.env == env :: d in env.connections
    ensures forall s | s in dbc.statements :: s in driver.world.stmts && s.dbc == dbc
    ensures forall s | s in driver.world.stmts && s.dbc == dbc :: s in dbc.statements
    ensures dbc.env in driver.world.envs
  {
    forall s | s in driver.world.stmts && s.dbc == dbc ensures s in dbc.statements {
      assert driver.world.stmts[s] == dbc;
    }
    forall d | d in driver.world.dbcs && d.env == env ensures d in env.connections {
      assert driver.world.dbcs[d].env == env;
    }
  }
}
