/** Environment, connection and statement handles as a state machine over the calls that
    allocate, connect, disconnect and free them. */
module HandleTree {
  import opened Text
  import opened Odbc

  datatype Connection<E, S> = Connection(env: E, open: bool, stmts: seq<S>)

  /** The live handles: environments with their list of connections, connections with their
      environment, session and list of statements, and statements with their connection. */
  datatype World<!E, !D, !S> = World(envs: map<E, seq<D>>, dbcs: map<D, Connection<E, S>>, stmts: map<S, D>)

  /** How a login ends: the server accepts or refuses, or something throws on the way. */
  datatype Login = Accepted | Refused | Threw

  /** How the connection string fits where it is returned: whole, truncated to the buffer, or so
      long that not even its length can be told. */
  datatype Returned = Whole | Truncated | TooLong

  datatype FreeOption = Close | Drop | Unbind | ResetParams

  /** `wanted` tells whether there is a place to return the new handle in; `made` is the new
      handle unless memory runs out. */
  datatype Call<E, D, S> =
    | AllocEnv(wanted: bool, madeEnv: Option<E>)
    | AllocConnect(env: E, wanted: bool, madeDbc: Option<D>)
    | AllocStmt(dbc: D, wanted: bool, madeStmt: Option<S>)
    | Connect(dbc: D, login: Login)
    | DriverConnect(dbc: D, complete: bool, login: Login, returned: Returned)
    | Disconnect(dbc: D, logoutThrows: bool)
    | FreeStmt(stmt: S, option: FreeOption)
    | FreeConnect(dbc: D)
    | FreeEnv(nullableEnv: Option<E>)

  datatype Reply = Reply(code: ReturnCode, state: Option<string>)

  function EmptyWorld<E(==), D(==), S(==)>(): World<E, D, S> {
    World(map[], map[], map[])
  }

  /** `std::list::remove`: takes out every occurrence. */
  function Without<T(==)>(list: seq<T>, x: T): seq<T> {
    if list == [] then []
    else
      var last := |list| - 1;
      if list[last] == x then Without(list[..last], x) else Without(list[..last], x) + [list[last]]
  }

  /** New handles are not those of live objects, and a handle that is passed in is live. */
  predicate Legal<E(==), D(==), S(==)>(w: World<E, D, S>, call: Call<E, D, S>) {
    match call
    case AllocEnv(_, made) => made.None? || made.value !in w.envs
    case AllocConnect(env, _, made) => env in w.envs && (made.None? || made.value !in w.dbcs)
    case AllocStmt(dbc, _, made) => dbc in w.dbcs && (made.None? || made.value !in w.stmts)
    case Connect(dbc, _) => dbc in w.dbcs
    case DriverConnect(dbc, _, _, _) => dbc in w.dbcs
    case Disconnect(dbc, _) => dbc in w.dbcs
    case FreeStmt(stmt, _) => stmt in w.stmts
    case FreeConnect(dbc) => dbc in w.dbcs
    case FreeEnv(env) => env.None? || env.value in w.envs
  }

  function Session<E, D(==), S>(w: World<E, D, S>, dbc: D, open: bool): World<E, D, S>
    requires dbc in w.dbcs
  {
    w.(dbcs := w.dbcs[dbc := w.dbcs[dbc].(open := open)])
  }

  /** The session after a login: an exception on the way closes one that was open. */
  function LoggedIn<E, D(==), S>(w: World<E, D, S>, dbc: D, login: Login): World<E, D, S>
    requires dbc in w.dbcs
  {
    match login
    case Accepted => Session(w, dbc, true)
    case Refused => w
    case Threw => Session(w, dbc, false)
  }

  function AddEnv<E(==), D, S>(w: World<E, D, S>, env: E): World<E, D, S> {
    w.(envs := w.envs[env := []])
  }

  function AddConnection<E(==), D(==), S>(w: World<E, D, S>, env: E, dbc: D): World<E, D, S>
    requires env in w.envs
  {
    w.(envs := w.envs[env := w.envs[env] + [dbc]], dbcs := w.dbcs[dbc := Connection(env, false, [])])
  }

  function AddStatement<E, D(==), S(==)>(w: World<E, D, S>, dbc: D, stmt: S): World<E, D, S>
    requires dbc in w.dbcs
  {
    w.(dbcs := w.dbcs[dbc := w.dbcs[dbc].(stmts := w.dbcs[dbc].stmts + [stmt])], stmts := w.stmts[stmt := dbc])
  }

  function DropStatement<E, D(==), S(==)>(w: World<E, D, S>, stmt: S): World<E, D, S>
    requires stmt in w.stmts
  {
    var dbc := w.stmts[stmt];
    var stmts := w.stmts - {stmt};
    if dbc in w.dbcs then
      w.(dbcs := w.dbcs[dbc := w.dbcs[dbc].(stmts := Without(w.dbcs[dbc].stmts, stmt))], stmts := stmts)
    else w.(stmts := stmts)
  }

  function DropConnection<E(==), D(==), S>(w: World<E, D, S>, dbc: D): World<E, D, S>
    requires dbc in w.dbcs
  {
    var env := w.dbcs[dbc].env;
    var dbcs := w.dbcs - {dbc};
    if env in w.envs then w.(envs := w.envs[env := Without(w.envs[env], dbc)], dbcs := dbcs)
    else w.(dbcs := dbcs)
  }

  function DropEnv<E(==), D, S>(w: World<E, D, S>, env: E): World<E, D, S> {
    w.(envs := w.envs - {env})
  }

  /** One call: the new state and what is replied. */
  function Step<E(==), D(==), S(==)>(w: World<E, D, S>, call: Call<E, D, S>): (World<E, D, S>, Reply)
    requires Legal(w, call)
  {
    match call
    case AllocEnv(wanted, made) =>
      if !wanted then (w, Reply(InvalidHandle, None))
      else if made.None? then (w, Reply(Error, None))
      else (AddEnv(w, made.value), Reply(Success, None))
    case AllocConnect(env, wanted, made) =>
      if !wanted then (w, Reply(InvalidHandle, Some("HY009")))
      else if made.None? then (w, Reply(Error, Some("HY013")))
      else (AddConnection(w, env, made.value), Reply(Success, None))
    case AllocStmt(dbc, wanted, made) =>
      if !wanted then (w, Reply(InvalidHandle, Some("HY009")))
      else if made.None? then (w, Reply(Error, Some("HY013")))
      else (AddStatement(w, dbc, made.value), Reply(Success, None))
    case Connect(dbc, login) =>
      if w.dbcs[dbc].open then (w, Reply(Error, Some("08002")))
      else if login != Accepted then (LoggedIn(w, dbc, login), Reply(Error, Some("08001")))
      else (LoggedIn(w, dbc, login), Reply(Success, None))
    case DriverConnect(dbc, complete, login, returned) =>
      if !complete then (w, Reply(NoData, None))
      else if login != Accepted then (LoggedIn(w, dbc, login), Reply(Error, Some("08001")))
      else
        (LoggedIn(w, dbc, login),
         match returned
         case Whole => Reply(Success, None)
         case Truncated => Reply(SuccessWithInfo, Some("01004"))
         case TooLong => Reply(Error, Some("HY000")))
    case Disconnect(dbc, logoutThrows) =>
      if !w.dbcs[dbc].open then (w, Reply(Success, None))
      else if w.dbcs[dbc].stmts != [] || logoutThrows then (w, Reply(Error, Some("HY000")))
      else (Session(w, dbc, false), Reply(Success, None))
    case FreeStmt(stmt, option) =>
      (if option == Drop then DropStatement(w, stmt) else w, Reply(Success, None))
    case FreeConnect(dbc) =>
      if w.dbcs[dbc].open || w.dbcs[dbc].stmts != [] then (w, Reply(Error, None))
      else (DropConnection(w, dbc), Reply(Success, None))
    case FreeEnv(env) =>
      if env.None? then (w, Reply(InvalidHandle, None))
      else if w.envs[env.value] != [] then (w, Reply(Error, None))
      else (DropEnv(w, env.value), Reply(Success, None))
  }

  predicate LegalRun<E(==), D(==), S(==)>(w: World<E, D, S>, calls: seq<Call<E, D, S>>)
    decreases |calls|
  {
    calls == [] || (Legal(w, calls[0]) && LegalRun(Step(w, calls[0]).0, calls[1..]))
  }

  function Run<E(==), D(==), S(==)>(w: World<E, D, S>, calls: seq<Call<E, D, S>>): World<E, D, S>
    requires LegalRun(w, calls)
    decreases |calls|
  {
    if calls == [] then w else Run(Step(w, calls[0]).0, calls[1..])
  }

  // ---- The invariant

  ghost predicate NoDuplicates<T>(list: seq<T>) {
    forall i, j | 0 <= i < j < |list| :: list[i] != list[j]
  }

  /** The child lists hold exactly the live handles with that parent, each once, and every parent
      is live. */
  ghost predicate Consistent<E, D, S>(w: World<E, D, S>) {
    EnvsConsistent(w) && DbcsConsistent(w)
  }

  ghost predicate EnvsConsistent<E, D, S>(w: World<E, D, S>) {
    (forall d | d in w.dbcs :: w.dbcs[d].env in w.envs && d in w.envs[w.dbcs[d].env])
    && (forall e | e in w.envs :: NoDuplicates(w.envs[e]))
    && (forall e, d | e in w.envs && d in w.envs[e] :: d in w.dbcs && w.dbcs[d].env == e)
  }

  ghost predicate DbcsConsistent<E, D, S>(w: World<E, D, S>) {
    (forall s | s in w.stmts :: w.stmts[s] in w.dbcs && s in w.dbcs[w.stmts[s]].stmts)
    && (forall d | d in w.dbcs :: NoDuplicates(w.dbcs[d].stmts))
    && (forall d, s | d in w.dbcs && s in w.dbcs[d].stmts :: s in w.stmts && w.stmts[s] == d)
  }

  lemma {:induction false} WithoutMembers<T>(list: seq<T>, x: T)
    requires NoDuplicates(list)
    ensures NoDuplicates(Without(list, x))
    ensures forall y | y in list && y != x :: y in Without(list, x)
    ensures forall y | y in Without(list, x) :: y in list && y != x
  {
    if list != [] {
      var last := |list| - 1;
      assert list == list[..last] + [list[last]];
      WithoutMembers(list[..last], x);
      assert list[last] !in list[..last];
    }
  }

  /** Connections that change neither environment nor their place in a list. */
  lemma EnvsKept<E, D, S>(w: World<E, D, S>, after: World<E, D, S>)
    requires EnvsConsistent(w) && after.envs == w.envs && after.dbcs.Keys == w.dbcs.Keys
    requires forall d | d in w.dbcs :: after.dbcs[d].env == w.dbcs[d].env
    ensures EnvsConsistent(after) == true
  {
  }

  lemma DbcsKept<E, D, S>(w: World<E, D, S>, after: World<E, D, S>)
    requires DbcsConsistent(w) && after.stmts == w.stmts && after.dbcs.Keys == w.dbcs.Keys
    requires forall d | d in w.dbcs :: after.dbcs[d].stmts == w.dbcs[d].stmts
    ensures DbcsConsistent(after) == true
  {
  }

  lemma SessionKeeps<E, D, S>(w: World<E, D, S>, dbc: D, open: bool)
    requires Consistent(w) == true && dbc in w.dbcs
    ensures Consistent(Session(w, dbc, open)) == true
  {
    EnvsKept(w, Session(w, dbc, open));
    DbcsKept(w, Session(w, dbc, open));
  }

  lemma LoggedInKeeps<E, D, S>(w: World<E, D, S>, dbc: D, login: Login)
    requires Consistent(w) == true && dbc in w.dbcs
    ensures Consistent(LoggedIn(w, dbc, login)) == true
  {
    SessionKeeps(w, dbc, login == Accepted);
  }

  lemma AddConnectionKeepsEnvs<E, D, S>(w: World<E, D, S>, env: E, dbc: D)
    requires EnvsConsistent(w) && env in w.envs && dbc !in w.dbcs
    ensures EnvsConsistent(AddConnection(w, env, dbc)) == true
  {
    assert forall e | e in w.envs && e != env :: AddConnection(w, env, dbc).envs[e] == w.envs[e];
  }

  lemma AddConnectionKeepsDbcs<E, D, S>(w: World<E, D, S>, env: E, dbc: D)
    requires DbcsConsistent(w) && env in w.envs && dbc !in w.dbcs
    ensures DbcsConsistent(AddConnection(w, env, dbc)) == true
  {
    assert forall d | d in w.dbcs :: AddConnection(w, env, dbc).dbcs[d] == w.dbcs[d];
  }

  lemma AddStatementKeepsDbcs<E, D, S>(w: World<E, D, S>, dbc: D, stmt: S)
    requires DbcsConsistent(w) && dbc in w.dbcs && stmt !in w.stmts
    ensures DbcsConsistent(AddStatement(w, dbc, stmt)) == true
  {
    var after := AddStatement(w, dbc, stmt);
    forall d | d in w.dbcs ensures NoDuplicates(after.dbcs[d].stmts)
                           ensures forall s | s in after.dbcs[d].stmts :: s in after.stmts && after.stmts[s] == d {
      assert d != dbc ==> after.dbcs[d] == w.dbcs[d];
    }
  }

  lemma AddStatementKeeps<E, D, S>(w: World<E, D, S>, dbc: D, stmt: S)
    requires Consistent(w) == true && dbc in w.dbcs && stmt !in w.stmts
    ensures Consistent(AddStatement(w, dbc, stmt)) == true
  {
    EnvsKept(w, AddStatement(w, dbc, stmt));
    AddStatementKeepsDbcs(w, dbc, stmt);
  }

  lemma DropStatementKeepsDbcs<E, D, S>(w: World<E, D, S>, stmt: S)
    requires DbcsConsistent(w) && stmt in w.stmts
    ensures DbcsConsistent(DropStatement(w, stmt)) == true
  {
    WithoutMembers(w.dbcs[w.stmts[stmt]].stmts, stmt);
  }

  lemma DropStatementKeeps<E, D, S>(w: World<E, D, S>, stmt: S)
    requires Consistent(w) == true && stmt in w.stmts
    ensures Consistent(DropStatement(w, stmt)) == true
  {
    EnvsKept(w, DropStatement(w, stmt));
    DropStatementKeepsDbcs(w, stmt);
  }

  lemma DropConnectionKeeps<E, D, S>(w: World<E, D, S>, dbc: D)
    requires Consistent(w) == true && dbc in w.dbcs && w.dbcs[dbc].stmts == []
    ensures EnvsConsistent(DropConnection(w, dbc)) == true
    ensures DbcsConsistent(DropConnection(w, dbc)) == true
  {
    WithoutMembers(w.envs[w.dbcs[dbc].env], dbc);
  }

  lemma AddEnvKeeps<E, D, S>(w: World<E, D, S>, env: E)
    requires Consistent(w) == true && env !in w.envs
    ensures Consistent(AddEnv(w, env)) == true
  {
  }

  lemma DropEnvKeeps<E, D, S>(w: World<E, D, S>, env: E)
    requires Consistent(w) == true && env in w.envs && w.envs[env] == []
    ensures Consistent(DropEnv(w, env)) == true
  {
  }

  /** Every call keeps the invariant. */
  lemma StepKeepsConsistent<E, D, S>(w: World<E, D, S>, call: Call<E, D, S>)
    requires Consistent(w) == true && Legal(w, call)
    ensures Consistent(Step(w, call).0) == true
  {
    match call
    case AllocConnect(env, wanted, made) =>
      if wanted && made.Some? {
        AddConnectionKeepsEnvs(w, env, made.value);
        AddConnectionKeepsDbcs(w, env, made.value);
      }
    case AllocStmt(dbc, wanted, made) =>
      if wanted && made.Some? {
        AddStatementKeeps(w, dbc, made.value);
      }
    case Connect(dbc, login) =>
      LoggedInKeeps(w, dbc, login);
    case DriverConnect(dbc, _, login, _) =>
      LoggedInKeeps(w, dbc, login);
    case Disconnect(dbc, _) =>
      SessionKeeps(w, dbc, false);
    case FreeStmt(stmt, _) =>
      DropStatementKeeps(w, stmt);
    case FreeConnect(dbc) =>
      if w.dbcs[dbc].stmts == [] {
        DropConnectionKeeps(w, dbc);
      }
    case AllocEnv(wanted, made) =>
      if wanted && made.Some? {
        AddEnvKeeps(w, made.value);
      }
    case FreeEnv(env) =>
      if env.Some? && w.envs[env.value] == [] {
        DropEnvKeeps(w, env.value);
      }
  }

  lemma {:induction false} RunKeepsConsistent<E, D, S>(w: World<E, D, S>, calls: seq<Call<E, D, S>>)
    requires Consistent(w) && LegalRun(w, calls)
    ensures Consistent(Run(w, calls)) == true
    decreases |calls|
  {
    if calls != [] {
      StepKeepsConsistent(w, calls[0]);
      RunKeepsConsistent(Step(w, calls[0]).0, calls[1..]);
    }
  }

  /** The invariant holds after every run of calls from the start. */
  lemma EveryRunIsConsistent<E, D, S>(calls: seq<Call<E, D, S>>)
    requires LegalRun(EmptyWorld(), calls)
    ensures Consistent(Run(EmptyWorld(), calls)) == true
  {
    RunKeepsConsistent(EmptyWorld(), calls);
  }

  // ---- What freeing and disconnecting guarantee

  ghost predicate HasConnections<E, D, S>(w: World<E, D, S>, env: E) {
    exists d :: d in w.dbcs && w.dbcs[d].env == env
  }

  ghost predicate HasStatements<E, D, S>(w: World<E, D, S>, dbc: D) {
    exists s :: s in w.stmts && w.stmts[s] == dbc
  }

  lemma ConnectionsAreListed<E, D, S>(w: World<E, D, S>, env: E)
    requires Consistent(w) && env in w.envs
    ensures HasConnections(w, env) <==> w.envs[env] != []
  {
    if w.envs[env] != [] {
      var d := w.envs[env][0];
      assert d in w.dbcs && w.dbcs[d].env == env;
    }
    if HasConnections(w, env) {
      var d :| d in w.dbcs && w.dbcs[d].env == env;
      assert d in w.envs[env];
    }
  }

  lemma StatementsAreListed<E, D, S>(w: World<E, D, S>, dbc: D)
    requires Consistent(w) && dbc in w.dbcs
    ensures HasStatements(w, dbc) <==> w.dbcs[dbc].stmts != []
  {
    if w.dbcs[dbc].stmts != [] {
      var s := w.dbcs[dbc].stmts[0];
      assert s in w.stmts && w.stmts[s] == dbc;
    }
    if HasStatements(w, dbc) {
      var s :| s in w.stmts && w.stmts[s] == dbc;
      assert s in w.dbcs[dbc].stmts;
    }
  }

  /** In a consistent state, freeing an environment succeeds exactly when no live connection has it
      as parent; otherwise nothing changes. */
  lemma FreesEnvWithoutConnections<E, D, S>(w: World<E, D, S>, env: E)
    requires Consistent(w) && env in w.envs
    ensures Step(w, FreeEnv(Some(env))).1.code == Success <==> !HasConnections(w, env)
    ensures Step(w, FreeEnv(Some(env))).0 == if HasConnections(w, env) then w else DropEnv(w, env)
  {
    ConnectionsAreListed(w, env);
  }

  /** Freeing a connection succeeds exactly when it has neither a session nor a live statement. */
  lemma FreesConnectionWithoutStatements<E, D, S>(w: World<E, D, S>, dbc: D)
    requires Consistent(w) && dbc in w.dbcs
    ensures Step(w, FreeConnect(dbc)).1.code == Success <==> !w.dbcs[dbc].open && !HasStatements(w, dbc)
    ensures Step(w, FreeConnect(dbc)).0 ==
            if w.dbcs[dbc].open || HasStatements(w, dbc) then w else DropConnection(w, dbc)
  {
    StatementsAreListed(w, dbc);
  }

  /** Disconnecting an open session succeeds exactly when no statement is live under it and the
      logout does not throw, and then the session is closed. On a closed session it succeeds
      whatever is live, and changes nothing. */
  lemma DisconnectLeavesNoStatements<E, D, S>(w: World<E, D, S>, dbc: D, logoutThrows: bool)
    requires Consistent(w) && dbc in w.dbcs
    ensures var (after, reply) := Step(w, Disconnect(dbc, logoutThrows));
            (reply.code == Success <==> !w.dbcs[dbc].open || (!HasStatements(w, dbc) && !logoutThrows))
            && (reply.code == Success ==> !after.dbcs[dbc].open)
            && (reply.code == Success && w.dbcs[dbc].open ==> !HasStatements(after, dbc))
            && (reply.code != Success || !w.dbcs[dbc].open ==> after == w)
  {
    StatementsAreListed(w, dbc);
  }

  // ---- What a failing call changes

  /** A call of SQLDriverConnect that fails and still changes the session: a login that throws
      closes one that was open, and a string whose length cannot be told leaves a new one open. */
  ghost predicate FailsHalfway<E, D, S>(w: World<E, D, S>, call: Call<E, D, S>)
    requires Legal(w, call)
  {
    call.DriverConnect? && call.complete
    && if w.dbcs[call.dbc].open then call.login == Threw else call.login == Accepted && call.returned == TooLong
  }

  /** A call that fails leaves every handle as it was, if and only if it is none of those. */
  lemma FailureChangesNothing<E, D, S>(w: World<E, D, S>, call: Call<E, D, S>)
    requires Legal(w, call) && Step(w, call).1.code == Error
    ensures Step(w, call).0 == w <==> !FailsHalfway(w, call)
  {
    if call.Connect? || call.DriverConnect? {
      var dbc := call.dbc;
      assert w.dbcs[dbc].(open := false) == w.dbcs[dbc] <==> !w.dbcs[dbc].open;
      assert Step(w, call).0.dbcs[dbc] == w.dbcs[dbc] ==> Step(w, call).0.dbcs == w.dbcs;
    }
  }

  // ---- What each call changes

  /** Without a place for the handle, or without memory, nothing is made. */
  lemma NothingAllocated<E, D, S>(w: World<E, D, S>, env: E, dbc: D, wanted: bool)
    requires env in w.envs && dbc in w.dbcs
    ensures Step(w, AllocEnv(wanted, None)) == (w, Reply(if wanted then Error else InvalidHandle, None))
    ensures Step(w, AllocConnect(env, wanted, None)) ==
            (w, if wanted then Reply(Error, Some("HY013")) else Reply(InvalidHandle, Some("HY009")))
    ensures Step(w, AllocStmt(dbc, wanted, None)) ==
            (w, if wanted then Reply(Error, Some("HY013")) else Reply(InvalidHandle, Some("HY009")))
  {
  }

  /** A new environment is live, has no connections, and is freed at once; all else stays. */
  lemma EnvAllocated<E, D, S>(w: World<E, D, S>, env: E)
    requires env !in w.envs
    ensures var (after, reply) := Step(w, AllocEnv(true, Some(env)));
            && reply == Reply(Success, None)
            && after.envs.Keys == w.envs.Keys + {env} && after.envs[env] == []
            && (forall e | e in w.envs :: after.envs[e] == w.envs[e])
            && after.dbcs == w.dbcs && after.stmts == w.stmts
            && Step(after, FreeEnv(Some(env))) == (w, Reply(Success, None))
  {
    assert Step(AddEnv(w, env), FreeEnv(Some(env))).0.envs == w.envs;
  }

  /** A new connection is live, last in the list of its environment, without a session and without
      statements; all else stays. The environment can then not be freed, and freeing the
      connection gives back the state before. */
  lemma ConnectionAllocated<E, D, S>(w: World<E, D, S>, env: E, dbc: D)
    requires Consistent(w) && env in w.envs && dbc !in w.dbcs
    ensures var (after, reply) := Step(w, AllocConnect(env, true, Some(dbc)));
            && reply == Reply(Success, None)
            && after.dbcs.Keys == w.dbcs.Keys + {dbc} && after.dbcs[dbc] == Connection(env, false, [])
            && after.envs.Keys == w.envs.Keys && after.envs[env] == w.envs[env] + [dbc]
            && (forall e | e in w.envs && e != env :: after.envs[e] == w.envs[e])
            && (forall d | d in w.dbcs :: after.dbcs[d] == w.dbcs[d]) && after.stmts == w.stmts
            && Step(after, FreeEnv(Some(env))) == (after, Reply(Error, None))
            && Step(after, FreeConnect(dbc)) == (w, Reply(Success, None))
  {
    var after := AddConnection(w, env, dbc);
    assert dbc !in w.envs[env];
    WithoutAppended(w.envs[env], dbc);
    assert DropConnection(after, dbc).envs[env] == w.envs[env];
    assert DropConnection(after, dbc).envs == w.envs;
    assert DropConnection(after, dbc).dbcs == w.dbcs;
  }

  /** A new statement is live and last in the list of its connection; all else stays. An open
      session can then not be disconnected, nor a closed one's connection be freed, and dropping
      the statement gives back the state before. */
  lemma StatementAllocated<E, D, S>(w: World<E, D, S>, dbc: D, stmt: S)
    requires Consistent(w) && dbc in w.dbcs && stmt !in w.stmts
    ensures var (after, reply) := Step(w, AllocStmt(dbc, true, Some(stmt)));
            && reply == Reply(Success, None)
            && after.stmts == w.stmts[stmt := dbc]
            && after.dbcs.Keys == w.dbcs.Keys
            && after.dbcs[dbc] == Connection(w.dbcs[dbc].env, w.dbcs[dbc].open, w.dbcs[dbc].stmts + [stmt])
            && (forall d | d in w.dbcs && d != dbc :: after.dbcs[d] == w.dbcs[d]) && after.envs == w.envs
            && (forall throws ::
                  Step(after, Disconnect(dbc, throws)) ==
                  (after, if w.dbcs[dbc].open then Reply(Error, Some("HY000")) else Reply(Success, None)))
            && Step(after, FreeConnect(dbc)) == (after, Reply(Error, None))
            && Step(after, FreeStmt(stmt, Drop)) == (w, Reply(Success, None))
  {
    DropUndoesAllocation(w, dbc, stmt);
  }

  /** Dropping what was just allocated gives the state before it back. */
  lemma DropUndoesAllocation<E, D, S>(w: World<E, D, S>, dbc: D, stmt: S)
    requires Consistent(w) && dbc in w.dbcs && stmt !in w.stmts
    ensures Step(Step(w, AllocStmt(dbc, true, Some(stmt))).0, FreeStmt(stmt, Drop)).0 == w
  {
    var after := AddStatement(w, dbc, stmt);
    assert stmt !in w.dbcs[dbc].stmts;
    WithoutAppended(w.dbcs[dbc].stmts, stmt);
    assert DropStatement(after, stmt).dbcs[dbc] == w.dbcs[dbc];
    assert DropStatement(after, stmt).dbcs == w.dbcs;
    assert DropStatement(after, stmt).stmts == w.stmts;
  }

  /** The session of a connection, and nothing else, is what a login changes: one by name on a
      closed session only, one by connection string on any. */
  lemma LoginChanges<E, D, S>(w: World<E, D, S>, dbc: D, login: Login, returned: Returned)
    requires dbc in w.dbcs
    ensures Step(w, Connect(dbc, login)) ==
            (w.(dbcs := w.dbcs[dbc := w.dbcs[dbc].(open := w.dbcs[dbc].open || login == Accepted)]),
             if w.dbcs[dbc].open then Reply(Error, Some("08002"))
             else if login == Accepted then Reply(Success, None)
             else Reply(Error, Some("08001")))
    ensures Step(w, DriverConnect(dbc, true, login, returned)) ==
            (w.(dbcs := w.dbcs[dbc := w.dbcs[dbc].(
                  open := login == Accepted || (login == Refused && w.dbcs[dbc].open))]),
             if login != Accepted then Reply(Error, Some("08001"))
             else match returned
                  case Whole => Reply(Success, None)
                  case Truncated => Reply(SuccessWithInfo, Some("01004"))
                  case TooLong => Reply(Error, Some("HY000")))
    ensures Step(w, DriverConnect(dbc, false, login, returned)) == (w, Reply(NoData, None))
  {
    assert w.dbcs[dbc].(open := w.dbcs[dbc].open) == w.dbcs[dbc];
    assert w.dbcs[dbc := w.dbcs[dbc]] == w.dbcs;
  }

  /** A disconnect that does not fail closes that session and changes nothing else. */
  lemma DisconnectChanges<E, D, S>(w: World<E, D, S>, dbc: D, throws: bool)
    requires dbc in w.dbcs
    ensures var (after, reply) := Step(w, Disconnect(dbc, throws));
            if w.dbcs[dbc].open && (w.dbcs[dbc].stmts != [] || throws) then
              (after, reply) == (w, Reply(Error, Some("HY000")))
            else
              reply == Reply(Success, None)
              && after == w.(dbcs := w.dbcs[dbc := w.dbcs[dbc].(open := false)])
  {
    if !w.dbcs[dbc].open {
      assert w.dbcs[dbc].(open := false) == w.dbcs[dbc];
      assert w.dbcs[dbc := w.dbcs[dbc]] == w.dbcs;
    }
  }

  /** Dropping a statement takes it out of the live ones and out of its connection's list, where the
      others keep their order; all else stays, as with every other option everything does. */
  lemma StatementDropped<E, D, S>(w: World<E, D, S>, stmt: S, option: FreeOption)
    requires Consistent(w) && stmt in w.stmts
    ensures var (after, reply) := Step(w, FreeStmt(stmt, option));
            && reply == Reply(Success, None)
            && (option != Drop ==> after == w)
            && (option == Drop ==>
                  var dbc := w.stmts[stmt];
                  && after.stmts == w.stmts - {stmt} && after.envs == w.envs && after.dbcs.Keys == w.dbcs.Keys
                  && (forall d | d in w.dbcs && d != dbc :: after.dbcs[d] == w.dbcs[d])
                  && after.dbcs[dbc].env == w.dbcs[dbc].env && after.dbcs[dbc].open == w.dbcs[dbc].open
                  && exists i | 0 <= i < |w.dbcs[dbc].stmts| ::
                       w.dbcs[dbc].stmts[i] == stmt
                       && after.dbcs[dbc].stmts == w.dbcs[dbc].stmts[..i] + w.dbcs[dbc].stmts[i + 1..])
  {
    if option == Drop {
      var i := TakenOut(w.dbcs[w.stmts[stmt]].stmts, stmt);
    }
  }

  /** Freeing a connection without a session and statements takes it out of the live ones and out of
      its environment's list, and freeing an environment without connections takes that out. */
  lemma ConnectionFreed<E, D, S>(w: World<E, D, S>, dbc: D)
    requires Consistent(w) && dbc in w.dbcs && !w.dbcs[dbc].open && w.dbcs[dbc].stmts == []
    ensures var (after, reply) := Step(w, FreeConnect(dbc));
            var env := w.dbcs[dbc].env;
            && reply == Reply(Success, None)
            && after.dbcs == w.dbcs - {dbc} && after.stmts == w.stmts && after.envs.Keys == w.envs.Keys
            && (forall e | e in w.envs && e != env :: after.envs[e] == w.envs[e])
            && exists i | 0 <= i < |w.envs[env]| ::
                 w.envs[env][i] == dbc && after.envs[env] == w.envs[env][..i] + w.envs[env][i + 1..]
  {
    var i := TakenOut(w.envs[w.dbcs[dbc].env], dbc);
  }

  lemma EnvFreed<E, D, S>(w: World<E, D, S>, env: E)
    requires env in w.envs && w.envs[env] == []
    ensures var (after, reply) := Step(w, FreeEnv(Some(env)));
            reply == Reply(Success, None)
            && after.envs == w.envs - {env} && after.dbcs == w.dbcs && after.stmts == w.stmts
  {
  }

  lemma {:induction false} TakenOut<T>(list: seq<T>, x: T) returns (i: nat)
    requires NoDuplicates(list) && x in list
    ensures i < |list| && list[i] == x && Without(list, x) == list[..i] + list[i + 1..]
  {
    i := |list| - 1;
    var rest := list[..i];
    assert list == rest + [list[i]];
    if list[i] == x {
      WithoutAbsent(rest, x);
    } else {
      var last := i;
      i := TakenOut(rest, x);
      assert rest[..i] == list[..i] && rest[i + 1..] + [list[last]] == list[i + 1..];
    }
  }

  lemma {:induction false} WithoutAbsent<T>(list: seq<T>, x: T)
    requires x !in list
    ensures Without(list, x) == list
  {
    if list != [] {
      var last := |list| - 1;
      assert list == list[..last] + [list[last]];
      WithoutAbsent(list[..last], x);
    }
  }

  lemma WithoutAppended<T>(list: seq<T>, x: T)
    requires x !in list
    ensures Without(list + [x], x) == list
  {
    assert (list + [x])[..|list|] == list;
    WithoutAbsent(list, x);
  }

  // ---- Nothing is ever stuck

  ghost function OpenOnes<E, D, S>(w: World<E, D, S>): set<D> {
    set d | d in w.dbcs && w.dbcs[d].open
  }

  ghost predicate AllSucceed<E, D, S>(w: World<E, D, S>, calls: seq<Call<E, D, S>>)
    requires LegalRun(w, calls)
    decreases |calls|
  {
    calls == [] || (Step(w, calls[0]).1.code == Success && AllSucceed(Step(w, calls[0]).0, calls[1..]))
  }

  lemma Prepend<E, D, S>(w: World<E, D, S>, call: Call<E, D, S>, calls: seq<Call<E, D, S>>)
    requires Legal(w, call) && Step(w, call).1.code == Success
    requires LegalRun(Step(w, call).0, calls) && AllSucceed(Step(w, call).0, calls)
    ensures LegalRun(w, [call] + calls) && AllSucceed(w, [call] + calls)
    ensures Run(w, [call] + calls) == Run(Step(w, call).0, calls)
  {
    assert ([call] + calls)[1..] == calls;
  }

  /** What is left to free or close. */
  ghost function Left<E, D, S>(w: World<E, D, S>): nat {
    |w.stmts| + |OpenOnes(w)| + |w.dbcs| + |w.envs|
  }

  lemma DropOpensNone<E, D, S>(w: World<E, D, S>, stmt: S)
    requires stmt in w.stmts
    ensures OpenOnes(DropStatement(w, stmt)) == OpenOnes(w)
    ensures DropStatement(w, stmt).dbcs.Keys == w.dbcs.Keys
  {
  }

  lemma DropFrees<E, D, S>(w: World<E, D, S>, stmt: S)
    requires stmt in w.stmts
    ensures Left(DropStatement(w, stmt)) < Left(w)
  {
    DropOpensNone(w, stmt);
    assert (w.stmts - {stmt}).Keys == w.stmts.Keys - {stmt};
  }

  lemma DisconnectFrees<E, D, S>(w: World<E, D, S>, dbc: D)
    requires Consistent(w) && dbc in w.dbcs && w.dbcs[dbc].open
    ensures Left(Session(w, dbc, false)) < Left(w)
  {
    assert OpenOnes(Session(w, dbc, false)) == OpenOnes(w) - {dbc};
    assert Session(w, dbc, false).dbcs.Keys == w.dbcs.Keys;
  }

  lemma ConnectionFrees<E, D, S>(w: World<E, D, S>, dbc: D)
    requires Consistent(w) && dbc in w.dbcs && !w.dbcs[dbc].open
    ensures Left(DropConnection(w, dbc)) < Left(w)
  {
    assert OpenOnes(DropConnection(w, dbc)) == OpenOnes(w);
    assert (w.dbcs - {dbc}).Keys == w.dbcs.Keys - {dbc};
    assert DropConnection(w, dbc).envs.Keys == w.envs.Keys;
  }

  lemma EnvFrees<E, D, S>(w: World<E, D, S>, env: E)
    requires env in w.envs
    ensures Left(DropEnv(w, env)) < Left(w)
  {
    assert OpenOnes(DropEnv(w, env)) == OpenOnes(w);
    assert (w.envs - {env}).Keys == w.envs.Keys - {env};
  }

  /** A call that takes a consistent state towards the empty one: drop a statement, else close a
      session, else free a connection, else an environment. */
  lemma NextToFree<E, D, S>(w: World<E, D, S>) returns (call: Call<E, D, S>)
    requires Consistent(w) && w != EmptyWorld()
    ensures Legal(w, call) && Step(w, call).1.code == Success
    ensures Left(Step(w, call).0) < Left(w)
  {
    if stmt :| stmt in w.stmts {
      DropFrees(w, stmt);
      call := FreeStmt(stmt, Drop);
    } else if dbc :| dbc in w.dbcs && w.dbcs[dbc].open {
      StatementsAreListed(w, dbc);
      DisconnectFrees(w, dbc);
      call := Disconnect(dbc, false);
    } else if dbc :| dbc in w.dbcs {
      StatementsAreListed(w, dbc);
      ConnectionFrees(w, dbc);
      call := FreeConnect(dbc);
    } else {
      assert w.stmts == map[] && w.dbcs == map[];
      var env :| env in w.envs;
      ConnectionsAreListed(w, env);
      EnvFrees(w, env);
      call := FreeEnv(Some(env));
    }
  }

  /** From every reachable state some calls, each of them successful, free everything. */
  lemma {:induction false} Teardown<E, D, S>(w: World<E, D, S>) returns (calls: seq<Call<E, D, S>>)
    requires Consistent(w)
    ensures LegalRun(w, calls) && AllSucceed(w, calls) && Run(w, calls) == EmptyWorld()
    decreases Left(w)
  {
    if w == EmptyWorld() {
      calls := [];
    } else {
      var call := NextToFree(w);
      StepKeepsConsistent(w, call);
      var rest := Teardown(Step(w, call).0);
      Prepend(w, call, rest);
      calls := [call] + rest;
    }
  }
}
