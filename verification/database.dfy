/** The `Database` object: its connection, the lazy connect inside
    `execute_query`, the three seed loaders, the query builders and
    `close_connection`. The ODBC driver is a function of the whole sequence
    of calls made to it, so it may answer like any stateful server. */
module Database {
  import opened Text
  import opened Values
  import opened Csv
  import opened Sql
  import opened Loaders

  /** The settings read from the environment when the object is built; a
      variable that is not set is `None`. */
  datatype Config = Config(
    server: Option<string>, database: Option<string>, user: Option<string>,
    password: Option<string>, driver: Option<string>)

  /** How an f-string renders a setting: `None` becomes the text `None`. */
  function Show(v: Option<string>): string {
    match v
    case None => "None"
    case Some(s) => s
  }

  /** The connection string `connect` builds: the password argument when it
      is not `None`, the configured password otherwise. */
  function ConnectionString(cfg: Config, password: Option<string>): string {
    var pwd := if password.Some? then password else cfg.password;
    var driverAttr := "DRIVER={" + Show(cfg.driver) + "}";
    var serverAttr := "SERVER=" + Show(cfg.server);
    var databaseAttr := "DATABASE=" + Show(cfg.database);
    var userAttr := "UID=" + Show(cfg.user);
    var passwordAttr := "PWD=" + Show(pwd);
    driverAttr + ";" + serverAttr + ";" + databaseAttr + ";" + userAttr + ";" + passwordAttr + ";"
      + "TrustServerCertificate=yes"
  }

  lemma JoinSix(a: string, b: string, c: string, d: string, e: string, f: string)
    ensures Join(";", [a, b, c, d, e, f]) == a + ";" + b + ";" + c + ";" + d + ";" + e + ";" + f
  {
    var parts := [a, b, c, d, e, f];
    assert Join(";", parts[5..]) == f;
    assert Join(";", parts[4..]) == e + ";" + f by { assert parts[4..][1..] == parts[5..]; }
    assert Join(";", parts[3..]) == d + ";" + e + ";" + f by { assert parts[3..][1..] == parts[4..]; }
    assert Join(";", parts[2..]) == c + ";" + d + ";" + e + ";" + f by { assert parts[2..][1..] == parts[3..]; }
    assert Join(";", parts[1..]) == b + ";" + c + ";" + d + ";" + e + ";" + f by { assert parts[1..][1..] == parts[2..]; }
  }

  /** When no setting holds a `;`, the connection string falls apart into
      exactly its six attributes, in order, the password one holding the
      argument or, failing that, the configured password. */
  lemma ConnectionStringFields(cfg: Config, password: Option<string>)
    requires ';' !in Show(cfg.driver) && ';' !in Show(cfg.server) && ';' !in Show(cfg.database)
    requires ';' !in Show(cfg.user) && ';' !in Show(cfg.password)
    requires password.Some? ==> ';' !in password.value
    ensures Split(ConnectionString(cfg, password), ';') == [
      "DRIVER={" + Show(cfg.driver) + "}", "SERVER=" + Show(cfg.server), "DATABASE=" + Show(cfg.database),
      "UID=" + Show(cfg.user), "PWD=" + (if password.Some? then password.value else Show(cfg.password)),
      "TrustServerCertificate=yes"]
  {
    var pwd := if password.Some? then password else cfg.password;
    var f := ["DRIVER={" + Show(cfg.driver) + "}", "SERVER=" + Show(cfg.server), "DATABASE=" + Show(cfg.database),
      "UID=" + Show(cfg.user), "PWD=" + Show(pwd), "TrustServerCertificate=yes"];
    JoinSix(f[0], f[1], f[2], f[3], f[4], f[5]);
    assert ConnectionString(cfg, password) == Join(";", f);
    assert forall k | 0 <= k < |f| :: ';' !in f[k];
    SplitJoin(f, ';');
  }

  /** One call made to the driver. */
  datatype Call = Open(connectionString: string) | Execute(query: string, params: seq<Value>) | Close

  /** The driver's answer to its latest call: it raised, or it ran and left a
      cursor with a column description (absent when there is no result set),
      the fetched rows and the row count. */
  datatype Reply = Failed | Done(description: Option<seq<string>>, rows: seq<seq<Value>>, rowCount: int)

  /** The driver: its answer to the last call of a history. */
  type Driver = seq<Call> -> Reply

  /** What `execute_query` returns: `None`, the list of row dicts of a read,
      or the row count of a write. */
  datatype QueryResult = NoResult | Rows(rows: seq<Record>) | Affected(count: int)

  /** The state of a `Database`: whether `conn` is set, the last connection
      string built, and every call made to the driver so far. */
  datatype Session = Session(open: bool, connectionString: Option<string>, history: seq<Call>)

  /** `connect`: build and remember the connection string, ask the driver to
      open it, and keep the old connection when it refuses. */
  function ConnectStep(cfg: Config, driver: Driver, s: Session, password: Option<string>): (Session, bool) {
    var cs := ConnectionString(cfg, password);
    var history := s.history + [Open(cs)];
    if driver(history).Failed? then (s.(connectionString := Some(cs), history := history), false)
    else (Session(true, Some(cs), history), true)
  }

  /** What `execute_query` makes of the driver's answer to `query`. */
  function Answer(query: string, reply: Reply): QueryResult {
    match reply
    case Failed => NoResult
    case Done(description, rows, rowCount) =>
      if !IsRead(query) then Affected(rowCount)
      else if description.None? then NoResult
      else match Shaped(description.value, rows)
        case None => NoResult
        case Some(dicts) => Rows(dicts)
  }

  /** `execute_query`: connect with the configured password when there is no
      connection, then run the query. */
  function ExecuteStep(cfg: Config, driver: Driver, s: Session, query: string, params: seq<Value>): (Session, QueryResult) {
    var connected := if s.open then (s, true) else ConnectStep(cfg, driver, s, None);
    if !connected.1 then (connected.0, NoResult)
    else
      var history := connected.0.history + [Execute(query, params)];
      (connected.0.(history := history), Answer(query, driver(history)))
  }

  /** `close_connection`. */
  function CloseStep(s: Session): Session {
    if s.open then s.(open := false, history := s.history + [Close]) else s
  }

  /** The insert loop of a seed loader: run `query` once per tuple, counting
      the runs that report a positive row count. */
  function LoadStep(cfg: Config, driver: Driver, s: Session, query: string, tuples: seq<seq<Value>>): (Session, nat)
    decreases |tuples|
  {
    if tuples == [] then (s, 0)
    else
      var before := LoadStep(cfg, driver, s, query, tuples[..|tuples| - 1]);
      var after := ExecuteStep(cfg, driver, before.0, query, tuples[|tuples| - 1]);
      (after.0, if after.1.Affected? && after.1.count > 0 then before.1 + 1 else before.1)
  }

  /** On an open connection a query is one more call and nothing else: no
      reconnect, the connection string kept. */
  lemma ExecuteOnOpenSession(cfg: Config, driver: Driver, s: Session, query: string, params: seq<Value>)
    requires s.open
    ensures ExecuteStep(cfg, driver, s, query, params).0 == s.(history := s.history + [Execute(query, params)])
    ensures ExecuteStep(cfg, driver, s, query, params).1 == Answer(query, driver(s.history + [Execute(query, params)]))
  {
  }

  /** Without a connection, `execute_query` first opens one with the
      configured password; when the driver refuses, the query is never sent
      and the result is `None`; when it accepts, the query is sent and the
      result is what `Answer` makes of the driver's reply to it. */
  lemma ExecuteOnClosedSession(cfg: Config, driver: Driver, s: Session, query: string, params: seq<Value>)
    requires !s.open
    ensures var r := ExecuteStep(cfg, driver, s, query, params);
      && |r.0.history| > |s.history|
      && r.0.history[..|s.history| + 1] == s.history + [Open(ConnectionString(cfg, None))]
      && r.0.connectionString == Some(ConnectionString(cfg, None))
      && (driver(s.history + [Open(ConnectionString(cfg, None))]).Failed? ==>
            r == (s.(connectionString := Some(ConnectionString(cfg, None)),
                     history := s.history + [Open(ConnectionString(cfg, None))]), NoResult))
      && (!driver(s.history + [Open(ConnectionString(cfg, None))]).Failed? ==>
            && r.0.open && r.0.history == s.history + [Open(ConnectionString(cfg, None)), Execute(query, params)]
            && r.1 == Answer(query, driver(r.0.history)))
  {
    var h := s.history + [Open(ConnectionString(cfg, None))];
    assert (h + [Execute(query, params)])[..|s.history| + 1] == h;
  }

  /** What `execute_query` returns for a reply to `query`: `None` when the
      driver raised; the row count for a write; for a read, never a count,
      and one dict per fetched row mapping each column to the row's value at
      its position (a later column of the same name winning). */
  lemma AnswerResult(query: string, reply: Reply)
    ensures var result := Answer(query, reply);
      && (reply.Failed? ==> result == NoResult)
      && (reply.Done? && !IsRead(query) ==> result == Affected(reply.rowCount))
      && (IsRead(query) ==> !result.Affected?)
      && (reply.Done? && IsRead(query) && reply.description.Some?
          && (forall k | 0 <= k < |reply.rows| :: |reply.description.value| <= |reply.rows[k]|) ==>
            && result.Rows? && |result.rows| == |reply.rows|
            && forall k, i | 0 <= k < |reply.rows| && 0 <= i < |reply.description.value|
                 && (forall j | i < j < |reply.description.value| :: reply.description.value[j] != reply.description.value[i]) ::
                 reply.description.value[i] in result.rows[k] && result.rows[k][reply.description.value[i]] == reply.rows[k][i])
  {
    var result := Answer(query, reply);
    if reply.Done? && IsRead(query) && reply.description.Some?
      && (forall k | 0 <= k < |reply.rows| :: |reply.description.value| <= |reply.rows[k]|)
    {
      var columns := reply.description.value;
      forall k, i | 0 <= k < |reply.rows| && 0 <= i < |columns| && (forall j | i < j < |columns| :: columns[j] != columns[i])
        ensures columns[i] in result.rows[k] && result.rows[k][columns[i]] == reply.rows[k][i]
      {
        RowDictAt(columns, reply.rows[k], i);
      }
    }
  }

  /** The result of a query sent on an open connection, as `AnswerResult`
      describes it for the driver's reply. */
  lemma ExecuteResult(cfg: Config, driver: Driver, s: Session, query: string, params: seq<Value>)
    requires s.open
    ensures var reply := driver(s.history + [Execute(query, params)]);
      var result := ExecuteStep(cfg, driver, s, query, params).1;
      && (reply.Failed? ==> result == NoResult)
      && (reply.Done? && !IsRead(query) ==> result == Affected(reply.rowCount))
      && (IsRead(query) ==> !result.Affected?)
      && (reply.Done? && IsRead(query) && reply.description.Some?
          && (forall k | 0 <= k < |reply.rows| :: |reply.description.value| <= |reply.rows[k]|) ==>
            && result.Rows? && |result.rows| == |reply.rows|
            && forall k, i | 0 <= k < |reply.rows| && 0 <= i < |reply.description.value|
                 && (forall j | i < j < |reply.description.value| :: reply.description.value[j] != reply.description.value[i]) ::
                 reply.description.value[i] in result.rows[k] && result.rows[k][reply.description.value[i]] == reply.rows[k][i])
  {
    AnswerResult(query, driver(s.history + [Execute(query, params)]));
  }

  /** After `close_connection` there is no connection; closing again changes
      nothing, and closing what is not open changes nothing either. */
  lemma CloseIdempotent(s: Session)
    ensures !CloseStep(s).open
    ensures CloseStep(CloseStep(s)) == CloseStep(s)
    ensures !s.open ==> CloseStep(s) == s
    ensures s.open ==> CloseStep(s).history == s.history + [Close]
  {
  }

  /** A loader never counts more inserts than it sent tuples. */
  lemma {:induction false} LoadCountBound(cfg: Config, driver: Driver, s: Session, query: string, tuples: seq<seq<Value>>)
    ensures LoadStep(cfg, driver, s, query, tuples).1 <= |tuples|
  {
    if tuples != [] {
      LoadCountBound(cfg, driver, s, query, tuples[..|tuples| - 1]);
    }
  }

  /** The calls a loader makes on an open connection: one execution per tuple. */
  function Executions(query: string, tuples: seq<seq<Value>>): (calls: seq<Call>)
    ensures |calls| == |tuples|
  {
    seq(|tuples|, k requires 0 <= k < |tuples| => Execute(query, tuples[k]))
  }

  /** The answers the driver gives to those executions, one by one. */
  function Replies(driver: Driver, history: seq<Call>, query: string, tuples: seq<seq<Value>>): (replies: seq<Reply>)
    ensures |replies| == |tuples|
  {
    seq(|tuples|, k requires 0 <= k < |tuples| => driver(history + Executions(query, tuples[..k + 1])))
  }

  /** How many of `replies` report a positive row count. */
  function Positives(replies: seq<Reply>): (n: nat)
    ensures n <= |replies|
    decreases |replies|
  {
    if replies == [] then 0
    else
      var last := replies[|replies| - 1];
      Positives(replies[..|replies| - 1]) + (if last.Done? && last.rowCount > 0 then 1 else 0)
  }

  /** On an open connection, a loader whose statement is a write sends each
      tuple once, in order, and counts exactly the answers that report a
      positive row count. */
  lemma {:induction false} LoadOnOpenSession(cfg: Config, driver: Driver, s: Session, query: string, tuples: seq<seq<Value>>)
    requires s.open && !IsRead(query)
    ensures LoadStep(cfg, driver, s, query, tuples) ==
      (s.(history := s.history + Executions(query, tuples)), Positives(Replies(driver, s.history, query, tuples)))
  {
    if tuples == [] {
      assert s.history + Executions(query, tuples) == s.history;
    } else {
      var init, last := tuples[..|tuples| - 1], tuples[|tuples| - 1];
      LoadOnOpenSession(cfg, driver, s, query, init);
      assert tuples == init + [last];
      LoadStepNext(cfg, driver, s, query, init, last);
      RepliesNext(driver, s.history, query, tuples);
      OpenWriteStep(cfg, driver, s.(history := s.history + Executions(query, init)), query, last);
    }
  }

  /** A write on an open connection: one more call, counted exactly when the
      driver reports a positive row count. */
  lemma OpenWriteStep(cfg: Config, driver: Driver, s: Session, query: string, params: seq<Value>)
    requires s.open && !IsRead(query)
    ensures var r := ExecuteStep(cfg, driver, s, query, params);
      var reply := driver(s.history + [Execute(query, params)]);
      && r.0 == s.(history := s.history + [Execute(query, params)])
      && (r.1.Affected? && r.1.count > 0 <==> reply.Done? && reply.rowCount > 0)
  {
  }

  lemma RepliesNext(driver: Driver, history: seq<Call>, query: string, tuples: seq<seq<Value>>)
    requires tuples != []
    ensures var init := tuples[..|tuples| - 1];
      var replies := Replies(driver, history, query, tuples);
      && history + Executions(query, tuples) == history + Executions(query, init) + [Execute(query, tuples[|tuples| - 1])]
      && replies[..|tuples| - 1] == Replies(driver, history, query, init)
      && replies[|tuples| - 1] == driver(history + Executions(query, tuples))
  {
    var init := tuples[..|tuples| - 1];
    assert Executions(query, tuples) == Executions(query, init) + [Execute(query, tuples[|tuples| - 1])];
    var replies := Replies(driver, history, query, tuples);
    forall k | 0 <= k < |init| ensures replies[k] == Replies(driver, history, query, init)[k] {
      assert tuples[..k + 1] == init[..k + 1];
    }
    assert tuples[..|tuples|] == tuples;
  }

  /** A driver that refuses every statement whose tuple does not match its
      markers, as ODBC drivers do. */
  ghost predicate RejectsMismatch(driver: Driver) {
    forall h: seq<Call> | |h| > 0 && h[|h| - 1].Execute? && Markers(h[|h| - 1].query) != |h[|h| - 1].params| ::
      driver(h).Failed?
  }

  /** Against such a driver, a loader whose tuples never match its statement
      counts nothing, whatever the connection does. */
  lemma {:induction false} LoadMismatchCountsNothing(cfg: Config, driver: Driver, s: Session, query: string, tuples: seq<seq<Value>>)
    requires RejectsMismatch(driver)
    requires forall t | t in tuples :: |t| != Markers(query)
    ensures LoadStep(cfg, driver, s, query, tuples).1 == 0
  {
    if tuples != [] {
      var init := tuples[..|tuples| - 1];
      assert forall t | t in init :: t in tuples;
      LoadMismatchCountsNothing(cfg, driver, s, query, init);
      var before := LoadStep(cfg, driver, s, query, init);
      var last := tuples[|tuples| - 1];
      assert last in tuples;
      var connected := if before.0.open then (before.0, true) else ConnectStep(cfg, driver, before.0, None);
      if connected.1 {
        var h := connected.0.history + [Execute(query, last)];
        assert h[|h| - 1] == Execute(query, last);
      }
    }
  }

  /** The employee loader as written: every tuple it builds is two values
      short, so against a driver that checks the tuple it inserts nothing. */
  lemma EmployeeLoadAsWrittenCountsNothing(cfg: Config, driver: Driver, s: Session, records: seq<Record>)
    requires RejectsMismatch(driver)
    ensures LoadStep(cfg, driver, s, EmployeeInsert(), ValidTuples(EmployeeParamsAsWritten, Numbered(records))).1 == 0
  {
    var tuples := ValidTuples(EmployeeParamsAsWritten, Numbered(records));
    ValidTuplesFromRecords(EmployeeParamsAsWritten, Numbered(records));
    EmployeeInsertMarkers();
    forall t | t in tuples ensures |t| != Markers(EmployeeInsert()) {
      var k :| 0 <= k < |Numbered(records)| && EmployeeParamsAsWritten(Numbered(records)[k]) == Some(t);
    }
    LoadMismatchCountsNothing(cfg, driver, s, EmployeeInsert(), tuples);
  }

  /** With the corrected tuple, every employee tuple matches the statement,
      as the customer and order tuples do. */
  lemma LoadTuplesFit(records: seq<Record>)
    ensures forall t | t in ValidTuples(CustomerParams, records) :: |t| == Markers(CustomerInsert())
    ensures forall t | t in ValidTuples(EmployeeParams, Numbered(records)) :: |t| == Markers(EmployeeInsert())
    ensures forall t | t in ValidTuples(OrderParams, records) :: |t| == Markers(OrderInsert())
  {
    ValidTuplesFromRecords(CustomerParams, records);
    ValidTuplesFromRecords(EmployeeParams, Numbered(records));
    ValidTuplesFromRecords(OrderParams, records);
  }

  /** One more tuple is one more execution after the earlier ones. */
  lemma LoadStepNext(cfg: Config, driver: Driver, s: Session, query: string, tuples: seq<seq<Value>>, t: seq<Value>)
    ensures var before := LoadStep(cfg, driver, s, query, tuples);
      var after := ExecuteStep(cfg, driver, before.0, query, t);
      LoadStep(cfg, driver, s, query, tuples + [t])
        == (after.0, if after.1.Affected? && after.1.count > 0 then before.1 + 1 else before.1)
  {
    var longer := tuples + [t];
    assert longer[..|longer| - 1] == tuples && longer[|longer| - 1] == t;
  }

  class Database {
    const cfg: Config
    const driver: Driver
    /** Whether `conn` holds a connection. */
    var open: bool
    var connectionString: Option<string>
    /** Every call made to the driver so far. */
    var history: seq<Call>

    function State(): Session
      reads this
    {
      Session(open, connectionString, history)
    }

    constructor(cfg: Config, driver: Driver)
      ensures this.cfg == cfg && this.driver == driver
      ensures State() == Session(false, None, [])
    {
      this.cfg := cfg;
      this.driver := driver;
      open := false;
      connectionString := None;
      history := [];
    }

    method Connect(password: Option<string>) returns (ok: bool)
      modifies this
      ensures (State(), ok) == ConnectStep(cfg, driver, old(State()), password)
    {
      connectionString := Some(ConnectionString(cfg, password));
      history := history + [Open(connectionString.value)];
      if driver(history).Failed? {
        return false;
      }
      open := true;
      return true;
    }

    method ExecuteQuery(query: string, params: seq<Value>) returns (result: QueryResult)
      modifies this
      ensures (State(), result) == ExecuteStep(cfg, driver, old(State()), query, params)
    {
      if !open {
        var ok := Connect(None);
        if !ok {
          return NoResult;
        }
      }
      history := history + [Execute(query, params)];
      var reply := driver(history);
      if reply.Failed? {
        return NoResult;
      }
      if !IsRead(query) {
        return Affected(reply.rowCount);
      }
      if reply.description.None? {
        // No result set: iterating the description raises.
        return NoResult;
      }
      var dicts := ShapeRows(reply.description.value, reply.rows);
      if dicts.None? {
        return NoResult;
      }
      return Rows(dicts.value);
    }

    /** The insert loop shared by the three loaders: skip a record `params`
        refuses, send the others, count the positive row counts. */
    method InsertRecords(query: string, params: Record -> Option<seq<Value>>, records: seq<Record>)
      returns (inserted: nat)
      modifies this
      ensures (State(), inserted) == LoadStep(cfg, driver, old(State()), query, ValidTuples(params, records))
    {
      inserted := 0;
      ghost var start := State();
      for i := 0 to |records|
        invariant (State(), inserted) == LoadStep(cfg, driver, start, query, ValidTuples(params, records[..i]))
      {
        ghost var sent := ValidTuples(params, records[..i]);
        ValidTuplesNext(params, records, i);
        var tuple := params(records[i]);
        if tuple.None? {
          assert ValidTuples(params, records[..i + 1]) == sent;
          continue;
        }
        assert ValidTuples(params, records[..i + 1]) == sent + [tuple.value];
        LoadStepNext(cfg, driver, start, query, sent, tuple.value);
        ghost var prior := LoadStep(cfg, driver, start, query, sent);
        assert State() == prior.0 && inserted == prior.1;
        var result := ExecuteQuery(query, tuple.value);
        assert (State(), result) == ExecuteStep(cfg, driver, prior.0, query, tuple.value);
        if result.Affected? && result.count > 0 {
          inserted := inserted + 1;
        }
      }
      assert records[..|records|] == records;
    }

    method InsertCustomersFromCsv(source: Source, tokenize: Tokenizer) returns (inserted: nat)
      modifies this
      ensures (State(), inserted) ==
        LoadStep(cfg, driver, old(State()), CustomerInsert(), ValidTuples(CustomerParams, Records(source, tokenize)))
    {
      var customers := ReadCsvData(source, tokenize);
      inserted := InsertRecords(CustomerInsert(), CustomerParams, customers);
    }

    /** Uses the corrected employee tuple. */
    method InsertEmployeesFromCsv(source: Source, tokenize: Tokenizer) returns (inserted: nat)
      modifies this
      ensures (State(), inserted) ==
        LoadStep(cfg, driver, old(State()), EmployeeInsert(), ValidTuples(EmployeeParams, Numbered(Records(source, tokenize))))
    {
      var employees := ReadCsvData(source, tokenize);
      employees := NumberEmployees(employees);
      inserted := InsertRecords(EmployeeInsert(), EmployeeParams, employees);
    }

    method InsertOrdersFromCsv(source: Source, tokenize: Tokenizer) returns (inserted: nat)
      modifies this
      ensures (State(), inserted) ==
        LoadStep(cfg, driver, old(State()), OrderInsert(), ValidTuples(OrderParams, Records(source, tokenize)))
    {
      var orders := ReadCsvData(source, tokenize);
      inserted := InsertRecords(OrderInsert(), OrderParams, orders);
    }

    method SelectDataWithCondition(table: string, condition: Option<string>) returns (result: QueryResult)
      modifies this
      ensures (State(), result) == ExecuteStep(cfg, driver, old(State()), SelectQuery(table, condition), [])
      ensures !result.Affected?
    {
      SelectQueryIsRead(table, condition);
      result := ExecuteQuery(SelectQuery(table, condition), []);
    }

    method UpdateRecord(table: string, setValues: seq<(string, Value)>, condition: string) returns (result: QueryResult)
      modifies this
      ensures (State(), result) == ExecuteStep(cfg, driver, old(State()),
        UpdateQuery(table, SetParts(setValues), condition), SetParams(setValues))
      ensures !result.Rows?
    {
      var query, params := BuildUpdate(table, setValues, condition);
      DeleteAndUpdateAreWrites(table, SetParts(setValues), condition);
      result := ExecuteQuery(query, params);
    }

    method DeleteRecord(table: string, condition: string) returns (result: QueryResult)
      modifies this
      ensures (State(), result) == ExecuteStep(cfg, driver, old(State()), DeleteQuery(table, condition), [])
      ensures !result.Rows?
    {
      DeleteAndUpdateAreWrites(table, [], condition);
      result := ExecuteQuery(DeleteQuery(table, condition), []);
    }

    method CloseConnection()
      modifies this
      ensures State() == CloseStep(old(State()))
    {
      if open {
        history := history + [Close];
        open := false;
      }
    }
  }
}
