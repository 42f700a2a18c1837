/** PostgreSQLDriver: one session against the server. The server's committed tables live in
    `Server`; the session sees its own uncommitted work, and a statement that fails leaves the
    transaction aborted until it is committed (which then rolls back) or rolled back. */
module Driver {
  import opened Values
  import opened Schema
  import opened Sql
  import opened Store

  /** The database server: its committed tables. */
  class Server {
    var state: Store

    constructor (initial: Store)
      ensures state == initial
    {
      state := initial;
    }
  }

  /** `self.connection`: never set, open, or closed by disconnect(). */
  datatype Conn = NoConnection | Open | Closed

  /** The session's part of the driver: the connection, whether the current transaction has
      failed, the tables as the session sees them, and CURRENT_TIMESTAMP for the session. */
  datatype Session = Session(connection: Conn, aborted: bool, work: Store, clock: int)

  /** `cursor.execute(call)`: refused without an open connection and after an earlier failure
      in the same transaction; otherwise the server runs it against the session's view, and a
      failure aborts the transaction. */
  function Exec(s: Session, call: Call): (Session, Result<Reply>)
  {
    if s.connection != Open then (s, Err(NotConnected))
    else if s.aborted then (s, Err(InFailedTransaction))
    else match Run(s.work, call, s.clock)
      case Ok((db, reply)) => (s.(work := db), Ok(reply))
      case Err(e) => (s.(aborted := true), Err(e))
  }

  /** What a COMMIT leaves on the server: the session's work, unless the transaction failed,
      in which case PostgreSQL rolls it back. */
  function Committed(server: Store, s: Session): Store
  {
    if s.aborted then server else s.work
  }

  /** One step of a `with db.transaction():` block. `Statement` is a driver call that
      re-raises its failure (execute_query, execute_command, insert, update, delete, ...);
      `Quiet` is one that catches its own failure and reports it as a result (create_table
      gives False); `Raise` is an exception raised in the block without sending anything,
      such as insert_many's KeyError or one from the caller's own code. */
  datatype Step = Statement(call: Call) | Quiet(call: Call) | Raise(error: Error)

  /** The steps of a block, run one after another until the first exception reaches the
      block; each step that ran leaves its outcome (a swallowed failure stays an `Err`). */
  function RunBlock(s: Session, steps: seq<Step>): (Session, Result<seq<Result<Reply>>>)
    decreases |steps|
  {
    if steps == [] then (s, Ok([]))
    else
      var (s1, r1) := RunBlock(s, steps[..|steps| - 1]);
      if r1.Err? then (s1, r1)
      else match steps[|steps| - 1]
        case Raise(e) => (s1, Err(e))
        case Statement(call) =>
          var (s2, r2) := Exec(s1, call);
          if r2.Ok? then (s2, Ok(r1.value + [r2])) else (s2, Err(r2.error))
        case Quiet(call) =>
          var (s2, r2) := Exec(s1, call);
          (s2, Ok(r1.value + [r2]))
  }

  // ---------------------------------------------------------------------------
  // The driver's operations on a session, as functions

  function SelectOp(s: Session, t: string, columns: seq<string>, where: Dict, orderBy: seq<SortKey>,
                    limit: Option<int>, offset: Option<int>): (Session, Result<seq<Record>>)
  {
    var (s', r) := Exec(s, SelectCall(t, columns, where, orderBy, limit, offset));
    (s', if r.Ok? then Ok(r.value.rows) else Err(r.error))
  }

  function SelectByIdOp(s: Session, t: string, id: int): (Session, Result<Option<Record>>)
  {
    var (s', r) := Exec(s, SelectByIdCall(t, id));
    (s', if r.Err? then Err(r.error) else if r.value.rows == [] then Ok(None) else Ok(Some(r.value.rows[0])))
  }

  /** `result[0]['count']`. */
  function CountOf(reply: Reply): Result<int>
  {
    if reply.rows == [] then Err(KeyMissing("count"))
    else if "count" in reply.rows[0] && reply.rows[0]["count"].Int? then Ok(reply.rows[0]["count"].i)
    else Err(KeyMissing("count"))
  }

  function CountOp(s: Session, t: string, where: Dict): (Session, Result<int>)
  {
    var (s', r) := Exec(s, CountCall(t, where));
    (s', if r.Err? then Err(r.error) else CountOf(r.value))
  }

  function ExistsOp(s: Session, t: string, where: Dict): (Session, Result<bool>)
  {
    var (s', n) := CountOp(s, t, where);
    (s', if n.Err? then Err(n.error) else Ok(n.value > 0))
  }

  /** The id of the inserted row with `return_id`, NULL (Python None) without it. */
  function InsertOp(s: Session, t: string, data: Dict, returningId: bool): (Session, Result<Value>)
  {
    var (s', r) := Exec(s, InsertCall(t, data, returningId));
    (s', if r.Err? then Err(r.error)
         else if returningId && r.value.rows != [] then Ok(Field(r.value.rows[0], "id"))
         else Ok(Null))
  }

  function InsertManyOp(s: Session, t: string, records: seq<Dict>): (Session, Result<int>)
  {
    if records == [] then (s, Ok(0))
    else match InsertManyCall(t, records)
      case Err(e) => (s, Err(e))
      case Ok(call) =>
        var (s', r) := Exec(s, call);
        (s', if r.Err? then Err(r.error) else Ok(|records|))
  }

  function UpdateOp(s: Session, t: string, data: Dict, where: Dict): (Session, Result<int>)
  {
    var (s', r) := Exec(s, UpdateCall(t, data, where));
    (s', if r.Err? then Err(r.error) else Ok(r.value.rowcount))
  }

  function DeleteOp(s: Session, t: string, where: Dict): (Session, Result<int>)
  {
    var (s', r) := Exec(s, DeleteCall(t, where));
    (s', if r.Err? then Err(r.error) else Ok(r.value.rowcount))
  }

  // ---------------------------------------------------------------------------
  // Properties of a session

  /** Without an open connection every statement is refused and nothing changes. */
  lemma GuardRefusesAll(s: Session, call: Call)
    requires s.connection != Open
    ensures Exec(s, call) == (s, Err(NotConnected))
  {
  }

  /** A failed statement aborts the transaction: every later statement fails without effect,
      and a commit then keeps the server as it was. */
  lemma FailureIsSticky(s: Session, call: Call, later: Call, server: Store)
    requires Exec(s, call).1.Err?
    ensures var s1 := Exec(s, call).0;
      && s1.work == s.work
      && Exec(s1, later).0 == s1 && Exec(s1, later).1.Err?
      && (s.connection == Open ==> Committed(server, s1) == server)
  {
  }

  /** Once an exception reaches a block, the block's outcome is that exception. */
  lemma {:induction false} RunBlockStopsAtError(s: Session, steps: seq<Step>, n: nat)
    requires n <= |steps| && RunBlock(s, steps[..n]).1.Err?
    ensures RunBlock(s, steps) == RunBlock(s, steps[..n])
    decreases |steps| - n
  {
    if n < |steps| {
      assert steps[..n + 1][..n] == steps[..n];
      RunBlockStopsAtError(s, steps, n + 1);
    } else {
      assert steps[..n] == steps;
    }
  }

  /** A block that no exception left ran every step, every re-raising statement in it
      succeeded, and its transaction is aborted exactly when it was on entry or some
      swallowed failure happened inside it. */
  lemma {:induction false} RunBlockOutcome(s: Session, steps: seq<Step>)
    requires s.connection == Open && RunBlock(s, steps).1.Ok?
    ensures var (s', r) := RunBlock(s, steps);
      && |r.value| == |steps|
      && s'.connection == Open
      && (forall i :: 0 <= i < |steps| ==> !steps[i].Raise?)
      && (forall i :: 0 <= i < |steps| && steps[i].Statement? ==> r.value[i].Ok?)
      && (s'.aborted <==> s.aborted || exists i :: 0 <= i < |steps| && r.value[i].Err?)
    decreases |steps|
  {
    if steps != [] {
      var p := steps[..|steps| - 1];
      RunBlockOutcome(s, p);
      var (s1, r1) := RunBlock(s, p);
      var (s', r) := RunBlock(s, steps);
      var (s2, r2) := Exec(s1, steps[|steps| - 1].call);
      assert r.value == r1.value + [r2];
      forall i | 0 <= i < |steps|
        ensures !steps[i].Raise?
        ensures steps[i].Statement? ==> r.value[i].Ok?
      {
        if i < |p| {
          assert steps[i] == p[i];
        }
      }
      SomeErrorAppend(r1.value, r2);
      assert s'.aborted <==> s1.aborted || r2.Err?;
    }
  }

  lemma SomeErrorAppend(a: seq<Result<Reply>>, x: Result<Reply>)
    ensures (exists i :: 0 <= i < |a + [x]| && (a + [x])[i].Err?) <==> (exists i :: 0 <= i < |a| && a[i].Err?) || x.Err?
  {
    if exists i :: 0 <= i < |a + [x]| && (a + [x])[i].Err? {
      var i :| 0 <= i < |a + [x]| && (a + [x])[i].Err?;
      if i < |a| {
        assert a[i].Err?;
      }
    }
    if exists i :: 0 <= i < |a| && a[i].Err? {
      var i :| 0 <= i < |a| && a[i].Err?;
      assert (a + [x])[i].Err?;
    }
    if x.Err? {
      assert (a + [x])[|a|].Err?;
    }
  }

  /** What the commit at the end of a block that no exception left stores: the block's work
      when nothing in it failed, and nothing at all when a failure was swallowed inside it,
      because PostgreSQL turns the commit of an aborted transaction into a rollback. */
  lemma BlockCommit(s: Session, steps: seq<Step>, server: Store)
    requires s.connection == Open && RunBlock(s, steps).1.Ok?
    ensures var (s', r) := RunBlock(s, steps);
      Committed(server, s') == (if s.aborted || exists i :: 0 <= i < |r.value| && r.value[i].Err?
                                then server else s'.work)
  {
    RunBlockOutcome(s, steps);
  }

  /** `exists(t, w)` is true exactly when some row the session sees satisfies `w`. */
  lemma ExistsIffMatchingRow(s: Session, t: string, where: Dict)
    requires ExistsOp(s, t, where).1.Ok?
    ensures t in s.work
    ensures ExistsOp(s, t, where).1.value <==> exists r :: r in s.work[t].rows && Holds(r, where)
    ensures ExistsOp(s, t, where).0 == s
  {
    CountPositiveIff(s.work, t, where, s.clock);
    CountMatchesSelect(s.work, t, where, s.clock);
  }

  /** `select_by_id` gives the first row with that id, or None when no row has it. */
  lemma SelectByIdFirst(s: Session, t: string, id: int)
    requires SelectByIdOp(s, t, id).1.Ok?
    ensures t in s.work && SelectByIdOp(s, t, id).0 == s
    ensures var found := SelectByIdOp(s, t, id).1.value;
      && (found.None? <==> forall r :: r in s.work[t].rows ==> Field(r, "id") != Int(id))
      && (found.Some? ==> found.value == Filter(s.work[t].rows, [("id", Int(id))])[0])
      && (found.Some? ==> found.value in s.work[t].rows && Field(found.value, "id") == Int(id))
  {
    var call := SelectByIdCall(t, id);
    assert [] + call.stmt.whereCols + SortColumns([]) == ["id"];
    assert FirstUnknown(s.work[t], ["id"]).None?;
    SelectByIdFinds(s.work, t, id, s.clock);
    FirstWithId(s.work[t].rows, id);
  }

  /** The rows holding an id are none exactly when no row has it, and the first of them has it. */
  lemma FirstWithId(rows: seq<Record>, id: int)
    ensures var m := Filter(rows, [("id", Int(id))]);
      && (m == [] <==> forall r :: r in rows ==> Field(r, "id") != Int(id))
      && (m != [] ==> m[0] in rows && Field(m[0], "id") == Int(id))
  {
    var f := [("id", Int(id))];
    var m := Filter(rows, f);
    if m != [] {
      assert m[0] in m;
      assert Holds(m[0], f) && f[0] == ("id", Int(id));
    }
    forall r | r in rows && Field(r, "id") == Int(id) ensures m != [] {
      assert Holds(r, [("id", Int(id))]);
      assert r in m;
    }
  }

  // ---------------------------------------------------------------------------
  // The driver object

  class PostgreSQLDriver {
    const server: Server
    var connection: Conn
    var inTransaction: bool
    var aborted: bool
    var work: Store
    var clock: int

    /** The driver's session state. */
    function Snapshot(): Session
      reads this
    {
      Session(connection, aborted, work, clock)
    }

    constructor (server: Server)
      ensures this.server == server
      ensures connection == NoConnection && !inTransaction && !aborted && work == server.state
    {
      this.server := server;
      connection := NoConnection;
      inTransaction := false;
      aborted := false;
      work := server.state;
      clock := 0;
    }

    /** A connection exists and has not been closed. */
    predicate IsConnected()
      reads this
    {
      connection == Open
    }

    /** connect(): `reachable` stands for whether psycopg2.connect succeeds and `now` for the
        server's clock; a new session sees the committed tables. */
    method Connect(reachable: bool, now: int) returns (ok: bool)
      modifies this
      ensures ok == reachable
      ensures ok ==> Snapshot() == Session(Open, false, server.state, now)
      ensures !ok ==> Snapshot() == old(Snapshot())
      ensures inTransaction == old(inTransaction)
    {
      ok := reachable;
      if ok {
        connection := Open;
        aborted := false;
        work := server.state;
        clock := now;
      }
    }

    /** disconnect(): closes an existing connection; its uncommitted work is lost. */
    method Disconnect()
      modifies this
      ensures connection == (if old(connection) == NoConnection then NoConnection else Closed)
      ensures !aborted && work == server.state && clock == old(clock) && inTransaction == old(inTransaction)
    {
      if connection != NoConnection {
        connection := Closed;
      }
      aborted := false;
      work := server.state;
    }

    /** connection.commit(): fails on a connection that is not open; on an aborted transaction
        it rolls back. */
    method Commit() returns (ok: bool)
      modifies this, server
      ensures ok == (old(connection) == Open)
      ensures server.state == (if ok then Committed(old(server.state), old(Snapshot())) else old(server.state))
      ensures ok ==> Snapshot() == Session(Open, false, server.state, old(clock))
      ensures !ok ==> Snapshot() == old(Snapshot())
      ensures inTransaction == old(inTransaction)
    {
      ok := connection == Open;
      if ok {
        if !aborted {
          server.state := work;
        }
        work := server.state;
        aborted := false;
      }
    }

    /** connection.rollback(). */
    method Rollback() returns (ok: bool)
      modifies this
      ensures ok == (old(connection) == Open)
      ensures ok ==> Snapshot() == Session(Open, false, server.state, old(clock))
      ensures !ok ==> Snapshot() == old(Snapshot())
      ensures inTransaction == old(inTransaction)
    {
      ok := connection == Open;
      if ok {
        work := server.state;
        aborted := false;
      }
    }

    /** cursor.execute(call), without the driver's own connection check. */
    method CursorExecute(call: Call) returns (r: Result<Reply>)
      modifies this
      ensures (Snapshot(), r) == Exec(old(Snapshot()), call)
      ensures inTransaction == old(inTransaction)
    {
      if connection != Open {
        return Err(NotConnected);
      }
      if aborted {
        return Err(InFailedTransaction);
      }
      match Run(work, call, clock)
      case Ok((db, reply)) =>
        work := db;
        r := Ok(reply);
      case Err(e) =>
        aborted := true;
        r := Err(e);
    }

    /** execute_query: raises when not connected, else the fetched rows. */
    method ExecuteQuery(call: Call) returns (r: Result<seq<Record>>)
      modifies this
      ensures !old(IsConnected()) ==> r == Err(NotConnected) && Snapshot() == old(Snapshot())
      ensures var (s, x) := Exec(old(Snapshot()), call);
        Snapshot() == s && r == (if x.Ok? then Ok(x.value.rows) else Err(x.error))
      ensures inTransaction == old(inTransaction)
    {
      if !IsConnected() {
        return Err(NotConnected);
      }
      var x := CursorExecute(call);
      r := if x.Ok? then Ok(x.value.rows) else Err(x.error);
    }

    /** execute_command: raises when not connected, else cursor.rowcount. */
    method ExecuteCommand(call: Call) returns (r: Result<int>)
      modifies this
      ensures !old(IsConnected()) ==> r == Err(NotConnected) && Snapshot() == old(Snapshot())
      ensures var (s, x) := Exec(old(Snapshot()), call);
        Snapshot() == s && r == (if x.Ok? then Ok(x.value.rowcount) else Err(x.error))
      ensures inTransaction == old(inTransaction)
    {
      if !IsConnected() {
        return Err(NotConnected);
      }
      var x := CursorExecute(call);
      r := if x.Ok? then Ok(x.value.rowcount) else Err(x.error);
    }

    /** `with db.transaction():` around a block of steps: refused without a connection;
        otherwise, when no exception leaves the block, it is committed (storing nothing if a
        failure was swallowed inside it), and when one does, everything since the last commit
        is rolled back and the exception re-raised. The flag is cleared on every path that
        entered the block. */
    method Transaction(steps: seq<Step>) returns (r: Result<seq<Result<Reply>>>)
      modifies this, server
      ensures !old(IsConnected()) ==> r == Err(NotConnected) && Snapshot() == old(Snapshot())
                                      && server.state == old(server.state) && inTransaction == old(inTransaction)
      ensures old(IsConnected()) ==>
        && r == RunBlock(old(Snapshot()), steps).1
        && !inTransaction && connection == Open && !aborted && work == server.state
      ensures old(IsConnected()) && r.Ok? ==>
        server.state == Committed(old(server.state), RunBlock(old(Snapshot()), steps).0)
      ensures old(IsConnected()) && r.Ok? && (old(aborted) || exists i :: 0 <= i < |r.value| && r.value[i].Err?) ==>
        server.state == old(server.state)
      ensures old(IsConnected()) && r.Err? ==> server.state == old(server.state)
    {
      if !IsConnected() {
        return Err(NotConnected);
      }
      inTransaction := true;
      var outcomes: seq<Result<Reply>> := [];
      var i := 0;
      while i < |steps|
        invariant 0 <= i <= |steps|
        invariant server.state == old(server.state) && inTransaction && connection == Open
        invariant (Snapshot(), Ok(outcomes)) == RunBlock(old(Snapshot()), steps[..i])
      {
        assert steps[..i + 1][..i] == steps[..i];
        var raised: Option<Error> := None;
        match steps[i] {
          case Raise(e) =>
            raised := Some(e);
          case Statement(call) =>
            var x := CursorExecute(call);
            if x.Err? {
              raised := Some(x.error);
            } else {
              outcomes := outcomes + [x];
            }
          case Quiet(call) =>
            var x := CursorExecute(call);
            outcomes := outcomes + [x];
        }
        if raised.Some? {
          RunBlockStopsAtError(old(Snapshot()), steps, i + 1);
          r := Err(raised.value);
          var _ := Rollback();
          inTransaction := false;
          return;
        }
        i := i + 1;
      }
      assert steps[..i] == steps;
      BlockCommit(old(Snapshot()), steps, old(server.state));
      r := Ok(outcomes);
      var _ := Commit();
      inTransaction := false;
    }

    /** create_table from a model's COLUMNS: any failure gives False; a success is committed
        at once unless a transaction block is open. */
    method CreateTable(table: string, columns: seq<ColumnDef>, constraints: seq<string>) returns (ok: bool)
      modifies this, server
      ensures var (s, x) := Exec(old(Snapshot()), CreateTableCall(table, columns, constraints));
        && ok == (old(IsConnected()) && x.Ok?)
        && (ok && !old(inTransaction) ==> server.state == s.work && Snapshot() == s)
        && (!(ok && !old(inTransaction)) ==> server.state == old(server.state) && Snapshot() == s)
      ensures inTransaction == old(inTransaction)
    {
      var defs := ColumnDefinitions(columns, constraints);
      var call := Call(CreateTableStmt(table, columns, defs), NoParams);
      var x := ExecuteCommand(call);
      ok := x.Ok?;
      if ok && connection != NoConnection && !inTransaction {
        var _ := Commit();
      }
    }

    /** insert: with `return_id` the statement goes straight to the cursor (the driver's
        connection check is skipped) and the new row's id is returned; without it, None. */
    method Insert(table: string, data: Dict, returnId: bool) returns (r: Result<Value>)
      modifies this
      ensures (Snapshot(), r) == InsertOp(old(Snapshot()), table, data, returnId)
      ensures inTransaction == old(inTransaction)
    {
      var columns, values := EqualityList(data);
      var call := Call(InsertStmt(table, columns, returnId), Tuple(values));
      if returnId {
        var x := CursorExecute(call);
        r := if x.Err? then Err(x.error)
             else if x.value.rows != [] then Ok(Field(x.value.rows[0], "id"))
             else Ok(Null);
      } else {
        var x := ExecuteCommand(call);
        r := if x.Err? then Err(x.error) else Ok(Null);
      }
    }

    /** insert_many: nothing is sent for an empty list; otherwise the columns are those of the
        first record and the result is the number of records. */
    method InsertMany(table: string, records: seq<Dict>) returns (r: Result<int>)
      modifies this
      ensures (Snapshot(), r) == InsertManyOp(old(Snapshot()), table, records)
      ensures records == [] ==> r == Ok(0) && Snapshot() == old(Snapshot())
      ensures inTransaction == old(inTransaction)
    {
      if records == [] {
        return Ok(0);
      }
      var call := InsertManyCall(table, records);
      if call.Err? {
        return Err(call.error);
      }
      var x := CursorExecute(call.value);
      r := if x.Err? then Err(x.error) else Ok(|records|);
    }

    method Select(table: string, columns: seq<string>, where: Dict, orderBy: seq<SortKey>,
                  limit: Option<int>, offset: Option<int>) returns (r: Result<seq<Record>>)
      modifies this
      ensures (Snapshot(), r) == SelectOp(old(Snapshot()), table, columns, where, orderBy, limit, offset)
      ensures inTransaction == old(inTransaction)
    {
      var whereCols, params := EqualityList(where);
      var call := Call(SelectStmt(table, columns, whereCols, orderBy, Truthy(limit), Truthy(offset)),
                       if params == [] then NoParams else Tuple(params));
      r := ExecuteQuery(call);
    }

    method SelectById(table: string, id: int) returns (r: Result<Option<Record>>)
      modifies this
      ensures (Snapshot(), r) == SelectByIdOp(old(Snapshot()), table, id)
      ensures inTransaction == old(inTransaction)
    {
      var rows := ExecuteQuery(SelectByIdCall(table, id));
      r := if rows.Err? then Err(rows.error) else if rows.value == [] then Ok(None) else Ok(Some(rows.value[0]));
    }

    method Update(table: string, data: Dict, where: Dict) returns (r: Result<int>)
      modifies this
      ensures (Snapshot(), r) == UpdateOp(old(Snapshot()), table, data, where)
      ensures inTransaction == old(inTransaction)
    {
      var setCols, setParams := EqualityList(data);
      var whereCols, whereParams := EqualityList(where);
      r := ExecuteCommand(Call(UpdateStmt(table, setCols, whereCols), Tuple(setParams + whereParams)));
    }

    /** update_by_id is update with the filter `{'id': id}`. */
    method UpdateById(table: string, id: int, data: Dict) returns (r: Result<int>)
      modifies this
      ensures (Snapshot(), r) == UpdateOp(old(Snapshot()), table, data, [("id", Int(id))])
      ensures inTransaction == old(inTransaction)
    {
      r := Update(table, data, [("id", Int(id))]);
    }

    method Delete(table: string, where: Dict) returns (r: Result<int>)
      modifies this
      ensures (Snapshot(), r) == DeleteOp(old(Snapshot()), table, where)
      ensures inTransaction == old(inTransaction)
    {
      var whereCols, params := EqualityList(where);
      r := ExecuteCommand(Call(DeleteStmt(table, whereCols), Tuple(params)));
    }

    /** delete_by_id is delete with the filter `{'id': id}`. */
    method DeleteById(table: string, id: int) returns (r: Result<int>)
      modifies this
      ensures (Snapshot(), r) == DeleteOp(old(Snapshot()), table, [("id", Int(id))])
      ensures inTransaction == old(inTransaction)
    {
      r := Delete(table, [("id", Int(id))]);
    }

    method Count(table: string, where: Dict) returns (r: Result<int>)
      modifies this
      ensures (Snapshot(), r) == CountOp(old(Snapshot()), table, where)
      ensures inTransaction == old(inTransaction)
    {
      var whereCols, params := EqualityList(where);
      var rows := ExecuteQuery(Call(CountStmt(table, whereCols), if params == [] then NoParams else Tuple(params)));
      r := if rows.Err? then Err(rows.error) else CountOf(Reply(rows.value, 0));
    }

    /** exists is `count(...) > 0`. */
    method Exists(table: string, where: Dict) returns (r: Result<bool>)
      modifies this
      ensures (Snapshot(), r) == ExistsOp(old(Snapshot()), table, where)
      ensures inTransaction == old(inTransaction)
    {
      var n := Count(table, where);
      r := if n.Err? then Err(n.error) else Ok(n.value > 0);
    }

    /** __enter__: connect, or raise. */
    method Enter(reachable: bool, now: int) returns (r: Result<()>)
      modifies this
      ensures r.Ok? == reachable && (reachable || r == Err(ConnectFailed))
      ensures reachable ==> Snapshot() == Session(Open, false, server.state, now)
      ensures !reachable ==> Snapshot() == old(Snapshot())
      ensures inTransaction == old(inTransaction)
    {
      var ok := Connect(reachable, now);
      r := if ok then Ok(()) else Err(ConnectFailed);
    }

    /** __exit__: commits when a connection exists and no transaction block is open (a failed
        commit is only logged), then always disconnects. */
    method Exit()
      modifies this, server
      ensures server.state == (if old(connection) == Open && !old(inTransaction)
                               then Committed(old(server.state), old(Snapshot())) else old(server.state))
      ensures connection != Open && connection == (if old(connection) == NoConnection then NoConnection else Closed)
      ensures !aborted && work == server.state && inTransaction == old(inTransaction)
    {
      if connection != NoConnection && !inTransaction {
        var _ := Commit();
      }
      Disconnect();
    }
  }
}
