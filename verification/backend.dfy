/** The booking backend: each operation opens its own driver session (`with PostgreSQLDriver()
    as db:`), does its work, leaves through __exit__ (which commits), and reports any error as
    None, False or an empty list. `reachable` stands for whether the server accepts the
    connection and `now` for the server's clock when it does. */
module Backend {
  import opened Values
  import opened Sql
  import opened Store
  import opened Ordering
  import opened Driver
  import opened Availability
  import BookingModel

  /** User.TABLE_NAME and Table.TABLE_NAME. */
  const UserTableName: string := "users"
  const TableTableName: string := "tables"

  /** A session just opened against the committed tables. */
  function Fresh(state: Store, now: int): Session
  {
    Session(Open, false, state, now)
  }

  /** The value a backend function returns for an id the driver gave back, or None on error. */
  function Returned(r: Result<Value>): Value
  {
    if r.Ok? then r.value else Null
  }

  /** A Python `Optional[str]` as a column value. */
  function OptText(s: Option<string>): Value
  {
    if s.Some? then Text(s.value) else Null
  }

  // ---------------------------------------------------------------------------
  // Reads leave the server as it was

  /** A select or a count changes nothing the session would commit. */
  lemma QueryKeepsServer(state: Store, now: int, call: Call)
    requires call.stmt.SelectStmt? || call.stmt.CountStmt?
    ensures Committed(state, Exec(Fresh(state, now), call).0) == state
  {
  }

  // ---------------------------------------------------------------------------
  // Generic wrappers: one session, one driver call

  /** `get_*_by_id`: the row with that id, or None when there is none or anything failed. */
  method GetById(server: Server, reachable: bool, now: int, table: string, id: int) returns (found: Option<Record>)
    modifies server
    ensures var r := SelectByIdOp(Fresh(old(server.state), now), table, id).1;
      found == (if reachable && r.Ok? then r.value else None)
    ensures server.state == old(server.state)
  {
    var db := new PostgreSQLDriver(server);
    var entered := db.Enter(reachable, now);
    if entered.Err? {
      return None;
    }
    var r := db.SelectById(table, id);
    found := if r.Ok? then r.value else None;
    QueryKeepsServer(old(server.state), now, SelectByIdCall(table, id));
    db.Exit();
  }

  /** The filter of `get_all_*`: `is_active` when it is given, none otherwise. */
  function ActiveFilter(isActive: Option<bool>): Dict
  {
    if isActive.Some? then [("is_active", Bool(isActive.value))] else []
  }

  /** `get_all_users` / `get_all_tables`: every row, or those with the given `is_active`;
      [] when anything failed. */
  method GetAll(server: Server, reachable: bool, now: int, table: string, isActive: Option<bool>)
    returns (rows: seq<Record>)
    modifies server
    ensures var r := SelectOp(Fresh(old(server.state), now), table, [], ActiveFilter(isActive), [], None, None).1;
      rows == (if reachable && r.Ok? then r.value else [])
    ensures server.state == old(server.state)
  {
    var db := new PostgreSQLDriver(server);
    var entered := db.Enter(reachable, now);
    if entered.Err? {
      return [];
    }
    var where: Dict := [];
    if isActive.Some? {
      where := [("is_active", Bool(isActive.value))];
    }
    var r := db.Select(table, [], where, [], None, None);
    rows := if r.Ok? then r.value else [];
    QueryKeepsServer(old(server.state), now, SelectCall(table, [], where, [], None, None));
    db.Exit();
  }

  /** `create_*`: inserts one row with RETURNING id and commits it; the id, or None when
      anything failed (and then nothing is stored). */
  method Create(server: Server, reachable: bool, now: int, table: string, data: Dict) returns (id: Value)
    modifies server
    ensures var (s, r) := InsertOp(Fresh(old(server.state), now), table, data, true);
      && id == (if reachable then Returned(r) else Null)
      && server.state == (if reachable then Committed(old(server.state), s) else old(server.state))
  {
    var db := new PostgreSQLDriver(server);
    var entered := db.Enter(reachable, now);
    if entered.Err? {
      return Null;
    }
    var r := db.Insert(table, data, true);
    id := Returned(r);
    db.Exit();
  }

  /** `update_*(id, **kwargs)`: update_by_id, then whether any row was affected; False when
      anything failed (and then nothing is stored). */
  method UpdateRecord(server: Server, reachable: bool, now: int, table: string, id: int, changes: Dict)
    returns (ok: bool)
    modifies server
    ensures var (s, r) := UpdateOp(Fresh(old(server.state), now), table, changes, [("id", Int(id))]);
      && ok == (reachable && r.Ok? && r.value > 0)
      && server.state == (if reachable then Committed(old(server.state), s) else old(server.state))
  {
    var db := new PostgreSQLDriver(server);
    var entered := db.Enter(reachable, now);
    if entered.Err? {
      return false;
    }
    var r := db.UpdateById(table, id, changes);
    ok := r.Ok? && r.value > 0;
    db.Exit();
  }

  /** `delete_*(id)`: delete_by_id, then whether any row was affected. */
  method DeleteRecord(server: Server, reachable: bool, now: int, table: string, id: int) returns (ok: bool)
    modifies server
    ensures var (s, r) := DeleteOp(Fresh(old(server.state), now), table, [("id", Int(id))]);
      && ok == (reachable && r.Ok? && r.value > 0)
      && server.state == (if reachable then Committed(old(server.state), s) else old(server.state))
  {
    var db := new PostgreSQLDriver(server);
    var entered := db.Enter(reachable, now);
    if entered.Err? {
      return false;
    }
    var r := db.DeleteById(table, id);
    ok := r.Ok? && r.value > 0;
    db.Exit();
  }

  // ---------------------------------------------------------------------------
  // Users, tables and bookings

  /** The dict create_user inserts: every argument, None as NULL. */
  function UserData(username: string, email: string, passwordHash: string, firstName: Option<string>,
                    lastName: Option<string>, phone: Option<string>, role: string): (d: Dict)
    ensures Keys(d) == ["username", "email", "password_hash", "first_name", "last_name", "phone", "role"]
    ensures Distinct(Keys(d))
  {
    [("username", Text(username)), ("email", Text(email)), ("password_hash", Text(passwordHash)),
     ("first_name", OptText(firstName)), ("last_name", OptText(lastName)), ("phone", OptText(phone)),
     ("role", Text(role))]
  }

  method CreateUser(server: Server, reachable: bool, now: int, username: string, email: string, passwordHash: string,
                    firstName: Option<string> := None, lastName: Option<string> := None,
                    phone: Option<string> := None, role: string := "user") returns (id: Value)
    modifies server
    ensures var (s, r) := InsertOp(Fresh(old(server.state), now), UserTableName,
                                   UserData(username, email, passwordHash, firstName, lastName, phone, role), true);
      && id == (if reachable then Returned(r) else Null)
      && server.state == (if reachable then Committed(old(server.state), s) else old(server.state))
  {
    id := Create(server, reachable, now, UserTableName,
                 UserData(username, email, passwordHash, firstName, lastName, phone, role));
  }

  /** The dict create_table_record inserts. */
  function TableData(number: int, capacity: int, location: Option<string>, tableType: Option<string>,
                     isActive: bool, description: Option<string>): (d: Dict)
    ensures Keys(d) == ["number", "capacity", "location", "table_type", "is_active", "description"]
    ensures Distinct(Keys(d))
  {
    [("number", Int(number)), ("capacity", Int(capacity)), ("location", OptText(location)),
     ("table_type", OptText(tableType)), ("is_active", Bool(isActive)), ("description", OptText(description))]
  }

  method CreateTableRecord(server: Server, reachable: bool, now: int, number: int, capacity: int,
                           location: Option<string> := None, tableType: Option<string> := None,
                           isActive: bool := true, description: Option<string> := None) returns (id: Value)
    modifies server
    ensures var (s, r) := InsertOp(Fresh(old(server.state), now), TableTableName,
                                   TableData(number, capacity, location, tableType, isActive, description), true);
      && id == (if reachable then Returned(r) else Null)
      && server.state == (if reachable then Committed(old(server.state), s) else old(server.state))
  {
    id := Create(server, reachable, now, TableTableName,
                 TableData(number, capacity, location, tableType, isActive, description));
  }

  /** The dict create_booking inserts: every column but the id and the timestamps. */
  function BookingData(userId: int, tableId: int, day: int, minute: int, guests: int, status: string,
                       contactPhone: Option<string>, contactName: Option<string>,
                       specialRequests: Option<string>, duration: int): (d: Dict)
    ensures Keys(d) == ["user_id", "table_id", "booking_date", "booking_time", "guests_count", "status",
                        "contact_phone", "contact_name", "special_requests", "duration"]
    ensures Distinct(Keys(d))
  {
    [("user_id", Int(userId)), ("table_id", Int(tableId)), ("booking_date", Date(day)),
     ("booking_time", Time(minute)), ("guests_count", Int(guests)), ("status", Text(status)),
     ("contact_phone", OptText(contactPhone)), ("contact_name", OptText(contactName)),
     ("special_requests", OptText(specialRequests)), ("duration", Int(duration))]
  }

  method CreateBooking(server: Server, reachable: bool, now: int, userId: int, tableId: int, day: int,
                       minute: int, guests: int, status: string := "pending",
                       contactPhone: Option<string> := None, contactName: Option<string> := None,
                       specialRequests: Option<string> := None, duration: int := 120) returns (id: Value)
    modifies server
    ensures var (s, r) := InsertOp(Fresh(old(server.state), now), BookingModel.TableName,
        BookingData(userId, tableId, day, minute, guests, status, contactPhone, contactName, specialRequests, duration), true);
      && id == (if reachable then Returned(r) else Null)
      && server.state == (if reachable then Committed(old(server.state), s) else old(server.state))
  {
    id := Create(server, reachable, now, BookingModel.TableName,
                 BookingData(userId, tableId, day, minute, guests, status, contactPhone, contactName,
                             specialRequests, duration));
  }

  /** The filter get_all_bookings builds: one entry per argument that is not None, in the
      order user_id, table_id, status, booking_date. */
  function BookingFilter(userId: Option<int>, tableId: Option<int>, status: Option<string>, day: Option<int>): (f: Dict)
    ensures Distinct(Keys(f))
    ensures |f| == (if userId.Some? then 1 else 0) + (if tableId.Some? then 1 else 0)
                   + (if status.Some? then 1 else 0) + (if day.Some? then 1 else 0)
  {
    (if userId.Some? then [("user_id", Int(userId.value))] else [])
    + (if tableId.Some? then [("table_id", Int(tableId.value))] else [])
    + (if status.Some? then [("status", Text(status.value))] else [])
    + (if day.Some? then [("booking_date", Date(day.value))] else [])
  }

  /** The newest first: by date, then by time, both descending. */
  const NewestFirst: seq<SortKey> := [Desc("booking_date"), Desc("booking_time")]

  method GetAllBookings(server: Server, reachable: bool, now: int, userId: Option<int> := None,
                        tableId: Option<int> := None, status: Option<string> := None, day: Option<int> := None)
    returns (rows: seq<Record>)
    modifies server
    ensures var r := SelectOp(Fresh(old(server.state), now), BookingModel.TableName, [],
                              BookingFilter(userId, tableId, status, day), NewestFirst, None, None).1;
      rows == (if reachable && r.Ok? then r.value else [])
    ensures server.state == old(server.state)
  {
    var db := new PostgreSQLDriver(server);
    var entered := db.Enter(reachable, now);
    if entered.Err? {
      return [];
    }
    var where: Dict := [];
    if userId.Some? {
      where := where + [("user_id", Int(userId.value))];
    }
    if tableId.Some? {
      where := where + [("table_id", Int(tableId.value))];
    }
    if status.Some? {
      where := where + [("status", Text(status.value))];
    }
    if day.Some? {
      where := where + [("booking_date", Date(day.value))];
    }
    assert where == BookingFilter(userId, tableId, status, day);
    var r := db.Select(BookingModel.TableName, [], where, NewestFirst, None, None);
    rows := if r.Ok? then r.value else [];
    QueryKeepsServer(old(server.state), now, SelectCall(BookingModel.TableName, [], where, NewestFirst, None, None));
    db.Exit();
  }

  // ---------------------------------------------------------------------------
  // Availability

  /** The filter both availability functions select with. */
  function BookingsOn(tableId: int, day: int): Dict
  {
    [("table_id", Int(tableId)), ("booking_date", Date(day))]
  }

  /** What the availability check's select returns from a fresh session. */
  function Selected(state: Store, now: int, tableId: int, day: int): Result<seq<Record>>
  {
    SelectOp(Fresh(state, now), BookingModel.TableName, [], BookingsOn(tableId, day), [], None, None).1
  }

  /** is_table_available: select the table's bookings on the date, drop cancelled and
      completed ones and the excluded one, and look for a collision with the requested
      interval; any error means "not available". */
  method IsTableAvailable(server: Server, reachable: bool, now: int, tableId: int, day: int, minute: int,
                          duration: int := 120, exclude: Option<int> := None) returns (available: bool)
    modifies server
    ensures available == (reachable && Decide(Selected(old(server.state), now, tableId, day), exclude, day, minute, duration))
    ensures server.state == old(server.state)
  {
    var db := new PostgreSQLDriver(server);
    var entered := db.Enter(reachable, now);
    if entered.Err? {
      return false;
    }
    var bookings := db.Select(BookingModel.TableName, [], BookingsOn(tableId, day), [], None, None);
    QueryKeepsServer(old(server.state), now, SelectCall(BookingModel.TableName, [], BookingsOn(tableId, day), [], None, None));
    assert bookings == Selected(old(server.state), now, tableId, day);
    available := CheckBookings(bookings, exclude, day, minute, duration);
    db.Exit();
  }

  /** The order of get_table_availability: by start time. */
  const ByStartTime: seq<SortKey> := [Asc("booking_time")]

  /** get_table_availability: the table's bookings on the date, whatever their status, by start
      time; [] when anything failed. */
  method GetTableAvailability(server: Server, reachable: bool, now: int, tableId: int, day: int)
    returns (rows: seq<Record>)
    modifies server
    ensures var r := SelectOp(Fresh(old(server.state), now), BookingModel.TableName, [], BookingsOn(tableId, day),
                              ByStartTime, None, None).1;
      rows == (if reachable && r.Ok? then r.value else [])
    ensures server.state == old(server.state)
  {
    var db := new PostgreSQLDriver(server);
    var entered := db.Enter(reachable, now);
    if entered.Err? {
      return [];
    }
    var r := db.Select(BookingModel.TableName, [], BookingsOn(tableId, day), ByStartTime, None, None);
    rows := if r.Ok? then r.value else [];
    QueryKeepsServer(old(server.state), now, SelectCall(BookingModel.TableName, [], BookingsOn(tableId, day), ByStartTime, None, None));
    db.Exit();
  }

  // ---------------------------------------------------------------------------
  // What the backend functions mean for the stored rows

  /** A filter on one column holds exactly when the row has that (non-NULL) value there. */
  lemma HoldsOne(b: Record, k: string, v: Value)
    ensures Holds(b, [(k, v)]) <==> v != Null && Field(b, k) == v
  {
    assert [(k, v)][0] == (k, v);
  }

  lemma HoldsAppend(b: Record, f: Dict, g: Dict)
    ensures Holds(b, f + g) <==> Holds(b, f) && Holds(b, g)
  {
    if Holds(b, f) && Holds(b, g) {
      forall i | 0 <= i < |f + g| ensures (f + g)[i].1 != Null && Field(b, (f + g)[i].0) == (f + g)[i].1 {
        if i >= |f| {
          assert (f + g)[i] == g[i - |f|];
        }
      }
    }
    if Holds(b, f + g) {
      forall i | 0 <= i < |g| ensures g[i].1 != Null && Field(b, g[i].0) == g[i].1 {
        assert (f + g)[|f| + i] == g[i];
      }
      forall i | 0 <= i < |f| ensures f[i].1 != Null && Field(b, f[i].0) == f[i].1 {
        assert (f + g)[i] == f[i];
      }
    }
  }

  /** A select without LIMIT or OFFSET on a table that has every column it names returns, in
      the requested order, exactly the rows satisfying the filter. */
  lemma SelectFinds(state: Store, now: int, table: string, where: Dict, orderBy: seq<SortKey>)
    requires table in state
    requires forall c :: c in Keys(where) + SortColumns(orderBy) ==> c in ColumnNames(state[table])
    ensures var r := SelectOp(Fresh(state, now), table, [], where, orderBy, None, None).1;
      && r.Ok?
      && SortedBy(r.value, orderBy)
      && (forall b :: b in r.value <==> b in state[table].rows && Holds(b, where))
  {
    SelectMeaning(state, table, [], where, orderBy, None, None, now);
    var rows := Run(state, SelectCall(table, [], where, orderBy, None, None), now).value.1.rows;
    forall b ensures b in rows <==> b in Filter(state[table].rows, where) {
      assert b in rows <==> b in multiset(rows);
    }
  }

  lemma HoldsBookingsOn(b: Record, tableId: int, day: int)
    ensures Holds(b, BookingsOn(tableId, day)) <==>
      Field(b, "table_id") == Int(tableId) && Field(b, "booking_date") == Date(day)
  {
    assert BookingsOn(tableId, day) == [("table_id", Int(tableId))] + [("booking_date", Date(day))];
    HoldsAppend(b, [("table_id", Int(tableId))], [("booking_date", Date(day))]);
    HoldsOne(b, "table_id", Int(tableId));
    HoldsOne(b, "booking_date", Date(day));
  }

  /** A booking of the table on the date that neither was cancelled nor completed. */
  predicate Candidate(state: Store, tableId: int, day: int, b: Record)
    requires BookingModel.TableName in state
  {
    && b in state[BookingModel.TableName].rows
    && Field(b, "table_id") == Int(tableId) && Field(b, "booking_date") == Date(day)
    && Active(b)
  }

  /** The availability select returns exactly the table's bookings on the date. */
  lemma SelectedRows(state: Store, now: int, tableId: int, day: int)
    requires BookingModel.TableName in state
    requires "table_id" in ColumnNames(state[BookingModel.TableName])
    requires "booking_date" in ColumnNames(state[BookingModel.TableName])
    ensures Selected(state, now, tableId, day).Ok?
    ensures forall b :: b in Selected(state, now, tableId, day).value <==>
      b in state[BookingModel.TableName].rows && Field(b, "table_id") == Int(tableId) && Field(b, "booking_date") == Date(day)
  {
    assert Keys(BookingsOn(tableId, day)) + SortColumns([]) == ["table_id", "booking_date"];
    SelectFinds(state, now, BookingModel.TableName, BookingsOn(tableId, day), []);
    forall b ensures Holds(b, BookingsOn(tableId, day)) <==> Field(b, "table_id") == Int(tableId) && Field(b, "booking_date") == Date(day) {
      HoldsBookingsOn(b, tableId, day);
    }
  }

  /** is_table_available, for a bookings table with the columns it selects on, answers True
      exactly when (1) with an excluded id, every candidate booking has an `id`, and (2) every
      candidate booking other than the excluded one has a computable interval that does not
      collide with [start, start + duration). */
  lemma TableAvailableIff(state: Store, now: int, tableId: int, day: int, minute: int, duration: int,
                          exclude: Option<int>)
    requires BookingModel.TableName in state
    requires "table_id" in ColumnNames(state[BookingModel.TableName])
    requires "booking_date" in ColumnNames(state[BookingModel.TableName])
    ensures Decide(Selected(state, now, tableId, day), exclude, day, minute, duration) <==>
      && (exclude.Some? ==> forall b :: Candidate(state, tableId, day, b) ==> "id" in b)
      && (forall b :: Candidate(state, tableId, day, b) && !(exclude.Some? && SameId(Field(b, "id"), exclude.value)) ==>
            BookingInterval(b).Ok? &&
            !Overlaps(Instant(day, minute), Instant(day, minute) + duration,
                      BookingInterval(b).value.0, BookingInterval(b).value.1))
  {
    var sel := Selected(state, now, tableId, day);
    SelectedRows(state, now, tableId, day);
    DecideIff(sel, exclude, day, minute, duration);
    var act := ActiveOnly(sel.value);
    assert forall b :: b in act <==> Candidate(state, tableId, day, b);
  }

  /** get_table_availability returns every booking of the table on the date, whatever its
      status, ordered by start time (when the bookings table has the columns it names). */
  lemma ScheduleMeaning(state: Store, now: int, tableId: int, day: int)
    requires BookingModel.TableName in state
    requires forall c :: c in ["table_id", "booking_date", "booking_time"] ==> c in ColumnNames(state[BookingModel.TableName])
    ensures var r := SelectOp(Fresh(state, now), BookingModel.TableName, [], BookingsOn(tableId, day), ByStartTime, None, None).1;
      && r.Ok?
      && SortedBy(r.value, ByStartTime)
      && (forall b :: b in r.value <==>
            b in state[BookingModel.TableName].rows && Field(b, "table_id") == Int(tableId) && Field(b, "booking_date") == Date(day))
  {
    assert Keys(BookingsOn(tableId, day)) + SortColumns(ByStartTime) == ["table_id", "booking_date", "booking_time"];
    SelectFinds(state, now, BookingModel.TableName, BookingsOn(tableId, day), ByStartTime);
    forall b ensures Holds(b, BookingsOn(tableId, day)) <==> Field(b, "table_id") == Int(tableId) && Field(b, "booking_date") == Date(day) {
      HoldsBookingsOn(b, tableId, day);
    }
  }

  /** A row satisfies get_all_bookings' filter exactly when it matches every argument given. */
  lemma BookingFilterHolds(b: Record, userId: Option<int>, tableId: Option<int>, status: Option<string>, day: Option<int>)
    ensures Holds(b, BookingFilter(userId, tableId, status, day)) <==>
      && (userId.Some? ==> Field(b, "user_id") == Int(userId.value))
      && (tableId.Some? ==> Field(b, "table_id") == Int(tableId.value))
      && (status.Some? ==> Field(b, "status") == Text(status.value))
      && (day.Some? ==> Field(b, "booking_date") == Date(day.value))
  {
    var a: Dict := if userId.Some? then [("user_id", Int(userId.value))] else [];
    var c: Dict := if tableId.Some? then [("table_id", Int(tableId.value))] else [];
    var d: Dict := if status.Some? then [("status", Text(status.value))] else [];
    var e: Dict := if day.Some? then [("booking_date", Date(day.value))] else [];
    assert BookingFilter(userId, tableId, status, day) == a + c + d + e;
    HoldsAppend(b, a, c);
    HoldsAppend(b, a + c, d);
    HoldsAppend(b, a + c + d, e);
    if userId.Some? { HoldsOne(b, "user_id", Int(userId.value)); }
    if tableId.Some? { HoldsOne(b, "table_id", Int(tableId.value)); }
    if status.Some? { HoldsOne(b, "status", Text(status.value)); }
    if day.Some? { HoldsOne(b, "booking_date", Date(day.value)); }
  }

  /** The filter of get_all_bookings names only columns among its four arguments'. */
  lemma BookingFilterColumns(userId: Option<int>, tableId: Option<int>, status: Option<string>, day: Option<int>)
    ensures forall c :: c in Keys(BookingFilter(userId, tableId, status, day)) + SortColumns(NewestFirst) ==>
              c in ["user_id", "table_id", "status", "booking_date", "booking_time"]
  {
    var f := BookingFilter(userId, tableId, status, day);
    assert SortColumns(NewestFirst) == ["booking_date", "booking_time"];
    forall k | 0 <= k < |f| ensures f[k].0 in ["user_id", "table_id", "status", "booking_date"] {
    }
    forall c | c in Keys(f) ensures c in ["user_id", "table_id", "status", "booking_date"] {
      var k :| 0 <= k < |Keys(f)| && Keys(f)[k] == c;
      assert f[k].0 == c;
    }
  }

  /** get_all_bookings returns, newest first, exactly the bookings matching every filter given
      (when the bookings table has the columns it names). */
  lemma AllBookingsMeaning(state: Store, now: int, userId: Option<int>, tableId: Option<int>,
                           status: Option<string>, day: Option<int>)
    requires BookingModel.TableName in state
    requires forall c :: c in ["user_id", "table_id", "status", "booking_date", "booking_time"] ==>
               c in ColumnNames(state[BookingModel.TableName])
    ensures var r := SelectOp(Fresh(state, now), BookingModel.TableName, [],
                              BookingFilter(userId, tableId, status, day), NewestFirst, None, None).1;
      && r.Ok?
      && SortedBy(r.value, NewestFirst)
      && (forall b :: b in r.value <==>
            && b in state[BookingModel.TableName].rows
            && (userId.Some? ==> Field(b, "user_id") == Int(userId.value))
            && (tableId.Some? ==> Field(b, "table_id") == Int(tableId.value))
            && (status.Some? ==> Field(b, "status") == Text(status.value))
            && (day.Some? ==> Field(b, "booking_date") == Date(day.value)))
  {
    BookingFilterColumns(userId, tableId, status, day);
    SelectFinds(state, now, BookingModel.TableName, BookingFilter(userId, tableId, status, day), NewestFirst);
    forall b {
      BookingFilterHolds(b, userId, tableId, status, day);
    }
  }

  /** update_* reports True exactly when a row with that id existed, and then every such row
      holds the new values in the committed tables. */
  lemma UpdatedIffExists(state: Store, now: int, table: string, id: int, changes: Dict)
    requires UpdateOp(Fresh(state, now), table, changes, [("id", Int(id))]).1.Ok?
    ensures table in state
    ensures var (s, r) := UpdateOp(Fresh(state, now), table, changes, [("id", Int(id))]);
      && (r.value > 0 <==> exists row :: row in state[table].rows && Field(row, "id") == Int(id))
      && table in Committed(state, s)
      && (forall i, j :: 0 <= i < |state[table].rows| && Field(state[table].rows[i], "id") == Int(id) && 0 <= j < |changes| ==>
            Field(Committed(state, s)[table].rows[i], changes[j].0) == changes[j].1)
  {
    var where := [("id", Int(id))];
    var res := Run(state, UpdateCall(table, changes, where), now);
    var (db', reply) := res.value;
    UpdateMeaning(state, table, changes, where, now, db', reply);
    var m := Filter(state[table].rows, where);
    forall row ensures Holds(row, where) <==> Field(row, "id") == Int(id) {
      HoldsOne(row, "id", Int(id));
    }
    if |m| > 0 {
      assert m[0] in m;
    }
  }

  /** delete_* reports True exactly when a row with that id existed; afterwards no row of the
      table has that id in the committed tables. */
  lemma DeletedIffExists(state: Store, now: int, table: string, id: int)
    requires DeleteOp(Fresh(state, now), table, [("id", Int(id))]).1.Ok?
    ensures table in state
    ensures var (s, r) := DeleteOp(Fresh(state, now), table, [("id", Int(id))]);
      && (r.value > 0 <==> exists row :: row in state[table].rows && Field(row, "id") == Int(id))
      && table in Committed(state, s)
      && (forall row :: row in Committed(state, s)[table].rows ==> Field(row, "id") != Int(id))
  {
    var where := [("id", Int(id))];
    var res := Run(state, DeleteCall(table, where), now);
    var (db', reply) := res.value;
    DeleteMeaning(state, table, where, now, db', reply);
    var m := Filter(state[table].rows, where);
    forall row ensures Holds(row, where) <==> Field(row, "id") == Int(id) {
      HoldsOne(row, "id", Int(id));
    }
    if |m| > 0 {
      assert m[0] in m;
    }
  }

  /** After a successful create_* on a table keyed by `id`, the returned id is not None and
      get_*_by_id with it, at any later time, finds the new row. */
  lemma CreateThenGet(state: Store, now: int, later: int, table: string, data: Dict)
    requires WellFormed(state) && table in state && KeyedById(state[table])
    requires InsertOp(Fresh(state, now), table, data, true).1.Ok?
    ensures var (s, r) := InsertOp(Fresh(state, now), table, data, true);
      && r.value != Null
      && table in Committed(state, s)
      && |Committed(state, s)[table].rows| == |state[table].rows| + 1
      && (r.value.Int? ==>
            SelectByIdOp(Fresh(Committed(state, s), later), table, r.value.i).1
              == Ok(Some(Committed(state, s)[table].rows[|state[table].rows|])))
  {
    var res := Run(state, InsertCall(table, data, true), now);
    var (db', reply) := res.value;
    InsertThenSelectById(state, table, data, now, db', reply);
    InsertUnfold(state, table, data, true, now, db', reply);
  }
}
