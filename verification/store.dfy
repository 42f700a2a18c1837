/** The server side of the driver: named tables of rows in memory, and what each statement
    the driver sends does to them (filter by a conjunction of equalities, update matching
    rows, delete matching rows with ON DELETE CASCADE, count, insert with column defaults,
    and the NOT NULL / UNIQUE / FOREIGN KEY checks that make a statement fail). */
module Store {
  import opened Values
  import opened Schema
  import opened Sql
  import opened Ordering

  /** A table: its declared columns, its rows in storage order, and the next value of its
      SERIAL sequence. */
  datatype Table = Table(columns: seq<ColumnDef>, rows: seq<Record>, nextId: int)

  type Store = map<string, Table>

  /** What the cursor holds after a statement: the fetched rows and cursor.rowcount. */
  datatype Reply = Reply(rows: seq<Record>, rowcount: int)

  // ---------------------------------------------------------------------------
  // Rows

  /** The row satisfies `c1 = v1 AND c2 = v2 ...`; a comparison with NULL is never true. */
  predicate Holds(r: Record, f: Dict)
  {
    forall i :: 0 <= i < |f| ==> f[i].1 != Null && Field(r, f[i].0) == f[i].1
  }

  /** The rows satisfying the filter, in storage order. */
  function Filter(rows: seq<Record>, f: Dict): (out: seq<Record>)
    ensures |out| <= |rows|
    ensures forall r :: r in out <==> r in rows && Holds(r, f)
  {
    if rows == [] then []
    else (if Holds(rows[0], f) then [rows[0]] else []) + Filter(rows[1..], f)
  }

  /** The rows not satisfying the filter, in storage order. */
  function Reject(rows: seq<Record>, f: Dict): (out: seq<Record>)
    ensures forall r :: r in out <==> r in rows && !Holds(r, f)
  {
    if rows == [] then []
    else (if Holds(rows[0], f) then [] else [rows[0]]) + Reject(rows[1..], f)
  }

  /** An empty filter keeps every row: no WHERE clause and `WHERE` over `{}` mean the same. */
  lemma {:induction false} EmptyFilterKeepsAll(rows: seq<Record>)
    ensures Filter(rows, []) == rows
    ensures Reject(rows, []) == []
  {
    if rows != [] {
      EmptyFilterKeepsAll(rows[1..]);
      assert Holds(rows[0], []);
    }
  }

  lemma {:induction false} FilterAppend(a: seq<Record>, b: seq<Record>, f: Dict)
    ensures Filter(a + b, f) == Filter(a, f) + Filter(b, f)
  {
    if a == [] {
      assert a + b == b;
    } else {
      assert (a + b)[0] == a[0] && (a + b)[1..] == a[1..] + b;
      FilterAppend(a[1..], b, f);
    }
  }

  /** OFFSET, then LIMIT. */
  function Window(rows: seq<Record>, limit: Option<int>, offset: Option<int>): seq<Record>
  {
    var skipped := if offset.Some? && offset.value > 0 then
                     (if offset.value >= |rows| then [] else rows[offset.value..])
                   else rows;
    if limit.Some? && 0 <= limit.value < |skipped| then skipped[..limit.value] else skipped
  }

  /** The listed columns of each row (all of them for `SELECT *`). */
  function Project(rows: seq<Record>, cols: seq<string>): seq<Record>
  {
    if cols == [] then rows
    else seq(|rows|, i requires 0 <= i < |rows| => map c | c in cols && c in rows[i] :: rows[i][c])
  }

  /** `SET c1 = v1, c2 = v2 ...` applied to one row. */
  function Assign(r: Record, data: Dict): Record
    decreases |data|
  {
    if data == [] then r else Assign(r, data[..|data| - 1])[data[|data| - 1].0 := data[|data| - 1].1]
  }

  function UpdateRows(rows: seq<Record>, data: Dict, f: Dict): seq<Record>
  {
    seq(|rows|, i requires 0 <= i < |rows| => if Holds(rows[i], f) then Assign(rows[i], data) else rows[i])
  }

  // ---------------------------------------------------------------------------
  // Columns

  function ColumnNames(t: Table): seq<string>
  {
    Names(t.columns)
  }

  /** The first of `cols` that the table does not have. */
  function FirstUnknown(t: Table, cols: seq<string>): (u: Option<string>)
    ensures u.None? <==> forall c :: c in cols ==> c in ColumnNames(t)
    ensures u.Some? ==> u.value in cols && u.value !in ColumnNames(t)
    decreases |cols|
  {
    if cols == [] then None
    else if cols[0] !in ColumnNames(t) then Some(cols[0])
    else FirstUnknown(t, cols[1..])
  }

  function SortColumns(keys: seq<SortKey>): seq<string>
  {
    seq(|keys|, i requires 0 <= i < |keys| => keys[i].column)
  }

  /** The value a new row gets in a column the INSERT does not name: the next SERIAL value,
      else the declared default, else NULL. */
  function DefaultOf(c: ColumnDef, id: int, now: int): Value
  {
    if c.sqlType == Serial then Int(id)
    else match c.default
      case NoDefault => Null
      case DefaultValue(v) => v
      case CurrentTimestamp => Stamp(now)
  }

  /** The value a new row gets in column `c`: the given one, else its default. */
  function ColumnValue(c: ColumnDef, data: Dict, id: int, now: int): Value
  {
    match Lookup(data, c.name)
    case Some(v) => v
    case None => DefaultOf(c, id, now)
  }

  function RowOf(cols: seq<ColumnDef>, data: Dict, id: int, now: int): Record
    decreases |cols|
  {
    if cols == [] then map[]
    else RowOf(cols[..|cols| - 1], data, id, now)[cols[|cols| - 1].name := ColumnValue(cols[|cols| - 1], data, id, now)]
  }

  /** Whether the new row takes a value from the table's SERIAL sequence. */
  predicate UsesSequence(cols: seq<ColumnDef>, data: Dict)
  {
    exists i :: 0 <= i < |cols| && cols[i].sqlType == Serial && Lookup(data, cols[i].name).None?
  }

  function AddRow(t: Table, data: Dict, now: int): Table
  {
    Table(t.columns, t.rows + [RowOf(t.columns, data, t.nextId, now)],
          if UsesSequence(t.columns, data) then t.nextId + 1 else t.nextId)
  }

  function AddRows(t: Table, data: seq<Dict>, now: int): Table
    decreases |data|
  {
    if data == [] then t else AddRows(AddRow(t, data[0], now), data[1..], now)
  }

  // ---------------------------------------------------------------------------
  // Constraints

  /** No table declares the same column twice (CREATE TABLE refuses that). */
  predicate WellFormed(db: Store)
  {
    forall t :: t in db ==> Distinct(Names(db[t].columns))
  }

  /** Some row of table `t` has `id` equal to `v`. */
  predicate Referenced(db: Store, t: string, v: Value)
  {
    t in db && exists r :: r in db[t].rows && Field(r, "id") == v
  }

  predicate ColumnConsistent(db: Store, c: ColumnDef, rows: seq<Record>)
  {
    && (c.Required() ==> forall r :: r in rows ==> Field(r, c.name) != Null)
    && (c.Distinguishing() ==>
          forall i, j :: 0 <= i < j < |rows| ==>
            Field(rows[i], c.name) == Null || Field(rows[i], c.name) != Field(rows[j], c.name))
    && (c.references.Some? ==>
          forall r :: r in rows ==> Field(r, c.name) == Null || Referenced(db, c.references.value.table, Field(r, c.name)))
  }

  /** Every declared NOT NULL, PRIMARY KEY, UNIQUE and REFERENCES constraint holds. */
  predicate Consistent(db: Store)
  {
    forall t, i :: t in db && 0 <= i < |db[t].columns| ==> ColumnConsistent(db, db[t].columns[i], db[t].rows)
  }

  /** The outcome of a statement whose effect would be `db'`. */
  function Checked(db': Store, reply: Reply): Result<(Store, Reply)>
  {
    if Consistent(db') then Ok((db', reply)) else Err(ConstraintViolation)
  }

  // ---------------------------------------------------------------------------
  // ON DELETE CASCADE

  /** The row refers, through a cascading foreign key to table `t`, to one of `ids`. */
  predicate Doomed(cols: seq<ColumnDef>, r: Record, t: string, ids: set<Value>)
  {
    exists i :: 0 <= i < |cols| && cols[i].references == Some(ForeignKey(t, true)) && Field(r, cols[i].name) in ids
  }

  function Survivors(cols: seq<ColumnDef>, rows: seq<Record>, t: string, ids: set<Value>): (out: seq<Record>)
    ensures forall r :: r in out <==> r in rows && !Doomed(cols, r, t, ids)
  {
    if rows == [] then []
    else (if Doomed(cols, rows[0], t, ids) then [] else [rows[0]]) + Survivors(cols, rows[1..], t, ids)
  }

  function Ids(rows: seq<Record>): set<Value>
  {
    set r | r in rows && Field(r, "id") != Null :: Field(r, "id")
  }

  /** Removes, from every table, the rows that refer with ON DELETE CASCADE to a deleted row
      of `t`. */
  function Cascade(db: Store, t: string, ids: set<Value>): Store
  {
    map u | u in db :: db[u].(rows := Survivors(db[u].columns, db[u].rows, t, ids))
  }

  // ---------------------------------------------------------------------------
  // Statements

  function RunSelect(db: Store, t: string, cols: seq<string>, whereCols: seq<string>, orderBy: seq<SortKey>,
                     limit: Option<int>, offset: Option<int>, params: Params): Result<(Store, Reply)>
  {
    if params.Rows? || |ParamValues(params)| != |whereCols| then Err(ParameterMismatch)
    else if t !in db then Err(UndefinedTable(t))
    else match FirstUnknown(db[t], cols + whereCols + SortColumns(orderBy))
      case Some(c) => Err(UndefinedColumn(c))
      case None =>
        if (limit.Some? && limit.value < 0) || (offset.Some? && offset.value < 0) then Err(NegativeLimitOrOffset)
        else
          var rows := Window(SortRows(Filter(db[t].rows, Zip(whereCols, ParamValues(params))), orderBy), limit, offset);
          Ok((db, Reply(Project(rows, cols), |rows|)))
  }

  function RunCount(db: Store, t: string, whereCols: seq<string>, params: Params): Result<(Store, Reply)>
  {
    if params.Rows? || |ParamValues(params)| != |whereCols| then Err(ParameterMismatch)
    else if t !in db then Err(UndefinedTable(t))
    else match FirstUnknown(db[t], whereCols)
      case Some(c) => Err(UndefinedColumn(c))
      case None =>
        var n := |Filter(db[t].rows, Zip(whereCols, ParamValues(params)))|;
        Ok((db, Reply([map["count" := Int(n)]], 1)))
  }

  function RunInsert(db: Store, t: string, cols: seq<string>, returningId: bool, params: Params, now: int)
    : Result<(Store, Reply)>
  {
    if !params.Tuple? || |params.values| != |cols| then Err(ParameterMismatch)
    else if cols == [] then Err(SyntaxError)
    else if t !in db then Err(UndefinedTable(t))
    else if !Distinct(cols) then Err(DuplicateColumn)
    else match FirstUnknown(db[t], cols + (if returningId then ["id"] else []))
      case Some(c) => Err(UndefinedColumn(c))
      case None =>
        var data := Zip(cols, params.values);
        var row := RowOf(db[t].columns, data, db[t].nextId, now);
        Checked(db[t := AddRow(db[t], data, now)],
                Reply(if returningId then [map["id" := Field(row, "id")]] else [], 1))
  }

  /** One dict per row of an execute_values call, pairing the columns with the row's values. */
  function ZipRows(cols: seq<string>, rows: seq<seq<Value>>): (d: seq<Dict>)
    requires forall i :: 0 <= i < |rows| ==> |rows[i]| == |cols|
    ensures |d| == |rows|
  {
    seq(|rows|, i requires 0 <= i < |rows| => Zip(cols, rows[i]))
  }

  function RunInsertValues(db: Store, t: string, cols: seq<string>, params: Params, now: int)
    : Result<(Store, Reply)>
  {
    if !params.Rows? || exists i :: 0 <= i < |params.rows| && |params.rows[i]| != |cols| then Err(ParameterMismatch)
    else if cols == [] then Err(SyntaxError)
    else if t !in db then Err(UndefinedTable(t))
    else if !Distinct(cols) then Err(DuplicateColumn)
    else match FirstUnknown(db[t], cols)
      case Some(c) => Err(UndefinedColumn(c))
      case None =>
        Checked(db[t := AddRows(db[t], ZipRows(cols, params.rows), now)], Reply([], |params.rows|))
  }

  function RunUpdate(db: Store, t: string, setCols: seq<string>, whereCols: seq<string>, params: Params)
    : Result<(Store, Reply)>
  {
    if !params.Tuple? || |params.values| != |setCols| + |whereCols| then Err(ParameterMismatch)
    else if setCols == [] || whereCols == [] then Err(SyntaxError)
    else if t !in db then Err(UndefinedTable(t))
    else if !Distinct(setCols) then Err(DuplicateColumn)
    else match FirstUnknown(db[t], setCols + whereCols)
      case Some(c) => Err(UndefinedColumn(c))
      case None =>
        var data := Zip(setCols, params.values[..|setCols|]);
        var f := Zip(whereCols, params.values[|setCols|..]);
        Checked(db[t := db[t].(rows := UpdateRows(db[t].rows, data, f))],
                Reply([], |Filter(db[t].rows, f)|))
  }

  function RunDelete(db: Store, t: string, whereCols: seq<string>, params: Params): Result<(Store, Reply)>
  {
    if !params.Tuple? || |params.values| != |whereCols| then Err(ParameterMismatch)
    else if whereCols == [] then Err(SyntaxError)
    else if t !in db then Err(UndefinedTable(t))
    else match FirstUnknown(db[t], whereCols)
      case Some(c) => Err(UndefinedColumn(c))
      case None =>
        var f := Zip(whereCols, params.values);
        var removed := Filter(db[t].rows, f);
        Checked(Cascade(db[t := db[t].(rows := Reject(db[t].rows, f))], t, Ids(removed)),
                Reply([], |removed|))
  }

  /** A foreign key of the new table that names a table which does not exist (yet). */
  function MissingTarget(db: Store, t: string, schema: seq<ColumnDef>): Option<string>
    decreases |schema|
  {
    if schema == [] then None
    else match schema[0].references
      case Some(fk) =>
        if fk.table != t && fk.table !in db then Some(fk.table) else MissingTarget(db, t, schema[1..])
      case None => MissingTarget(db, t, schema[1..])
  }

  function RunCreateTable(db: Store, t: string, schema: seq<ColumnDef>, params: Params): Result<(Store, Reply)>
  {
    if ParamValues(params) != [] || params.Rows? then Err(ParameterMismatch)
    else if t in db then Ok((db, Reply([], -1)))   // IF NOT EXISTS: the existing table is kept as it is
    else if !Distinct(Names(schema)) then Err(DuplicateColumn)
    else match MissingTarget(db, t, schema)
      case Some(u) => Err(UndefinedTable(u))
      case None => Ok((db[t := Table(schema, [], 1)], Reply([], -1)))
  }

  /** What the server does with a statement and its parameters; `now` is the value of
      CURRENT_TIMESTAMP. A failed statement changes nothing. */
  function Run(db: Store, call: Call, now: int): Result<(Store, Reply)>
  {
    match call.stmt
    case SelectStmt(t, cols, whereCols, orderBy, limit, offset) =>
      RunSelect(db, t, cols, whereCols, orderBy, limit, offset, call.params)
    case CountStmt(t, whereCols) => RunCount(db, t, whereCols, call.params)
    case InsertStmt(t, cols, returningId) => RunInsert(db, t, cols, returningId, call.params, now)
    case InsertValuesStmt(t, cols) => RunInsertValues(db, t, cols, call.params, now)
    case UpdateStmt(t, setCols, whereCols) => RunUpdate(db, t, setCols, whereCols, call.params)
    case DeleteStmt(t, whereCols) => RunDelete(db, t, whereCols, call.params)
    case CreateTableStmt(t, schema, _) => RunCreateTable(db, t, schema, call.params)
  }

  // ---------------------------------------------------------------------------
  // Properties of the store

  /** Sorting by no keys keeps the storage order. */
  lemma {:induction false} SortRowsNoKeys(rows: seq<Record>)
    ensures SortRows(rows, []) == rows
  {
    if rows != [] {
      SortRowsNoKeys(rows[1..]);
    }
  }

  lemma {:induction false} LookupZip(ks: seq<string>, vs: seq<Value>, i: int)
    requires |ks| == |vs| && Distinct(ks) && 0 <= i < |ks|
    ensures Lookup(Zip(ks, vs), ks[i]) == Some(vs[i])
  {
    var n := |ks| - 1;
    if i < n {
      assert Zip(ks, vs)[..n] == Zip(ks[..n], vs[..n]);
      LookupZip(ks[..n], vs[..n], i);
    }
  }

  /** A dict with distinct keys maps each key to its own value. */
  lemma LookupDistinct(d: Dict, i: int)
    requires Distinct(Keys(d)) && 0 <= i < |d|
    ensures Lookup(d, d[i].0) == Some(d[i].1)
  {
    ZipKeysVals(d);
    LookupZip(Keys(d), Vals(d), i);
  }

  lemma {:induction false} LookupAbsent(d: Dict, k: string)
    requires k !in Keys(d)
    ensures Lookup(d, k) == None
  {
    if d != [] {
      var n := |d| - 1;
      assert Keys(d)[n] == d[n].0;
      assert Keys(d[..n]) == Keys(d)[..n];
      LookupAbsent(d[..n], k);
    }
  }

  lemma {:induction false} LookupPresent(d: Dict, k: string)
    requires Lookup(d, k).Some?
    ensures k in Keys(d)
  {
    var n := |d| - 1;
    if d[n].0 == k {
      assert Keys(d)[n] == k;
    } else {
      LookupPresent(d[..n], k);
      assert Keys(d[..n]) == Keys(d)[..n];
      var j :| 0 <= j < n && Keys(d[..n])[j] == k;
      assert Keys(d)[j] == k;
    }
  }

  /** A new row holds, in each declared column, the value ColumnValue chooses, and nothing else. */
  lemma {:induction false} RowOfFields(cols: seq<ColumnDef>, data: Dict, id: int, now: int)
    requires Distinct(Names(cols))
    ensures RowOf(cols, data, id, now).Keys == set i | 0 <= i < |cols| :: cols[i].name
    ensures forall i :: 0 <= i < |cols| ==> RowOf(cols, data, id, now)[cols[i].name] == ColumnValue(cols[i], data, id, now)
  {
    if cols != [] {
      var n := |cols| - 1;
      assert Names(cols[..n]) == Names(cols)[..n];
      RowOfFields(cols[..n], data, id, now);
      forall i | 0 <= i < n
        ensures RowOf(cols, data, id, now)[cols[i].name] == ColumnValue(cols[i], data, id, now)
      {
        assert Names(cols)[i] != Names(cols)[n];
        assert cols[..n][i] == cols[i];
      }
    }
  }

  /** `SET` gives each assigned column its value (the last one, for a repeated key) and leaves
      the other columns alone. */
  lemma {:induction false} AssignFields(r: Record, data: Dict, k: string)
    ensures Field(Assign(r, data), k) == (match Lookup(data, k) case Some(v) => v case None => Field(r, k))
    decreases |data|
  {
    if data != [] {
      AssignFields(r, data[..|data| - 1], k);
    }
  }

  /** OFFSET skips the first `offset` rows (all of them when there are fewer), and LIMIT then
      keeps at most `limit` of the rest: one contiguous slice of the rows. */
  lemma WindowSlice(rows: seq<Record>, limit: Option<int>, offset: Option<int>) returns (lo: nat, hi: nat)
    ensures lo <= hi <= |rows| && Window(rows, limit, offset) == rows[lo..hi]
    ensures lo == (if offset.Some? && offset.value > 0 then (if offset.value < |rows| then offset.value else |rows|) else 0)
    ensures hi == (if limit.Some? && limit.value >= 0 && lo + limit.value < |rows| then lo + limit.value else |rows|)
    ensures limit.Some? && limit.value >= 0 ==> hi - lo <= limit.value
    ensures limit.None? && offset.None? ==> lo == 0 && hi == |rows|
  {
    lo := if offset.Some? && offset.value > 0 then (if offset.value >= |rows| then |rows| else offset.value) else 0;
    var skipped := rows[lo..];
    hi := if limit.Some? && 0 <= limit.value < |skipped| then lo + limit.value else |rows|;
    assert skipped[..hi - lo] == rows[lo..hi];
  }

  /** `SELECT c1, c2, ...` keeps one record per row, holding the listed columns the row has;
      `SELECT *` keeps the rows whole. */
  lemma ProjectMeaning(rows: seq<Record>, cols: seq<string>)
    ensures |Project(rows, cols)| == |rows|
    ensures cols == [] ==> Project(rows, cols) == rows
    ensures cols != [] ==> forall i :: 0 <= i < |rows| ==>
      && Project(rows, cols)[i].Keys == (set c | c in cols && c in rows[i])
      && (forall c :: c in Project(rows, cols)[i] ==> Project(rows, cols)[i][c] == rows[i][c])
  {
  }

  lemma SortedSlice(rows: seq<Record>, keys: seq<SortKey>, lo: nat, hi: nat)
    requires SortedBy(rows, keys) && lo <= hi <= |rows|
    ensures SortedBy(rows[lo..hi], keys)
  {
    forall i, j | 0 <= i < j < hi - lo ensures RowCompare(rows[lo..hi][i], rows[lo..hi][j], keys) <= 0 {
      assert rows[lo..hi][i] == rows[lo + i] && rows[lo..hi][j] == rows[lo + j];
    }
  }

  /** `select(t, columns, where=w, order_by=k, limit, offset)`: fails only on an unknown table
      or column or a negative LIMIT/OFFSET; otherwise it changes nothing and returns the listed
      columns of the window (OFFSET, then LIMIT, each only when truthy) of the rows of `t` that
      satisfy every equality of `w`, sorted by `k`. With `SELECT *` those rows are ordered by
      `k`, all satisfy `w`, are at most `limit`, and, with no LIMIT/OFFSET, are exactly the
      matching rows. */
  lemma SelectMeaning(db: Store, t: string, columns: seq<string>, where: Dict, orderBy: seq<SortKey>,
                      limit: Option<int>, offset: Option<int>, now: int)
    ensures var res := Run(db, SelectCall(t, columns, where, orderBy, limit, offset), now);
      res.Ok? <==> (&& t in db
                    && (forall c :: c in columns + Keys(where) + SortColumns(orderBy) ==> c in ColumnNames(db[t]))
                    && !(Truthy(limit).Some? && limit.value < 0)
                    && !(Truthy(offset).Some? && offset.value < 0))
    ensures var res := Run(db, SelectCall(t, columns, where, orderBy, limit, offset), now);
      res.Ok? ==>
        && res.value.0 == db
        && res.value.1.rows
             == Project(Window(SortRows(Filter(db[t].rows, where), orderBy), Truthy(limit), Truthy(offset)), columns)
        && res.value.1.rowcount == |res.value.1.rows|
    ensures var res := Run(db, SelectCall(t, columns, where, orderBy, limit, offset), now);
      res.Ok? && columns == [] ==>
        && SortedBy(res.value.1.rows, orderBy)
        && (forall r :: r in res.value.1.rows ==> r in db[t].rows && Holds(r, where))
        && (Truthy(limit).Some? ==> |res.value.1.rows| <= limit.value)
        && (Truthy(limit).None? && Truthy(offset).None? ==>
              multiset(res.value.1.rows) == multiset(Filter(db[t].rows, where)))
  {
    SelectRun(db, t, columns, where, orderBy, limit, offset, now);
    if t in db {
      var w := Window(SortRows(Filter(db[t].rows, where), orderBy), Truthy(limit), Truthy(offset));
      ProjectMeaning(w, []);
      SelectedRows(db[t].rows, where, orderBy, Truthy(limit), Truthy(offset));
    }
  }

  /** The select statement's outcome, with the filter written as the dict it came from. */
  lemma SelectRun(db: Store, t: string, columns: seq<string>, where: Dict, orderBy: seq<SortKey>,
                  limit: Option<int>, offset: Option<int>, now: int)
    ensures var res := Run(db, SelectCall(t, columns, where, orderBy, limit, offset), now);
      res.Ok? <==> (&& t in db
                    && (forall c :: c in columns + Keys(where) + SortColumns(orderBy) ==> c in ColumnNames(db[t]))
                    && !(Truthy(limit).Some? && limit.value < 0)
                    && !(Truthy(offset).Some? && offset.value < 0))
    ensures var res := Run(db, SelectCall(t, columns, where, orderBy, limit, offset), now);
      res.Ok? ==>
        var w := Window(SortRows(Filter(db[t].rows, where), orderBy), Truthy(limit), Truthy(offset));
        res.value == (db, Reply(Project(w, columns), |Project(w, columns)|))
  {
    var call := SelectCall(t, columns, where, orderBy, limit, offset);
    SelectCallShape(t, columns, where, orderBy, limit, offset);
    ZipKeysVals(where);
    assert Zip(call.stmt.whereCols, ParamValues(call.params)) == where;
    if t in db {
      var w := Window(SortRows(Filter(db[t].rows, where), orderBy), Truthy(limit), Truthy(offset));
      ProjectMeaning(w, columns);
    }
  }

  /** The rows a `SELECT *` returns: sorted by the keys, each a stored row satisfying the
      filter, at most LIMIT of them, and without LIMIT or OFFSET all the matching rows. */
  lemma SelectedRows(rows: seq<Record>, where: Dict, orderBy: seq<SortKey>, limit: Option<int>, offset: Option<int>)
    ensures var w := Window(SortRows(Filter(rows, where), orderBy), limit, offset);
      && SortedBy(w, orderBy)
      && (forall r :: r in w ==> r in rows && Holds(r, where))
      && (limit.Some? && limit.value >= 0 ==> |w| <= limit.value)
      && (limit.None? && offset.None? ==> multiset(w) == multiset(Filter(rows, where)))
  {
    var sorted := SortRows(Filter(rows, where), orderBy);
    SortRowsCorrect(Filter(rows, where), orderBy);
    var lo, hi := WindowSlice(sorted, limit, offset);
    SortedSlice(sorted, orderBy, lo, hi);
    forall r | r in sorted[lo..hi] ensures r in rows && Holds(r, where) {
      assert r in multiset(sorted);
    }
  }

  /** `count(t, w)` succeeds exactly when the matching select does, and counts its rows. */
  lemma CountMatchesSelect(db: Store, t: string, where: Dict, now: int)
    ensures Run(db, CountCall(t, where), now).Ok? <==> Run(db, SelectCall(t, [], where, [], None, None), now).Ok?
    ensures Run(db, CountCall(t, where), now).Ok? ==>
      Run(db, CountCall(t, where), now)
        == Ok((db, Reply([map["count" := Int(|Run(db, SelectCall(t, [], where, [], None, None), now).value.1.rows|)]], 1)))
  {
    SelectRun(db, t, [], where, [], None, None, now);
    CountCallShape(t, where);
    ZipKeysVals(where);
    assert [] + Keys(where) + SortColumns([]) == Keys(where);
    if t in db {
      var m := Filter(db[t].rows, where);
      SortRowsNoKeys(m);
      ProjectMeaning(m, []);
    }
  }

  /** A count is positive exactly when some row of the table satisfies the filter. */
  lemma CountPositiveIff(db: Store, t: string, where: Dict, now: int)
    requires Run(db, CountCall(t, where), now).Ok?
    ensures t in db
    ensures Run(db, CountCall(t, where), now).value.1.rows[0]["count"].i > 0
        <==> exists r :: r in db[t].rows && Holds(r, where)
  {
    ZipKeysVals(where);
    var m := Filter(db[t].rows, where);
    if |m| > 0 {
      assert m[0] in m;
    }
  }

  /** `update(t, data, where)`: every row satisfying `where` gets the values of `data` in the
      named columns and keeps its other columns; the other rows and the other tables do not
      change; the row count is the number of matching rows. An empty `data` or `where` makes
      the statement fail. */
  lemma UpdateMeaning(db: Store, t: string, data: Dict, where: Dict, now: int, db': Store, reply: Reply)
    requires Run(db, UpdateCall(t, data, where), now) == Ok((db', reply))
    ensures data != [] && where != [] && Distinct(Keys(data))
    ensures t in db && t in db' && db'[t].columns == db[t].columns && db'[t].nextId == db[t].nextId
    ensures reply.rowcount == |Filter(db[t].rows, where)|
    ensures |db'[t].rows| == |db[t].rows|
    ensures forall i :: 0 <= i < |db[t].rows| && !Holds(db[t].rows[i], where) ==> db'[t].rows[i] == db[t].rows[i]
    ensures forall i, j :: 0 <= i < |db[t].rows| && Holds(db[t].rows[i], where) && 0 <= j < |data| ==>
              Field(db'[t].rows[i], data[j].0) == data[j].1
    ensures forall i, c :: 0 <= i < |db[t].rows| && c !in Keys(data) ==>
              Field(db'[t].rows[i], c) == Field(db[t].rows[i], c)
    ensures forall u :: u != t ==> (u in db' <==> u in db) && (u in db ==> db'[u] == db[u])
    ensures Consistent(db')
  {
    var vs := Vals(data) + Vals(where);
    assert vs[..|Keys(data)|] == Vals(data) && vs[|Keys(data)|..] == Vals(where);
    ZipKeysVals(data);
    ZipKeysVals(where);
    forall i, j | 0 <= i < |db[t].rows| && Holds(db[t].rows[i], where) && 0 <= j < |data|
      ensures Field(db'[t].rows[i], data[j].0) == data[j].1
    {
      AssignFields(db[t].rows[i], data, data[j].0);
      LookupDistinct(data, j);
    }
    forall i, c | 0 <= i < |db[t].rows| && c !in Keys(data)
      ensures Field(db'[t].rows[i], c) == Field(db[t].rows[i], c)
    {
      AssignFields(db[t].rows[i], data, c);
      LookupAbsent(data, c);
    }
  }

  /** `delete(t, where)`: removes exactly the rows of `t` satisfying `where`, and, in every
      table, the rows whose ON DELETE CASCADE foreign key names one of the removed ids; the row
      count is the number of rows of `t` that matched. An empty `where` makes it fail. */
  lemma DeleteMeaning(db: Store, t: string, where: Dict, now: int, db': Store, reply: Reply)
    requires Run(db, DeleteCall(t, where), now) == Ok((db', reply))
    ensures where != [] && t in db
    ensures reply.rowcount == |Filter(db[t].rows, where)|
    ensures forall u :: u in db' <==> u in db
    ensures forall u, r :: u in db ==>
      (r in db'[u].rows <==>
         && r in db[u].rows
         && !(u == t && Holds(r, where))
         && !Doomed(db[u].columns, r, t, Ids(Filter(db[t].rows, where))))
    ensures forall u :: u in db ==> db'[u].columns == db[u].columns
    ensures forall u :: u in db && u != t ==>
      db'[u].rows == Survivors(db[u].columns, db[u].rows, t, Ids(Filter(db[t].rows, where)))
    ensures Consistent(db')
  {
    ZipKeysVals(where);
  }

  lemma NewRowGiven(cols: seq<ColumnDef>, data: Dict, id: int, now: int, i: int)
    requires Distinct(Names(cols)) && Distinct(Keys(data)) && 0 <= i < |data|
    requires data[i].0 in Names(cols)
    ensures Field(RowOf(cols, data, id, now), data[i].0) == data[i].1
  {
    RowOfFields(cols, data, id, now);
    var j :| 0 <= j < |cols| && Names(cols)[j] == data[i].0;
    LookupDistinct(data, i);
  }

  lemma NewRowDefault(cols: seq<ColumnDef>, data: Dict, id: int, now: int, c: ColumnDef)
    requires Distinct(Names(cols)) && c in cols && c.name !in Keys(data)
    ensures Field(RowOf(cols, data, id, now), c.name) == DefaultOf(c, id, now)
  {
    RowOfFields(cols, data, id, now);
    LookupAbsent(data, c.name);
  }

  lemma NewRowKeys(cols: seq<ColumnDef>, data: Dict, id: int, now: int)
    requires Distinct(Names(cols))
    ensures RowOf(cols, data, id, now).Keys == (set c | c in cols :: c.name)
  {
    RowOfFields(cols, data, id, now);
    forall c | c in cols ensures c.name in set i | 0 <= i < |cols| :: cols[i].name {
      var i :| 0 <= i < |cols| && cols[i] == c;
    }
  }

  /** The row built for an INSERT holds the given value in every named column, the default in
      every other declared column, and no other column. */
  lemma NewRowFields(cols: seq<ColumnDef>, data: Dict, id: int, now: int)
    requires Distinct(Names(cols)) && Distinct(Keys(data))
    requires forall k :: k in Keys(data) ==> k in Names(cols)
    ensures var row := RowOf(cols, data, id, now);
      && row.Keys == (set c | c in cols :: c.name)
      && (forall i :: 0 <= i < |data| ==> Field(row, data[i].0) == data[i].1)
      && (forall c :: c in cols && c.name !in Keys(data) ==> Field(row, c.name) == DefaultOf(c, id, now))
  {
    NewRowKeys(cols, data, id, now);
    forall i | 0 <= i < |data| ensures Field(RowOf(cols, data, id, now), data[i].0) == data[i].1 {
      assert Keys(data)[i] == data[i].0;
      NewRowGiven(cols, data, id, now, i);
    }
    forall c | c in cols && c.name !in Keys(data) ensures Field(RowOf(cols, data, id, now), c.name) == DefaultOf(c, id, now) {
      NewRowDefault(cols, data, id, now, c);
    }
  }

  /** What a successful INSERT did: appended one row built from `data` to `t`. */
  lemma InsertUnfold(db: Store, t: string, data: Dict, returningId: bool, now: int, db': Store, reply: Reply)
    requires Run(db, InsertCall(t, data, returningId), now) == Ok((db', reply))
    ensures data != [] && t in db && Distinct(Keys(data))
    ensures forall k :: k in Keys(data) ==> k in Names(db[t].columns)
    ensures var row := RowOf(db[t].columns, data, db[t].nextId, now);
      && db' == db[t := AddRow(db[t], data, now)]
      && reply == Reply(if returningId then [map["id" := Field(row, "id")]] else [], 1)
    ensures Consistent(db')
  {
    ZipKeysVals(data);
  }

  /** The row an INSERT adds holds the given value in every named column, the default in every
      other declared column, and no other column; it is appended after the existing rows, the
      other tables do not change, and RETURNING id reports its id. */
  lemma InsertMeaning(db: Store, t: string, data: Dict, returningId: bool, now: int, db': Store, reply: Reply)
    requires WellFormed(db)
    requires Run(db, InsertCall(t, data, returningId), now) == Ok((db', reply))
    ensures data != [] && t in db && t in db'
    ensures |db'[t].rows| == |db[t].rows| + 1 && db'[t].rows[..|db[t].rows|] == db[t].rows
    ensures var row := db'[t].rows[|db[t].rows|];
      && row.Keys == (set c | c in db[t].columns :: c.name)
      && (forall i :: 0 <= i < |data| ==> Field(row, data[i].0) == data[i].1)
      && (forall c :: c in db[t].columns && c.name !in Keys(data) ==> Field(row, c.name) == DefaultOf(c, db[t].nextId, now))
      && (returningId ==> reply.rows == [map["id" := Field(row, "id")]])
    ensures reply.rowcount == 1
    ensures forall u :: u != t ==> (u in db' <==> u in db) && (u in db ==> db'[u] == db[u])
    ensures Consistent(db')
  {
    InsertUnfold(db, t, data, returningId, now, db', reply);
    NewRowFields(db[t].columns, data, db[t].nextId, now);
    var row := RowOf(db[t].columns, data, db[t].nextId, now);
    assert db'[t].rows == db[t].rows + [row];
  }

  /** A table whose `id` column is its PRIMARY KEY. */
  predicate KeyedById(tbl: Table)
  {
    exists c :: c in tbl.columns && c.name == "id" && c.primaryKey
  }

  lemma FilterNone(rows: seq<Record>, f: Dict)
    requires forall r :: r in rows ==> !Holds(r, f)
    ensures Filter(rows, f) == []
  {
    if Filter(rows, f) != [] {
      assert Filter(rows, f)[0] in Filter(rows, f);
    }
  }

  /** In rows whose column `c` is unique and whose last row has a non-NULL `c`, filtering on
      that value finds the last row alone. */
  lemma UniqueLast(rows: seq<Record>, c: string)
    requires |rows| > 0 && Field(rows[|rows| - 1], c) != Null
    requires forall i, j :: 0 <= i < j < |rows| ==> Field(rows[i], c) == Null || Field(rows[i], c) != Field(rows[j], c)
    ensures Filter(rows, [(c, Field(rows[|rows| - 1], c))]) == [rows[|rows| - 1]]
  {
    var n := |rows| - 1;
    var f := [(c, Field(rows[n], c))];
    NoEarlierMatch(rows, c);
    assert Holds(rows[n], f);
    assert Filter([rows[n]], f) == [rows[n]];
    assert rows == rows[..n] + [rows[n]];
    FilterAppend(rows[..n], [rows[n]], f);
  }

  lemma NoEarlierMatch(rows: seq<Record>, c: string)
    requires |rows| > 0
    requires forall i, j :: 0 <= i < j < |rows| ==> Field(rows[i], c) == Null || Field(rows[i], c) != Field(rows[j], c)
    ensures Filter(rows[..|rows| - 1], [(c, Field(rows[|rows| - 1], c))]) == []
  {
    var n := |rows| - 1;
    var f := [(c, Field(rows[n], c))];
    forall r | r in rows[..n] ensures !Holds(r, f) {
      var i :| 0 <= i < n && rows[..n][i] == r;
      assert rows[i] == r;
      assert Field(rows[i], c) == Null || Field(rows[i], c) != Field(rows[n], c);
      assert !(f[0].1 != Null && Field(r, f[0].0) == f[0].1);
    }
    FilterNone(rows[..n], f);
  }

  /** `select_by_id` returns the rows that have the id, in storage order. */
  lemma SelectByIdFinds(db: Store, t: string, id: int, now: int)
    requires t in db && "id" in ColumnNames(db[t])
    ensures Run(db, SelectByIdCall(t, id), now) == Ok((db, Reply(Filter(db[t].rows, [("id", Int(id))]), |Filter(db[t].rows, [("id", Int(id))])|)))
  {
    var sel := SelectByIdCall(t, id);
    assert [] + sel.stmt.whereCols + SortColumns([]) == ["id"];
    assert Zip(["id"], [Int(id)]) == [("id", Int(id))];
    SortRowsNoKeys(Filter(db[t].rows, [("id", Int(id))]));
  }

  /** After `insert(t, data, return_id=True)` on a table keyed by `id`, the returned id is not
      NULL, exactly one row has it, and `select_by_id` with it returns that new row. */
  lemma InsertThenSelectById(db: Store, t: string, data: Dict, now: int, db': Store, reply: Reply)
    requires WellFormed(db)
    requires Run(db, InsertCall(t, data, true), now) == Ok((db', reply))
    requires t in db && KeyedById(db[t])
    ensures |reply.rows| == 1 && "id" in reply.rows[0] && reply.rows[0]["id"] != Null
    ensures var row := db'[t].rows[|db[t].rows|];
      && Filter(db'[t].rows, [("id", reply.rows[0]["id"])]) == [row]
      && (reply.rows[0]["id"].Int? ==>
            Run(db', SelectByIdCall(t, reply.rows[0]["id"].i), now) == Ok((db', Reply([row], 1))))
  {
    InsertUnfold(db, t, data, true, now, db', reply);
    assert db'[t].columns == db[t].columns;
    assert db'[t].rows == db[t].rows + [RowOf(db[t].columns, data, db[t].nextId, now)];
    LastRowFound(db', t, now);
  }

  /** In a consistent table keyed by `id`, the last row's id is not NULL, that row is the only
      one with it, and `select_by_id` with it returns just that row. */
  lemma LastRowFound(db: Store, t: string, now: int)
    requires Consistent(db) && WellFormed(db) && t in db && KeyedById(db[t]) && |db[t].rows| > 0
    ensures var row := db[t].rows[|db[t].rows| - 1];
      && Field(row, "id") != Null
      && Filter(db[t].rows, [("id", Field(row, "id"))]) == [row]
      && (Field(row, "id").Int? ==> Run(db, SelectByIdCall(t, Field(row, "id").i), now) == Ok((db, Reply([row], 1))))
  {
    var rows := db[t].rows;
    var n := |rows| - 1;
    var c :| c in db[t].columns && c.name == "id" && c.primaryKey;
    var k :| 0 <= k < |db[t].columns| && db[t].columns[k] == c;
    assert ColumnConsistent(db, db[t].columns[k], rows);
    assert rows[n] in rows;
    UniqueLast(rows, "id");
    assert "id" in ColumnNames(db[t]) by {
      assert Names(db[t].columns)[k] == "id";
    }
    if Field(rows[n], "id").Int? {
      SelectByIdFinds(db, t, Field(rows[n], "id").i, now);
    }
  }

  /** The constraints of column `c` hold for the new row after a successful INSERT. */
  lemma InsertedRowConsistent(db: Store, t: string, data: Dict, returningId: bool, now: int, c: ColumnDef)
    requires Run(db, InsertCall(t, data, returningId), now).Ok?
    requires t in db && c in db[t].columns
    ensures var db' := Run(db, InsertCall(t, data, returningId), now).value.0;
      && t in db' && |db'[t].rows| == |db[t].rows| + 1 && db'[t].rows[..|db[t].rows|] == db[t].rows
      && db'[t].rows[|db[t].rows|] == RowOf(db[t].columns, data, db[t].nextId, now)
      && ColumnConsistent(db', c, db'[t].rows)
  {
    var (db', reply) := Run(db, InsertCall(t, data, returningId), now).value;
    InsertUnfold(db, t, data, returningId, now, db', reply);
    var k :| 0 <= k < |db[t].columns| && db[t].columns[k] == c;
    assert db'[t].columns[k] == c;
  }

  /** A successful INSERT gives a NOT NULL column it leaves out a non-NULL default. */
  lemma InsertFillsRequired(db: Store, t: string, data: Dict, returningId: bool, now: int, c: ColumnDef)
    requires WellFormed(db) && Run(db, InsertCall(t, data, returningId), now).Ok?
    requires t in db && c in db[t].columns && c.Required() && c.name !in Keys(data)
    ensures DefaultOf(c, db[t].nextId, now) != Null
  {
    InsertedRowConsistent(db, t, data, returningId, now, c);
    var db' := Run(db, InsertCall(t, data, returningId), now).value.0;
    NewRowDefault(db[t].columns, data, db[t].nextId, now, c);
    assert db'[t].rows[|db[t].rows|] in db'[t].rows;
  }

  /** Leaving out a NOT NULL column that has no default makes the INSERT fail. */
  lemma InsertMissingRequiredFails(db: Store, t: string, data: Dict, returningId: bool, now: int, c: ColumnDef)
    requires WellFormed(db) && t in db && c in db[t].columns
    requires c.Required() && c.sqlType != Serial && c.default == NoDefault && c.name !in Keys(data)
    ensures Run(db, InsertCall(t, data, returningId), now).Err?
  {
    if Run(db, InsertCall(t, data, returningId), now).Ok? {
      InsertFillsRequired(db, t, data, returningId, now, c);
      assert false;
    }
  }

  /** A successful INSERT gives a UNIQUE or PRIMARY KEY column a value no earlier row has. */
  lemma InsertKeepsUnique(db: Store, t: string, data: Dict, returningId: bool, now: int, c: ColumnDef, i: int)
    requires WellFormed(db) && Run(db, InsertCall(t, data, returningId), now).Ok?
    requires t in db && c in db[t].columns && c.Distinguishing()
    requires 0 <= i < |data| && data[i].0 == c.name && data[i].1 != Null
    ensures forall r :: r in db[t].rows ==> Field(r, c.name) != data[i].1
  {
    var (db', reply) := Run(db, InsertCall(t, data, returningId), now).value;
    InsertUnfold(db, t, data, returningId, now, db', reply);
    InsertedRowConsistent(db, t, data, returningId, now, c);
    assert Keys(data)[i] == c.name;
    NewRowGiven(db[t].columns, data, db[t].nextId, now, i);
    var n := |db[t].rows|;
    forall r | r in db[t].rows ensures Field(r, c.name) != data[i].1 {
      var j :| 0 <= j < n && db[t].rows[j] == r;
      assert db'[t].rows[j] == r;
    }
  }

  /** Giving a UNIQUE or PRIMARY KEY column a value that a row of the table already has makes
      the INSERT fail. */
  lemma InsertDuplicateFails(db: Store, t: string, data: Dict, returningId: bool, now: int, c: ColumnDef, i: int, r: Record)
    requires WellFormed(db) && t in db && c in db[t].columns && c.Distinguishing()
    requires 0 <= i < |data| && data[i].0 == c.name && data[i].1 != Null
    requires r in db[t].rows && Field(r, c.name) == data[i].1
    ensures Run(db, InsertCall(t, data, returningId), now).Err?
  {
    if Run(db, InsertCall(t, data, returningId), now).Ok? {
      InsertKeepsUnique(db, t, data, returningId, now, c, i);
      assert false;
    }
  }

  /** A successful INSERT gives a REFERENCES column to another table a value that names an
      existing row there. */
  lemma InsertKeepsReference(db: Store, t: string, data: Dict, returningId: bool, now: int, c: ColumnDef, i: int)
    requires WellFormed(db) && Run(db, InsertCall(t, data, returningId), now).Ok?
    requires t in db && c in db[t].columns && c.references.Some? && c.references.value.table != t
    requires 0 <= i < |data| && data[i].0 == c.name && data[i].1 != Null
    ensures Referenced(db, c.references.value.table, data[i].1)
  {
    var (db', reply) := Run(db, InsertCall(t, data, returningId), now).value;
    InsertUnfold(db, t, data, returningId, now, db', reply);
    InsertedRowConsistent(db, t, data, returningId, now, c);
    assert Keys(data)[i] == c.name;
    NewRowGiven(db[t].columns, data, db[t].nextId, now, i);
    assert db'[t].rows[|db[t].rows|] in db'[t].rows;
    var u := c.references.value.table;
    assert Referenced(db', u, data[i].1);
  }

  /** Giving a REFERENCES column a value that no row of the referenced (other) table has as
      its id makes the INSERT fail. */
  lemma InsertDanglingReferenceFails(db: Store, t: string, data: Dict, returningId: bool, now: int, c: ColumnDef, i: int)
    requires WellFormed(db) && t in db && c in db[t].columns && c.references.Some? && c.references.value.table != t
    requires 0 <= i < |data| && data[i].0 == c.name && data[i].1 != Null
    requires !Referenced(db, c.references.value.table, data[i].1)
    ensures Run(db, InsertCall(t, data, returningId), now).Err?
  {
    if Run(db, InsertCall(t, data, returningId), now).Ok? {
      InsertKeepsReference(db, t, data, returningId, now, c, i);
      assert false;
    }
  }

  /** `update` and `delete` always write `WHERE`, so an empty filter is a syntax error rather
      than a statement over the whole table; so is an empty SET list. */
  lemma EmptyClausesRejected(db: Store, t: string, data: Dict, where: Dict, now: int)
    ensures Run(db, DeleteCall(t, []), now) == Err(SyntaxError)
    ensures Run(db, UpdateCall(t, data, []), now) == Err(SyntaxError)
    ensures Run(db, UpdateCall(t, [], where), now) == Err(SyntaxError)
  {
  }

  /** CREATE TABLE IF NOT EXISTS on an existing table keeps it, rows and columns, whatever
      columns the statement lists. */
  lemma CreateExistingKeeps(db: Store, t: string, columns: seq<ColumnDef>, constraints: seq<string>, now: int)
    requires t in db
    ensures Run(db, CreateTableCall(t, columns, constraints), now) == Ok((db, Reply([], -1)))
  {
  }

  lemma {:induction false} AddRowsAppends(tbl: Table, data: seq<Dict>, now: int)
    ensures AddRows(tbl, data, now).columns == tbl.columns
    ensures |AddRows(tbl, data, now).rows| == |tbl.rows| + |data|
    ensures AddRows(tbl, data, now).rows[..|tbl.rows|] == tbl.rows
    decreases |data|
  {
    if data != [] {
      var next := AddRow(tbl, data[0], now);
      AddRowsAppends(next, data[1..], now);
      assert next.rows[..|tbl.rows|] == tbl.rows;
      assert AddRows(tbl, data, now).rows[..|tbl.rows|] == AddRows(next, data[1..], now).rows[..|next.rows|][..|tbl.rows|];
    }
  }

  /** `insert_many(t, records)` on a non-empty list adds one row per record after the existing
      rows and reports how many; a record lacking a column of the first record is a KeyError. */
  lemma InsertManyMeaning(db: Store, t: string, records: seq<Dict>, now: int, db': Store, reply: Reply)
    requires records != []
    requires InsertManyCall(t, records).Ok? && Run(db, InsertManyCall(t, records).value, now) == Ok((db', reply))
    ensures t in db && t in db' && reply.rowcount == |records|
    ensures |db'[t].rows| == |db[t].rows| + |records| && db'[t].rows[..|db[t].rows|] == db[t].rows
    ensures forall u :: u != t ==> (u in db' <==> u in db) && (u in db ==> db'[u] == db[u])
    ensures Consistent(db')
  {
    var call := InsertManyCall(t, records).value;
    AllRowValuesLength(records, Keys(records[0]));
    AddRowsAppends(db[t], ZipRows(Keys(records[0]), call.params.rows), now);
  }

  /** The k-th row insert_many appends is built from the k-th record, with the sequence value
      left by the rows before it. */
  lemma {:induction false} AddRowsNth(tbl: Table, data: seq<Dict>, now: int, k: int)
    requires 0 <= k < |data|
    ensures |AddRows(tbl, data, now).rows| == |tbl.rows| + |data|
    ensures AddRows(tbl, data, now).rows[|tbl.rows| + k]
      == RowOf(tbl.columns, data[k], AddRows(tbl, data[..k], now).nextId, now)
    decreases k
  {
    AddRowsAppends(tbl, data, now);
    var next := AddRow(tbl, data[0], now);
    AddRowsAppends(next, data[1..], now);
    if k == 0 {
      assert AddRows(tbl, data, now).rows[..|next.rows|][|tbl.rows|] == next.rows[|tbl.rows|];
      assert data[..0] == [];
    } else {
      AddRowsNth(next, data[1..], now, k - 1);
      assert data[..k][1..] == data[1..][..k - 1];
      assert data[..k][0] == data[0];
    }
  }

  /** When every record takes a value from the SERIAL sequence, the sequence advances by one
      per record. */
  lemma {:induction false} AddRowsAdvances(tbl: Table, data: seq<Dict>, now: int)
    requires forall j :: 0 <= j < |data| ==> UsesSequence(tbl.columns, data[j])
    ensures AddRows(tbl, data, now).nextId == tbl.nextId + |data|
    decreases |data|
  {
    if data != [] {
      var next := AddRow(tbl, data[0], now);
      assert forall j :: 0 <= j < |data| - 1 ==> data[1..][j] == data[j + 1];
      AddRowsAdvances(next, data[1..], now);
    }
  }

  /** A successful insert_many appended one row per record, built from a dict with the first
      record's columns and, in each, the record's value. */
  /** `data` is the batch insert_many builds from `records` for a table with columns `cols`:
      one dict per record, each over the first record's keys, with that record's values. */
  predicate BatchFrom(records: seq<Dict>, data: seq<Dict>, cols: seq<ColumnDef>)
  {
    && records != [] && |data| == |records|
    && Distinct(Keys(records[0])) && (forall c :: c in Keys(records[0]) ==> c in Names(cols))
    && (forall k :: 0 <= k < |records| ==> Keys(data[k]) == Keys(records[0]))
    && (forall k, j :: 0 <= k < |records| && 0 <= j < |data[k]| ==> Lookup(records[k], data[k][j].0) == Some(data[k][j].1))
  }

  lemma InsertManyUnfold(db: Store, t: string, records: seq<Dict>, now: int, db': Store, reply: Reply)
    returns (data: seq<Dict>)
    requires records != []
    requires InsertManyCall(t, records).Ok? && Run(db, InsertManyCall(t, records).value, now) == Ok((db', reply))
    ensures t in db && db' == db[t := AddRows(db[t], data, now)] && BatchFrom(records, data, db[t].columns)
  {
    var columns := Keys(records[0]);
    var vals := AllRowValues(records, columns).value;
    data := ZipRows(columns, vals);
    ZipBatch(records, vals, db[t].columns);
  }

  /** The dicts zipped from the first record's keys and every record's values form the batch. */
  lemma ZipBatch(records: seq<Dict>, vals: seq<seq<Value>>, cols: seq<ColumnDef>)
    requires records != [] && AllRowValues(records, Keys(records[0])) == Ok(vals)
    requires forall i :: 0 <= i < |vals| ==> |vals[i]| == |Keys(records[0])|
    requires Distinct(Keys(records[0])) && forall c :: c in Keys(records[0]) ==> c in Names(cols)
    ensures BatchFrom(records, ZipRows(Keys(records[0]), vals), cols)
  {
    var columns := Keys(records[0]);
    AllRowValuesMeaning(records, columns);
    forall k | 0 <= k < |records| {
      RowValuesMeaning(records[k], columns);
    }
  }

  /** The k-th row appended for dicts that all have the columns `keys`: the k-th dict's value in
      each of its columns, the default elsewhere, SERIAL ids running on from the table's. */
  lemma AddRowsRow(tbl: Table, data: seq<Dict>, keys: seq<string>, now: int, k: int)
    requires Distinct(Names(tbl.columns)) && Distinct(keys) && 0 <= k < |data|
    requires forall j :: 0 <= j < |data| ==> Keys(data[j]) == keys
    ensures |AddRows(tbl, data, now).rows| == |tbl.rows| + |data|
    ensures forall i :: 0 <= i < |data[k]| && data[k][i].0 in Names(tbl.columns) ==>
      Field(AddRows(tbl, data, now).rows[|tbl.rows| + k], data[k][i].0) == data[k][i].1
    ensures forall c :: c in tbl.columns && c.name !in keys ==>
      Field(AddRows(tbl, data, now).rows[|tbl.rows| + k], c.name) == DefaultOf(c, tbl.nextId + k, now)
  {
    var cols := tbl.columns;
    AddRowsNth(tbl, data, now, k);
    var id := AddRows(tbl, data[..k], now).nextId;
    forall i | 0 <= i < |data[k]| && data[k][i].0 in Names(cols)
      ensures Field(RowOf(cols, data[k], id, now), data[k][i].0) == data[k][i].1
    {
      NewRowGiven(cols, data[k], id, now, i);
    }
    forall c | c in cols && c.name !in keys
      ensures Field(RowOf(cols, data[k], id, now), c.name) == DefaultOf(c, tbl.nextId + k, now)
    {
      NewRowDefault(cols, data[k], id, now, c);
      if c.sqlType == Serial {
        var i :| 0 <= i < |cols| && cols[i] == c;
        forall j | 0 <= j < |data[..k]| ensures UsesSequence(cols, data[..k][j]) {
          LookupAbsent(data[j], c.name);
        }
        AddRowsAdvances(tbl, data[..k], now);
      }
    }
  }

  /** What insert_many stores: the k-th new row holds, in each column of the first record, the
      k-th record's value, and in every other declared column its default, the SERIAL ids
      running consecutively from the table's next value. */
  lemma InsertManyRow(db: Store, t: string, records: seq<Dict>, now: int, db': Store, reply: Reply, k: int)
    requires WellFormed(db) && records != [] && 0 <= k < |records|
    requires InsertManyCall(t, records).Ok? && Run(db, InsertManyCall(t, records).value, now) == Ok((db', reply))
    ensures t in db && t in db' && |db'[t].rows| == |db[t].rows| + |records|
    ensures forall c :: c in Keys(records[0]) ==> Lookup(records[k], c) == Some(Field(db'[t].rows[|db[t].rows| + k], c))
    ensures forall c :: c in db[t].columns && c.name !in Keys(records[0]) ==>
      Field(db'[t].rows[|db[t].rows| + k], c.name) == DefaultOf(c, db[t].nextId + k, now)
  {
    var data := InsertManyUnfold(db, t, records, now, db', reply);
    InsertedRow(db, t, records, data, now, db', k);
  }

  /** Row k of a batch built from `records` holds record k's values and the defaults. */
  lemma InsertedRow(db: Store, t: string, records: seq<Dict>, data: seq<Dict>, now: int, db': Store, k: int)
    requires t in db && Distinct(Names(db[t].columns)) && 0 <= k < |records| && BatchFrom(records, data, db[t].columns)
    requires db' == db[t := AddRows(db[t], data, now)]
    ensures t in db && t in db' && |db'[t].rows| == |db[t].rows| + |records|
    ensures forall c :: c in Keys(records[0]) ==> Lookup(records[k], c) == Some(Field(db'[t].rows[|db[t].rows| + k], c))
    ensures forall c :: c in db[t].columns && c.name !in Keys(records[0]) ==>
      Field(db'[t].rows[|db[t].rows| + k], c.name) == DefaultOf(c, db[t].nextId + k, now)
  {
    var columns := Keys(records[0]);
    AddRowsRow(db[t], data, columns, now, k);
    forall c | c in columns
      ensures Lookup(records[k], c) == Some(Field(db'[t].rows[|db[t].rows| + k], c))
    {
      var j :| 0 <= j < |columns| && columns[j] == c;
      assert Keys(data[k])[j] == data[k][j].0;
    }
  }

  lemma {:induction false} AllRowValuesLength(records: seq<Dict>, columns: seq<string>)
    requires AllRowValues(records, columns).Ok?
    ensures |AllRowValues(records, columns).value| == |records|
    decreases |records|
  {
    if records != [] {
      AllRowValuesLength(records[1..], columns);
    }
  }

  /** CREATE TABLE adds an empty table, which breaks no constraint of the tables already there. */
  lemma CreateKeepsConsistent(db: Store, t: string, schema: seq<ColumnDef>)
    requires Consistent(db) && t !in db
    ensures Consistent(db[t := Table(schema, [], 1)])
  {
    var db' := db[t := Table(schema, [], 1)];
    forall u, i | u in db' && 0 <= i < |db'[u].columns|
      ensures ColumnConsistent(db', db'[u].columns[i], db'[u].rows)
    {
      if u != t {
        var c := db[u].columns[i];
        assert ColumnConsistent(db, c, db[u].rows);
        forall r | r in db[u].rows && c.references.Some? && Field(r, c.name) != Null
          ensures Referenced(db', c.references.value.table, Field(r, c.name))
        {
          var w :| w in db[c.references.value.table].rows && Field(w, "id") == Field(r, c.name);
        }
      }
    }
  }

  /** Every successful statement leaves the store consistent and well formed. */
  lemma RunPreservesConsistent(db: Store, call: Call, now: int)
    requires Consistent(db) && WellFormed(db)
    requires Run(db, call, now).Ok?
    ensures Consistent(Run(db, call, now).value.0) && WellFormed(Run(db, call, now).value.0)
  {
    match call.stmt
    case CreateTableStmt(_, _, _) => CreatePreservesConsistent(db, call, now);
    case InsertValuesStmt(_, _) => InsertValuesPreservesConsistent(db, call, now);
    case _ => OtherPreservesConsistent(db, call, now);
  }

  lemma CreatePreservesConsistent(db: Store, call: Call, now: int)
    requires Consistent(db) && WellFormed(db) && call.stmt.CreateTableStmt?
    requires Run(db, call, now).Ok?
    ensures Consistent(Run(db, call, now).value.0) && WellFormed(Run(db, call, now).value.0)
  {
    if call.stmt.table !in db {
      CreateKeepsConsistent(db, call.stmt.table, call.stmt.schema);
    }
  }

  lemma InsertValuesPreservesConsistent(db: Store, call: Call, now: int)
    requires Consistent(db) && WellFormed(db) && call.stmt.InsertValuesStmt?
    requires Run(db, call, now).Ok?
    ensures Consistent(Run(db, call, now).value.0) && WellFormed(Run(db, call, now).value.0)
  {
    AddRowsAppends(db[call.stmt.table], ZipRows(call.stmt.columns, call.params.rows), now);
  }

  lemma OtherPreservesConsistent(db: Store, call: Call, now: int)
    requires Consistent(db) && WellFormed(db) && !call.stmt.CreateTableStmt? && !call.stmt.InsertValuesStmt?
    requires Run(db, call, now).Ok?
    ensures Consistent(Run(db, call, now).value.0) && WellFormed(Run(db, call, now).value.0)
  {
  }

  /** The ids removed by deleting `{'id': id}` from `parent` are at most that id, and are
      that id whenever some row refers to it. */
  lemma RemovedIds(db: Store, parent: string, id: int)
    requires parent in db
    ensures forall v :: v in Ids(Filter(db[parent].rows, [("id", Int(id))])) ==> v == Int(id)
    ensures Referenced(db, parent, Int(id)) ==> Int(id) in Ids(Filter(db[parent].rows, [("id", Int(id))]))
  {
    var where := [("id", Int(id))];
    var ids := Ids(Filter(db[parent].rows, where));
    forall v | v in ids ensures v == Int(id) {
      var p :| p in Filter(db[parent].rows, where) && Field(p, "id") != Null && Field(p, "id") == v;
      assert Holds(p, where);
      assert where[0].1 == Int(id);
    }
    if Referenced(db, parent, Int(id)) {
      var p :| p in db[parent].rows && Field(p, "id") == Int(id);
      assert Holds(p, where);
    }
  }

  /** A row of `t` whose only cascading reference to `parent` is column `k` is removed with
      the parent row `id` exactly when that column holds `id`. */
  lemma DoomedByReference(db: Store, parent: string, id: int, t: string, k: int, r: Record)
    requires Consistent(db) && parent in db
    requires t in db && 0 <= k < |db[t].columns| && r in db[t].rows
    requires forall i :: 0 <= i < |db[t].columns| ==> (db[t].columns[i].references == Some(ForeignKey(parent, true)) <==> i == k)
    ensures Doomed(db[t].columns, r, parent, Ids(Filter(db[parent].rows, [("id", Int(id))])))
        <==> Field(r, db[t].columns[k].name) == Int(id)
  {
    var cols := db[t].columns;
    RemovedIds(db, parent, id);
    if Field(r, cols[k].name) == Int(id) {
      assert ColumnConsistent(db, cols[k], db[t].rows);
    }
  }

  /** `delete_by_id(parent, id)` removes from a table `t` whose one cascading reference to
      `parent` is column `k` exactly the rows that hold `id` in that column. */
  lemma DeleteByIdCascades(db: Store, parent: string, id: int, now: int, db': Store, reply: Reply, t: string, k: int)
    requires Consistent(db)
    requires Run(db, DeleteCall(parent, [("id", Int(id))]), now) == Ok((db', reply))
    requires t in db && t != parent && 0 <= k < |db[t].columns|
    requires forall i :: 0 <= i < |db[t].columns| ==> (db[t].columns[i].references == Some(ForeignKey(parent, true)) <==> i == k)
    ensures t in db'
    ensures forall r :: r in db'[t].rows <==> r in db[t].rows && Field(r, db[t].columns[k].name) != Int(id)
  {
    DeleteMeaning(db, parent, [("id", Int(id))], now, db', reply);
    CascadedRows(db, parent, id, db', t, k);
  }

  lemma CascadedRows(db: Store, parent: string, id: int, db': Store, t: string, k: int)
    requires Consistent(db) && parent in db && t in db && t in db' && 0 <= k < |db[t].columns|
    requires forall i :: 0 <= i < |db[t].columns| ==> (db[t].columns[i].references == Some(ForeignKey(parent, true)) <==> i == k)
    requires db'[t].rows == Survivors(db[t].columns, db[t].rows, parent, Ids(Filter(db[parent].rows, [("id", Int(id))])))
    ensures forall r :: r in db'[t].rows <==> r in db[t].rows && Field(r, db[t].columns[k].name) != Int(id)
  {
    forall r | r in db[t].rows
      ensures Doomed(db[t].columns, r, parent, Ids(Filter(db[parent].rows, [("id", Int(id))])))
        <==> Field(r, db[t].columns[k].name) == Int(id)
    {
      DoomedByReference(db, parent, id, t, k, r);
    }
  }
}
