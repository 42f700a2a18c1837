/** The statements PostgreSQLDriver sends: their structure, their text as a token sequence,
    and the (statement, parameters) pairs each driver operation builds. */
module Sql {
  import opened Values
  import opened Schema

  datatype SortKey = Asc(column: string) | Desc(column: string)

  /** A statement. A condition or assignment `col = %s` is represented by its column. */
  datatype Stmt =
    | SelectStmt(table: string, columns: seq<string>, whereCols: seq<string>,
                 orderBy: seq<SortKey>, limit: Option<int>, offset: Option<int>)
    | CountStmt(table: string, whereCols: seq<string>)
    | InsertStmt(table: string, columns: seq<string>, returningId: bool)
    | InsertValuesStmt(table: string, columns: seq<string>)
    | UpdateStmt(table: string, setCols: seq<string>, whereCols: seq<string>)
    | DeleteStmt(table: string, whereCols: seq<string>)
    | CreateTableStmt(table: string, schema: seq<ColumnDef>, definition: seq<string>)

  /** The second argument of cursor.execute (None or a tuple), or the row list of execute_values. */
  datatype Params = NoParams | Tuple(values: seq<Value>) | Rows(rows: seq<seq<Value>>)

  datatype Call = Call(stmt: Stmt, params: Params)

  function ParamValues(p: Params): seq<Value>
  {
    match p
    case Tuple(vs) => vs
    case _ => []
  }

  // ---------------------------------------------------------------------------
  // Statement text

  datatype Token =
    | Keyword(word: string)
    | Ident(name: string)
    | Placeholder          // %s
    | Equals
    | Comma
    | Star
    | LParen
    | RParen
    | Number(n: int)       // a LIMIT or OFFSET interpolated into the text
    | Fragment(text: string)  // a column definition or constraint, copied verbatim

  /** Number of %s slots in a token sequence. */
  function Slots(ts: seq<Token>): nat
  {
    if ts == [] then 0 else (if ts[0] == Placeholder then 1 else 0) + Slots(ts[1..])
  }

  lemma {:induction false} SlotsAppend(a: seq<Token>, b: seq<Token>)
    ensures Slots(a + b) == Slots(a) + Slots(b)
  {
    if a != [] {
      var ab := a + b;
      assert ab != [] && ab[0] == a[0];
      assert ab[1..] == a[1..] + b;
      calc {
        Slots(ab);
        (if a[0] == Placeholder then 1 else 0) + Slots(a[1..] + b);
        { SlotsAppend(a[1..], b); }
        Slots(a) + Slots(b);
      }
    } else {
      assert a + b == b;
    }
  }

  /** `col = %s` */
  function Condition(c: string): seq<Token>
  {
    [Ident(c), Equals, Placeholder]
  }

  /** `c1 = %s <sep> c2 = %s <sep> ...`, the join of where_conditions or set_clauses. */
  function Conditions(cols: seq<string>, sep: Token): seq<Token>
    decreases |cols|
  {
    if cols == [] then []
    else if |cols| == 1 then Condition(cols[0])
    else Condition(cols[0]) + [sep] + Conditions(cols[1..], sep)
  }

  /** `a, b, c` */
  function Separated(items: seq<Token>): seq<Token>
    decreases |items|
  {
    if |items| <= 1 then items else [items[0], Comma] + Separated(items[1..])
  }

  function Idents(names: seq<string>): seq<Token>
  {
    seq(|names|, i requires 0 <= i < |names| => Ident(names[i]))
  }

  function Fragments(texts: seq<string>): seq<Token>
  {
    seq(|texts|, i requires 0 <= i < |texts| => Fragment(texts[i]))
  }

  function PlaceholderList(n: nat): seq<Token>
  {
    seq(n, i => Placeholder)
  }

  function WhereText(whereCols: seq<string>): seq<Token>
  {
    if whereCols == [] then [] else [Keyword("WHERE")] + Conditions(whereCols, Keyword("AND"))
  }

  function OrderText(keys: seq<SortKey>): seq<Token>
  {
    if keys == [] then []
    else [Keyword("ORDER BY")] + Separated(seq(|keys|, i requires 0 <= i < |keys| =>
      match keys[i]
      case Asc(c) => Fragment(c + " ASC")
      case Desc(c) => Fragment(c + " DESC")))
  }

  function Render(s: Stmt): seq<Token>
  {
    match s
    case SelectStmt(t, cols, whereCols, orderBy, limit, offset) =>
      [Keyword("SELECT")] + (if cols == [] then [Star] else Separated(Idents(cols)))
      + [Keyword("FROM"), Ident(t)] + WhereText(whereCols) + OrderText(orderBy)
      + (if limit.Some? then [Keyword("LIMIT"), Number(limit.value)] else [])
      + (if offset.Some? then [Keyword("OFFSET"), Number(offset.value)] else [])
    case CountStmt(t, whereCols) =>
      [Keyword("SELECT COUNT(*) FROM"), Ident(t)] + WhereText(whereCols)
    case InsertStmt(t, cols, returningId) =>
      [Keyword("INSERT INTO"), Ident(t), LParen] + Separated(Idents(cols))
      + [RParen, Keyword("VALUES"), LParen] + Separated(PlaceholderList(|cols|)) + [RParen]
      + (if returningId then [Keyword("RETURNING"), Ident("id")] else [])
    case InsertValuesStmt(t, cols) =>
      [Keyword("INSERT INTO"), Ident(t), LParen] + Separated(Idents(cols))
      + [RParen, Keyword("VALUES"), Placeholder]
    case UpdateStmt(t, setCols, whereCols) =>
      // WHERE is written even when there are no conditions
      [Keyword("UPDATE"), Ident(t), Keyword("SET")] + Conditions(setCols, Comma)
      + [Keyword("WHERE")] + Conditions(whereCols, Keyword("AND"))
    case DeleteStmt(t, whereCols) =>
      [Keyword("DELETE FROM"), Ident(t), Keyword("WHERE")] + Conditions(whereCols, Keyword("AND"))
    case CreateTableStmt(t, _, definition) =>
      [Keyword("CREATE TABLE IF NOT EXISTS"), Ident(t), LParen] + Separated(Fragments(definition)) + [RParen]
  }

  /** Number of parameters a statement binds. */
  function Arity(s: Stmt): nat
  {
    match s
    case SelectStmt(_, _, whereCols, _, _, _) => |whereCols|
    case CountStmt(_, whereCols) => |whereCols|
    case InsertStmt(_, cols, _) => |cols|
    case InsertValuesStmt(_, _) => 1
    case UpdateStmt(_, setCols, whereCols) => |setCols| + |whereCols|
    case DeleteStmt(_, whereCols) => |whereCols|
    case CreateTableStmt(_, _, _) => 0
  }

  lemma {:induction false} ConditionsSlots(cols: seq<string>, sep: Token)
    requires sep != Placeholder
    ensures Slots(Conditions(cols, sep)) == |cols|
    decreases |cols|
  {
    if |cols| == 1 {
      ConditionSlots(cols[0]);
    } else if |cols| > 1 {
      SlotsAppend(Condition(cols[0]) + [sep], Conditions(cols[1..], sep));
      SlotsAppend(Condition(cols[0]), [sep]);
      ConditionSlots(cols[0]);
      ConditionsSlots(cols[1..], sep);
    }
  }

  lemma ConditionSlots(c: string)
    ensures Slots(Condition(c)) == 1
  {
    assert Condition(c) == [Ident(c), Equals] + [Placeholder];
    SlotsAppend([Ident(c), Equals], [Placeholder]);
    NoSlots([Ident(c), Equals]);
    UniformSlots([Placeholder], Placeholder);
  }

  lemma IdentListSlots(names: seq<string>)
    ensures Slots(Separated(Idents(names))) == 0
  {
    SeparatedSlots(Idents(names));
    NoSlots(Idents(names));
  }

  lemma {:induction false} SeparatedSlots(items: seq<Token>)
    ensures Slots(Separated(items)) == Slots(items)
    decreases |items|
  {
    if |items| > 1 {
      SlotsAppend([items[0], Comma], Separated(items[1..]));
      SeparatedSlots(items[1..]);
      assert items == [items[0]] + items[1..];
      SlotsAppend([items[0]], items[1..]);
    }
  }

  lemma {:induction false} UniformSlots(ts: seq<Token>, t: Token)
    requires forall i :: 0 <= i < |ts| ==> ts[i] == t
    ensures Slots(ts) == if t == Placeholder then |ts| else 0
  {
    if ts != [] {
      UniformSlots(ts[1..], t);
    }
  }

  lemma {:induction false} NoSlots(ts: seq<Token>)
    requires forall i :: 0 <= i < |ts| ==> ts[i] != Placeholder
    ensures Slots(ts) == 0
  {
    if ts != [] {
      NoSlots(ts[1..]);
    }
  }

  /** The statement text holds one %s per bound parameter. */
  lemma RenderSlots(s: Stmt)
    ensures Slots(Render(s)) == Arity(s)
  {
    match s
    case SelectStmt(t, cols, whereCols, orderBy, limit, offset) =>
      SelectSlots(t, cols, whereCols, orderBy, limit, offset);
    case CountStmt(t, whereCols) =>
      CountSlots(t, whereCols);
    case InsertStmt(t, cols, returningId) =>
      InsertSlots(t, cols, returningId);
    case InsertValuesStmt(t, cols) =>
      InsertValuesSlots(t, cols);
    case UpdateStmt(t, setCols, whereCols) =>
      UpdateSlots(t, setCols, whereCols);
    case DeleteStmt(t, whereCols) =>
      DeleteSlots(t, whereCols);
    case CreateTableStmt(t, schema, definition) =>
      CreateSlots(t, schema, definition);
  }

  lemma CountSlots(t: string, whereCols: seq<string>)
    ensures Slots(Render(CountStmt(t, whereCols))) == |whereCols|
  {
    SlotsAppend([Keyword("SELECT COUNT(*) FROM"), Ident(t)], WhereText(whereCols));
    NoSlots([Keyword("SELECT COUNT(*) FROM"), Ident(t)]);
    WhereSlots(whereCols);
  }

  lemma InsertValuesSlots(t: string, cols: seq<string>)
    ensures Slots(Render(InsertValuesStmt(t, cols))) == 1
  {
    var a := [Keyword("INSERT INTO"), Ident(t), LParen] + Separated(Idents(cols))
             + [RParen, Keyword("VALUES")];
    assert Render(InsertValuesStmt(t, cols)) == a + [Placeholder];
    SlotsAppend(a, [Placeholder]);
    InsertHeadSlots(t, cols, [RParen, Keyword("VALUES")]);
    UniformSlots([Placeholder], Placeholder);
  }

  lemma DeleteSlots(t: string, whereCols: seq<string>)
    ensures Slots(Render(DeleteStmt(t, whereCols))) == |whereCols|
  {
    var a := [Keyword("DELETE FROM"), Ident(t), Keyword("WHERE")];
    SlotsAppend(a, Conditions(whereCols, Keyword("AND")));
    NoSlots(a);
    ConditionsSlots(whereCols, Keyword("AND"));
  }

  lemma CreateSlots(t: string, schema: seq<ColumnDef>, definition: seq<string>)
    ensures Slots(Render(CreateTableStmt(t, schema, definition))) == 0
  {
    var a := [Keyword("CREATE TABLE IF NOT EXISTS"), Ident(t), LParen];
    assert Render(CreateTableStmt(t, schema, definition)) == a + Separated(Fragments(definition)) + [RParen];
    SlotsAppend(a + Separated(Fragments(definition)), [RParen]);
    SlotsAppend(a, Separated(Fragments(definition)));
    NoSlots(a);
    NoSlots([RParen]);
    SeparatedSlots(Fragments(definition));
    NoSlots(Fragments(definition));
  }

  lemma SelectSlots(t: string, cols: seq<string>, whereCols: seq<string>, orderBy: seq<SortKey>,
                    limit: Option<int>, offset: Option<int>)
    ensures Slots(Render(SelectStmt(t, cols, whereCols, orderBy, limit, offset))) == |whereCols|
  {
    var mid := if cols == [] then [Star] else Separated(Idents(cols));
    var head := [Keyword("SELECT")] + mid + [Keyword("FROM"), Ident(t)];
    var lim := if limit.Some? then [Keyword("LIMIT"), Number(limit.value)] else [];
    var off := if offset.Some? then [Keyword("OFFSET"), Number(offset.value)] else [];
    assert Render(SelectStmt(t, cols, whereCols, orderBy, limit, offset))
        == head + WhereText(whereCols) + OrderText(orderBy) + lim + off;
    SelectHeadSlots(t, cols);
    OrderSlots(orderBy);
    NoSlots(lim);
    NoSlots(off);
    WhereSlots(whereCols);
    OnlyMiddleSlots(head, WhereText(whereCols), OrderText(orderBy), lim, off);
  }

  lemma SelectHeadSlots(t: string, cols: seq<string>)
    ensures Slots([Keyword("SELECT")] + (if cols == [] then [Star] else Separated(Idents(cols)))
                  + [Keyword("FROM"), Ident(t)]) == 0
  {
    var mid := if cols == [] then [Star] else Separated(Idents(cols));
    SlotsAppend([Keyword("SELECT")] + mid, [Keyword("FROM"), Ident(t)]);
    SlotsAppend([Keyword("SELECT")], mid);
    NoSlots([Keyword("SELECT")]);
    NoSlots([Keyword("FROM"), Ident(t)]);
    if cols == [] { NoSlots([Star]); } else { IdentListSlots(cols); }
  }

  lemma OnlyMiddleSlots(head: seq<Token>, w: seq<Token>, o: seq<Token>, lim: seq<Token>, off: seq<Token>)
    requires Slots(head) == 0 && Slots(o) == 0 && Slots(lim) == 0 && Slots(off) == 0
    ensures Slots(head + w + o + lim + off) == Slots(w)
  {
    SlotsAppend(head + w + o + lim, off);
    SlotsAppend(head + w + o, lim);
    SlotsAppend(head + w, o);
    SlotsAppend(head, w);
  }

  lemma OrderSlots(keys: seq<SortKey>)
    ensures Slots(OrderText(keys)) == 0
  {
    if keys != [] {
      var items := seq(|keys|, i requires 0 <= i < |keys| =>
        match keys[i]
        case Asc(c) => Fragment(c + " ASC")
        case Desc(c) => Fragment(c + " DESC"));
      assert OrderText(keys) == [Keyword("ORDER BY")] + Separated(items);
      SlotsAppend([Keyword("ORDER BY")], Separated(items));
      NoSlots([Keyword("ORDER BY")]);
      SeparatedSlots(items);
      NoSlots(items);
    }
  }

  lemma InsertSlots(t: string, cols: seq<string>, returningId: bool)
    ensures Slots(Render(InsertStmt(t, cols, returningId))) == |cols|
  {
    var a := [Keyword("INSERT INTO"), Ident(t), LParen] + Separated(Idents(cols))
             + [RParen, Keyword("VALUES"), LParen];
    var ph := Separated(PlaceholderList(|cols|));
    var tail := [RParen] + (if returningId then [Keyword("RETURNING"), Ident("id")] else []);
    assert Render(InsertStmt(t, cols, returningId)) == a + ph + tail;
    SlotsAppend(a + ph, tail);
    SlotsAppend(a, ph);
    InsertHeadSlots(t, cols, [RParen, Keyword("VALUES"), LParen]);
    NoSlots(tail);
    SeparatedSlots(PlaceholderList(|cols|));
    UniformSlots(PlaceholderList(|cols|), Placeholder);
  }

  lemma UpdateSlots(t: string, setCols: seq<string>, whereCols: seq<string>)
    ensures Slots(Render(UpdateStmt(t, setCols, whereCols))) == |setCols| + |whereCols|
  {
    var a := [Keyword("UPDATE"), Ident(t), Keyword("SET")];
    var b := [Keyword("WHERE")];
    assert Render(UpdateStmt(t, setCols, whereCols))
        == a + Conditions(setCols, Comma) + b + Conditions(whereCols, Keyword("AND"));
    SlotsAppend(a + Conditions(setCols, Comma) + b, Conditions(whereCols, Keyword("AND")));
    SlotsAppend(a + Conditions(setCols, Comma), b);
    SlotsAppend(a, Conditions(setCols, Comma));
    NoSlots(a);
    NoSlots(b);
    ConditionsSlots(setCols, Comma);
    ConditionsSlots(whereCols, Keyword("AND"));
  }

  lemma InsertHeadSlots(t: string, cols: seq<string>, tail: seq<Token>)
    requires forall i :: 0 <= i < |tail| ==> tail[i] != Placeholder
    ensures Slots([Keyword("INSERT INTO"), Ident(t), LParen] + Separated(Idents(cols)) + tail) == 0
  {
    var a := [Keyword("INSERT INTO"), Ident(t), LParen];
    SlotsAppend(a + Separated(Idents(cols)), tail);
    SlotsAppend(a, Separated(Idents(cols)));
    NoSlots(a);
    NoSlots(tail);
    IdentListSlots(cols);
  }

  lemma WhereSlots(whereCols: seq<string>)
    ensures Slots(WhereText(whereCols)) == |whereCols|
  {
    if whereCols != [] {
      SlotsAppend([Keyword("WHERE")], Conditions(whereCols, Keyword("AND")));
      ConditionsSlots(whereCols, Keyword("AND"));
    }
  }

  // ---------------------------------------------------------------------------
  // What each driver operation sends

  /** Python truthiness of an optional integer: None and 0 are false. */
  function Truthy(n: Option<int>): Option<int>
  {
    if n.Some? && n.value != 0 then n else None
  }

  /** select/count: `tuple(params) if params else None`. */
  function WhereParams(where: Dict): Params
  {
    if where == [] then NoParams else Tuple(Vals(where))
  }

  function SelectCall(table: string, columns: seq<string>, where: Dict, orderBy: seq<SortKey>,
                      limit: Option<int>, offset: Option<int>): Call
  {
    Call(SelectStmt(table, columns, Keys(where), orderBy, Truthy(limit), Truthy(offset)), WhereParams(where))
  }

  function CountCall(table: string, where: Dict): Call
  {
    Call(CountStmt(table, Keys(where)), WhereParams(where))
  }

  function SelectByIdCall(table: string, id: int): Call
  {
    Call(SelectStmt(table, [], ["id"], [], None, None), Tuple([Int(id)]))
  }

  function InsertCall(table: string, data: Dict, returningId: bool): Call
  {
    Call(InsertStmt(table, Keys(data), returningId), Tuple(Vals(data)))
  }

  function UpdateCall(table: string, data: Dict, where: Dict): Call
  {
    Call(UpdateStmt(table, Keys(data), Keys(where)), Tuple(Vals(data) + Vals(where)))
  }

  function DeleteCall(table: string, where: Dict): Call
  {
    Call(DeleteStmt(table, Keys(where)), Tuple(Vals(where)))
  }

  function ColumnList(columns: seq<ColumnDef>): seq<string>
  {
    seq(|columns|, i requires 0 <= i < |columns| => ColumnText(columns[i]))
  }

  function CreateTableCall(table: string, columns: seq<ColumnDef>, constraints: seq<string>): Call
  {
    Call(CreateTableStmt(table, columns, ColumnList(columns) + constraints), NoParams)
  }

  /** `tuple(record[col] for col in columns)`: KeyError when the record lacks a column. */
  function RowValues(record: Dict, columns: seq<string>): Result<seq<Value>>
    decreases |columns|
  {
    if columns == [] then Ok([])
    else match Lookup(record, columns[0])
      case None => Err(KeyMissing(columns[0]))
      case Some(v) =>
        match RowValues(record, columns[1..])
        case Err(e) => Err(e)
        case Ok(vs) => Ok([v] + vs)
  }

  function AllRowValues(records: seq<Dict>, columns: seq<string>): Result<seq<seq<Value>>>
    decreases |records|
  {
    if records == [] then Ok([])
    else match RowValues(records[0], columns)
      case Err(e) => Err(e)
      case Ok(vs) =>
        match AllRowValues(records[1..], columns)
        case Err(e) => Err(e)
        case Ok(rest) => Ok([vs] + rest)
  }

  /** insert_many on a non-empty list: the columns are those of the first record. */
  function InsertManyCall(table: string, records: seq<Dict>): Result<Call>
    requires records != []
  {
    match AllRowValues(records, Keys(records[0]))
    case Err(e) => Err(e)
    case Ok(rows) => Ok(Call(InsertValuesStmt(table, Keys(records[0])), Rows(rows)))
  }

  /** `tuple(record[col] for col in columns)` succeeds exactly when the record has every
      column, and then holds the record's values in column order. */
  lemma {:induction false} RowValuesMeaning(record: Dict, columns: seq<string>)
    ensures RowValues(record, columns).Ok? <==> forall j :: 0 <= j < |columns| ==> Lookup(record, columns[j]).Some?
    ensures RowValues(record, columns).Ok? ==>
      && |RowValues(record, columns).value| == |columns|
      && forall j :: 0 <= j < |columns| ==> Lookup(record, columns[j]) == Some(RowValues(record, columns).value[j])
    decreases |columns|
  {
    if columns != [] {
      RowValuesMeaning(record, columns[1..]);
      assert forall j :: 1 <= j < |columns| ==> columns[1..][j - 1] == columns[j];
    }
  }

  /** The value rows of insert_many: one per record, each the record's values in column order;
      KeyError as soon as one record lacks a column. */
  lemma {:induction false} AllRowValuesMeaning(records: seq<Dict>, columns: seq<string>)
    ensures AllRowValues(records, columns).Ok? <==>
      forall k :: 0 <= k < |records| ==> RowValues(records[k], columns).Ok?
    ensures AllRowValues(records, columns).Ok? ==>
      && |AllRowValues(records, columns).value| == |records|
      && forall k :: 0 <= k < |records| ==> AllRowValues(records, columns).value[k] == RowValues(records[k], columns).value
    decreases |records|
  {
    if records != [] {
      AllRowValuesMeaning(records[1..], columns);
      assert forall k :: 1 <= k < |records| ==> records[1..][k - 1] == records[k];
    }
  }

  /** insert_many raises KeyError (before sending anything) exactly when some record lacks a
      column of the first record. */
  lemma InsertManyKeyError(table: string, records: seq<Dict>)
    requires records != []
    ensures InsertManyCall(table, records).Err? <==>
      exists k, c :: 0 <= k < |records| && c in Keys(records[0]) && Lookup(records[k], c).None?
  {
    var columns := Keys(records[0]);
    AllRowValuesMeaning(records, columns);
    forall k | 0 <= k < |records| { RowValuesMeaning(records[k], columns); }
    if InsertManyCall(table, records).Err? {
      var k :| 0 <= k < |records| && RowValues(records[k], columns).Err?;
      var j :| 0 <= j < |columns| && Lookup(records[k], columns[j]).None?;
      assert columns[j] in Keys(records[0]);
    } else {
      forall k, c | 0 <= k < |records| && c in Keys(records[0]) ensures Lookup(records[k], c).Some? {
        var j :| 0 <= j < |columns| && columns[j] == c;
      }
    }
  }

  // ---------------------------------------------------------------------------
  // Properties of the calls

  /** select and count: one `col = %s` per filter entry, in order, joined by AND; the
      parameters are the filter values in the same order, and None for an empty filter. */
  lemma SelectCallShape(table: string, columns: seq<string>, where: Dict, orderBy: seq<SortKey>,
                        limit: Option<int>, offset: Option<int>)
    ensures var c := SelectCall(table, columns, where, orderBy, limit, offset);
      && WhereText(c.stmt.whereCols) == (if where == [] then []
                                         else [Keyword("WHERE")] + Conditions(Keys(where), Keyword("AND")))
      && (c.params == NoParams <==> where == [])
      && ParamValues(c.params) == Vals(where)
      && Slots(Render(c.stmt)) == |ParamValues(c.params)|
  {
    RenderSlots(SelectCall(table, columns, where, orderBy, limit, offset).stmt);
  }

  lemma CountCallShape(table: string, where: Dict)
    ensures var c := CountCall(table, where);
      && (c.params == NoParams <==> where == [])
      && ParamValues(c.params) == Vals(where)
      && Slots(Render(c.stmt)) == |ParamValues(c.params)|
  {
    RenderSlots(CountCall(table, where).stmt);
  }

  /** update: all SET values in data order, then all WHERE values in filter order; as many
      parameters as %s slots. */
  lemma UpdateCallShape(table: string, data: Dict, where: Dict)
    ensures var c := UpdateCall(table, data, where);
      && ParamValues(c.params) == Vals(data) + Vals(where)
      && ParamValues(c.params)[..|data|] == Vals(data)
      && ParamValues(c.params)[|data|..] == Vals(where)
      && Slots(Render(c.stmt)) == |ParamValues(c.params)|
  {
    var c := UpdateCall(table, data, where);
    assert ParamValues(c.params)[..|data|] == Vals(data);
    assert ParamValues(c.params)[|data|..] == Vals(where);
    RenderSlots(c.stmt);
  }

  lemma DeleteCallShape(table: string, where: Dict)
    ensures var c := DeleteCall(table, where);
      && ParamValues(c.params) == Vals(where)
      && Slots(Render(c.stmt)) == |ParamValues(c.params)|
  {
    RenderSlots(DeleteCall(table, where).stmt);
  }

  lemma InsertCallShape(table: string, data: Dict, returningId: bool)
    ensures var c := InsertCall(table, data, returningId);
      && ParamValues(c.params) == Vals(data)
      && Slots(Render(c.stmt)) == |ParamValues(c.params)|
  {
    RenderSlots(InsertCall(table, data, returningId).stmt);
  }

  /** LIMIT and OFFSET are written only when truthy: 0 means "no limit" / "no offset". */
  lemma ZeroLimitIsNoLimit(table: string, columns: seq<string>, where: Dict, orderBy: seq<SortKey>,
                           limit: Option<int>, offset: Option<int>)
    ensures SelectCall(table, columns, where, orderBy, Some(0), offset)
         == SelectCall(table, columns, where, orderBy, None, offset)
    ensures SelectCall(table, columns, where, orderBy, limit, Some(0))
         == SelectCall(table, columns, where, orderBy, limit, None)
    ensures limit.Some? && limit.value != 0 ==>
              SelectCall(table, columns, where, orderBy, limit, offset).stmt.limit == limit
  {
  }

  // ---------------------------------------------------------------------------
  // The builder loops

  /** The loop shared by select, update, delete and count: one condition and one parameter
      per dict entry, appended in dict order. */
  method EqualityList(d: Dict) returns (cols: seq<string>, params: seq<Value>)
    ensures cols == Keys(d) && params == Vals(d)
  {
    cols, params := [], [];
    var i := 0;
    while i < |d|
      invariant 0 <= i <= |d|
      invariant |cols| == i && |params| == i
      invariant forall k :: 0 <= k < i ==> cols[k] == d[k].0 && params[k] == d[k].1
    {
      cols := cols + [d[i].0];
      params := params + [d[i].1];
      i := i + 1;
    }
  }

  /** create_table's column list: `{name} {declaration}` per column, then the constraints. */
  method ColumnDefinitions(columns: seq<ColumnDef>, constraints: seq<string>) returns (defs: seq<string>)
    ensures defs == ColumnList(columns) + constraints
  {
    defs := [];
    var i := 0;
    while i < |columns|
      invariant 0 <= i <= |columns|
      invariant defs == ColumnList(columns[..i])
    {
      assert ColumnList(columns[..i + 1]) == ColumnList(columns[..i]) + [ColumnText(columns[i])];
      defs := defs + [ColumnText(columns[i])];
      i := i + 1;
    }
    assert columns[..i] == columns;
    defs := defs + constraints;
  }
}
