/** Column values, records, ordered dictionaries and the error vocabulary shared by the
    statement builder, the in-memory store, the driver and the booking backend. */
module Values {

  datatype Option<+T> = None | Some(value: T)

  /** Why an operation raised. The driver re-raises every one of these; the backend
      wrappers turn all of them into None / False / []. */
  datatype Error =
    | ConnectFailed                 // __enter__: connect() returned False
    | NotConnected                  // the is_connected() guards and commit on a closed connection
    | InFailedTransaction           // a statement after an earlier failure in the same transaction
    | ParameterMismatch             // number of parameters differs from the number of %s slots
    | SyntaxError                   // e.g. `WHERE` followed by nothing
    | UndefinedTable(table: string)
    | UndefinedColumn(column: string)
    | DuplicateColumn               // a column named twice in one INSERT, SET or CREATE TABLE
    | NegativeLimitOrOffset
    | ConstraintViolation           // NOT NULL, UNIQUE/PRIMARY KEY or FOREIGN KEY
    | KeyMissing(key: string)       // Python KeyError
    | TypeMismatch                  // Python TypeError

  datatype Result<+T> = Ok(value: T) | Err(error: Error)

  /** A value as it travels between the program and the server. Dates are day numbers,
      times are minutes after midnight, timestamps are minutes since a fixed epoch. */
  datatype Value =
    | Null
    | Int(i: int)
    | Bool(b: bool)
    | Text(s: string)
    | Date(day: int)
    | Time(minute: int)
    | Stamp(t: int)

  /** A row as returned by a RealDictCursor: column name to value. */
  type Record = map<string, Value>

  /** A Python dict from column name to value, in insertion order. */
  type Dict = seq<(string, Value)>

  function Keys(d: Dict): seq<string>
  {
    seq(|d|, i requires 0 <= i < |d| => d[i].0)
  }

  function Vals(d: Dict): seq<Value>
  {
    seq(|d|, i requires 0 <= i < |d| => d[i].1)
  }

  /** The dict with keys `ks` and values `vs`, pairing them by position. */
  function Zip(ks: seq<string>, vs: seq<Value>): (d: Dict)
    requires |ks| == |vs|
    ensures Keys(d) == ks && Vals(d) == vs
  {
    seq(|ks|, i requires 0 <= i < |ks| => (ks[i], vs[i]))
  }

  lemma ZipKeysVals(d: Dict)
    ensures Zip(Keys(d), Vals(d)) == d
  {
  }

  predicate Distinct(ks: seq<string>)
  {
    forall i, j :: 0 <= i < j < |ks| ==> ks[i] != ks[j]
  }

  /** The value a Python dict lookup `d[k]` yields, when `k` is a key of `d`. */
  function Lookup(d: Dict, k: string): Option<Value>
  {
    if d == [] then None
    else if d[|d| - 1].0 == k then Some(d[|d| - 1].1)
    else Lookup(d[..|d| - 1], k)
  }

  /** The value of column `c` in a record, NULL when the record has no such column. */
  function Field(r: Record, c: string): Value
  {
    if c in r then r[c] else Null
  }
}
