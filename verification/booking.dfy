/** The booking entity: its table's declared columns, the status vocabulary, and the
    in-program record with its constructor defaults. */
module BookingModel {
  import opened Values
  import opened Schema
  import opened Sql
  import opened Store

  const TableName: string := "bookings"

  datatype Status = Pending | Confirmed | Cancelled | Completed

  function StatusText(s: Status): string
  {
    match s
    case Pending => "pending"
    case Confirmed => "confirmed"
    case Cancelled => "cancelled"
    case Completed => "completed"
  }

  function ParseStatus(t: string): (r: Option<Status>)
    ensures r.Some? ==> StatusText(r.value) == t
  {
    if t == "pending" then Some(Pending)
    else if t == "confirmed" then Some(Confirmed)
    else if t == "cancelled" then Some(Cancelled)
    else if t == "completed" then Some(Completed)
    else None
  }

  /** VALID_STATUSES. */
  const ValidStatuses: seq<string> := ["pending", "confirmed", "cancelled", "completed"]

  /** The valid statuses are exactly the texts of the four statuses, each listed once, and
      parsing a status's text gives that status back. */
  lemma ValidStatusesExact(t: string, s: Status)
    ensures t in ValidStatuses <==> ParseStatus(t).Some?
    ensures ParseStatus(StatusText(s)) == Some(s)
    ensures StatusText(s) in ValidStatuses
    ensures forall i, j :: 0 <= i < j < |ValidStatuses| ==> ValidStatuses[i] != ValidStatuses[j]
  {
  }

  /** COLUMNS, structured: a SERIAL key, cascading references to users and tables, NOT NULL
      date, time and guest count, and the defaults for status, duration and timestamps. */
  const Columns: seq<ColumnDef> := [
    ColumnDef("id", Serial, primaryKey := true),
    ColumnDef("user_id", Integer, references := Some(ForeignKey("users", true))),
    ColumnDef("table_id", Integer, references := Some(ForeignKey("tables", true))),
    ColumnDef("booking_date", DateType, notNull := true),
    ColumnDef("booking_time", TimeType, notNull := true),
    ColumnDef("guests_count", Integer, notNull := true),
    ColumnDef("status", VarChar(20), default := DefaultValue(Text("pending"))),
    ColumnDef("contact_phone", VarChar(20)),
    ColumnDef("contact_name", VarChar(100)),
    ColumnDef("special_requests", TextType),
    ColumnDef("duration", Integer, default := DefaultValue(Int(120))),
    ColumnDef("created_at", Timestamp, default := CurrentTimestamp),
    ColumnDef("updated_at", Timestamp, default := CurrentTimestamp)
  ]

  /** No column is declared twice. */
  lemma ColumnsDistinct()
    ensures Distinct(Names(Columns))
  {
  }

  /** The model class: every field as the constructor receives it, with its defaults. Dates are
      day numbers, times minutes after midnight, timestamps minutes since a fixed epoch. */
  datatype Booking = Booking(
    id: Option<int> := None,
    userId: int := 0,
    tableId: int := 0,
    bookingDate: Option<int> := None,
    bookingTime: Option<int> := None,
    guestsCount: int := 1,
    status: string := "pending",
    contactPhone: Option<string> := None,
    contactName: Option<string> := None,
    specialRequests: Option<string> := None,
    duration: int := 120,
    createdAt: Option<int> := None,
    updatedAt: Option<int> := None)

  /** A booking built with no arguments. */
  function NewBooking(): (b: Booking)
    ensures b.status == "pending" && b.duration == 120 && b.guestsCount == 1
    ensures b.userId == 0 && b.tableId == 0
    ensures b.id.None? && b.bookingDate.None? && b.bookingTime.None?
    ensures b.contactPhone.None? && b.contactName.None? && b.specialRequests.None?
    ensures b.createdAt.None? && b.updatedAt.None?
  {
    Booking()
  }

  // ---------------------------------------------------------------------------
  // The bookings table in the store

  /** The column of a booking that refers to a row of `parent`. */
  function ReferenceColumn(parent: string): string
  {
    if parent == "users" then "user_id" else "table_id"
  }

  /** The one column of a booking that refers, with ON DELETE CASCADE, to `parent`. */
  lemma ReferenceColumnUnique(parent: string) returns (k: int)
    requires parent == "users" || parent == "tables"
    ensures 0 <= k < |Columns| && Columns[k].name == ReferenceColumn(parent)
    ensures forall i :: 0 <= i < |Columns| ==> (Columns[i].references == Some(ForeignKey(parent, true)) <==> i == k)
  {
    k := if parent == "users" then 1 else 2;
  }

  /** Deleting the user (or the table) with a given id removes exactly the bookings that refer
      to it, through ON DELETE CASCADE, and keeps every other booking. */
  lemma DeletingParentRemovesBookings(db: Store, parent: string, id: int, now: int, db': Store, reply: Reply)
    requires parent == "users" || parent == "tables"
    requires Consistent(db) && TableName in db && db[TableName].columns == Columns
    requires Run(db, DeleteCall(parent, [("id", Int(id))]), now) == Ok((db', reply))
    ensures TableName in db'
    ensures forall r :: r in db'[TableName].rows <==>
      r in db[TableName].rows && Field(r, ReferenceColumn(parent)) != Int(id)
  {
    var k := ReferenceColumnUnique(parent);
    DeleteByIdCascades(db, parent, id, now, db', reply, TableName, k);
  }

  /** What a booking row gets in a column the INSERT leaves out: the next SERIAL id,
      'pending', 120 minutes, the statement's time. */
  lemma BookingDefaults(id: int, now: int)
    ensures DefaultOf(Columns[0], id, now) == Int(id)
    ensures DefaultOf(Columns[6], id, now) == Text("pending")
    ensures DefaultOf(Columns[10], id, now) == Int(120)
    ensures DefaultOf(Columns[11], id, now) == Stamp(now) && DefaultOf(Columns[12], id, now) == Stamp(now)
    ensures Columns[0].name == "id" && Columns[6].name == "status" && Columns[10].name == "duration"
    ensures Columns[11].name == "created_at" && Columns[12].name == "updated_at"
    ensures Columns[3].name == "booking_date" && Columns[4].name == "booking_time" && Columns[5].name == "guests_count"
    ensures Columns[3].Required() && Columns[4].Required() && Columns[5].Required()
  {
  }

  /** A booking inserted without a status, a duration, an id or timestamps gets 'pending',
      120 minutes, the next SERIAL id and the statement's time; its date, time and guest count
      are never NULL, and RETURNING id reports the new row's id. */
  lemma InsertedBookingDefaults(db: Store, data: Dict, now: int, db': Store, reply: Reply)
    requires WellFormed(db) && TableName in db && db[TableName].columns == Columns
    requires Run(db, InsertCall(TableName, data, true), now) == Ok((db', reply))
    ensures TableName in db' && |db'[TableName].rows| == |db[TableName].rows| + 1
    ensures var row := db'[TableName].rows[|db[TableName].rows|];
      && ("status" !in Keys(data) ==> Field(row, "status") == Text("pending"))
      && ("duration" !in Keys(data) ==> Field(row, "duration") == Int(120))
      && ("id" !in Keys(data) ==> Field(row, "id") == Int(db[TableName].nextId))
      && ("created_at" !in Keys(data) ==> Field(row, "created_at") == Stamp(now))
      && ("updated_at" !in Keys(data) ==> Field(row, "updated_at") == Stamp(now))
      && Field(row, "booking_date") != Null && Field(row, "booking_time") != Null
      && Field(row, "guests_count") != Null
      && reply.rows == [map["id" := Field(row, "id")]]
  {
    InsertUnfold(db, TableName, data, true, now, db', reply);
    var id := db[TableName].nextId;
    var row := RowOf(Columns, data, id, now);
    assert db'[TableName].rows == db[TableName].rows + [row];
    BookingDefaults(id, now);
    ColumnsDistinct();
    if "status" !in Keys(data) { NewRowDefault(Columns, data, id, now, Columns[6]); }
    if "duration" !in Keys(data) { NewRowDefault(Columns, data, id, now, Columns[10]); }
    if "id" !in Keys(data) { NewRowDefault(Columns, data, id, now, Columns[0]); }
    if "created_at" !in Keys(data) { NewRowDefault(Columns, data, id, now, Columns[11]); }
    if "updated_at" !in Keys(data) { NewRowDefault(Columns, data, id, now, Columns[12]); }
    assert row in db'[TableName].rows;
    assert ColumnConsistent(db', db'[TableName].columns[3], db'[TableName].rows);
    assert ColumnConsistent(db', db'[TableName].columns[4], db'[TableName].rows);
    assert ColumnConsistent(db', db'[TableName].columns[5], db'[TableName].rows);
  }

  /** An INSERT into bookings that names no booking date fails: the column is NOT NULL and has
      no default. */
  lemma BookingDateRequired(db: Store, data: Dict, returningId: bool, now: int)
    requires WellFormed(db) && TableName in db && db[TableName].columns == Columns
    requires "booking_date" !in Keys(data)
    ensures Run(db, InsertCall(TableName, data, returningId), now).Err?
  {
    assert Columns[3] in db[TableName].columns;
    InsertMissingRequiredFails(db, TableName, data, returningId, now, Columns[3]);
  }
}
