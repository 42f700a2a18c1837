# Table booking backend: storage driver, CRUD layer and availability check

This project models the core of a restaurant table-booking backend written in Python over
PostgreSQL, and proves properties of that model in Dafny. The model has three parts:

- **The PostgreSQL driver** (`PostgreSQLDriver`). It holds a connection, a cursor and an
  "inside a transaction block" flag. It builds parametrised `INSERT`, `SELECT`, `UPDATE`,
  `DELETE`, `SELECT COUNT(*)` and `CREATE TABLE IF NOT EXISTS` statements from Python dicts. It
  refuses to run statements without a connection. `with db.transaction():` commits a block or
  rolls it back. Leaving `with PostgreSQLDriver() as db:` commits and disconnects.
- **The backend functions.** These are the CRUD wrappers for users, tables and bookings,
  `get_all_bookings`, `is_table_available` and `get_table_availability`. Each one opens its
  own driver session and turns every error into `None`, `False` or `[]`.
- **The booking model.** This is the `bookings` table's declared columns: a SERIAL key,
  cascading foreign keys, NOT NULL date, time and guest count, and defaults. It also covers
  the status vocabulary and the constructor's defaults.

The database server is modelled too, since the driver's meaning is what the server does with
the statements it sends. The store is a map from table names to tables. A table has columns,
rows in storage order and its next SERIAL value.

- `Store.Run` gives the meaning of one statement: a filter by a conjunction of equalities
  (a comparison with NULL never holds), a stable sort for ORDER BY, LIMIT/OFFSET, column
  defaults, and NOT NULL, UNIQUE/PRIMARY KEY and FOREIGN KEY checks.
- `DELETE` cascades through `ON DELETE CASCADE`.
- A session works on its own copy of the committed state. A failed statement aborts the
  session's transaction, and every later statement then fails. Committing an aborted
  transaction is a rollback, as it is in PostgreSQL.

The driver is a `class` whose methods update its fields: the connection state, the
transaction flag, the aborted flag, the session's working copy and its clock. The server is
a `class` whose one field, the committed state, changes on commit. Each driver method is
proved against a function on sessions, for example `Driver.SelectOp`. The backend functions
are methods over a `Server`. They open a driver, run one operation, and on exit commit and
disconnect.

Input and output are parameters:
- whether `psycopg2.connect` succeeds is a boolean `reachable`;
- the server's `CURRENT_TIMESTAMP` is a number `now`, fixed for a session;
- dates are day numbers, times are minutes after midnight, and timestamps are minutes.

Where the design text and the code disagree, the model follows the code:
- `create_table` sends `CREATE TABLE IF NOT EXISTS`. A redefinition of an existing table is
  silently kept, not refused as a schema error (`Store.CreateExistingKeeps`).
- The driver re-raises, but `create_table` and every backend function swallow errors into
  `False`, `None` or `[]`.
- `create_booking` performs no availability check. `is_table_available` is a separate
  function, and the model keeps them separate.
- `updated_at` is never refreshed by an update: the schema declares only a default, with no
  trigger.

## Model

| member | source | states |
|---|---|---|
| Driver.PostgreSQLDriver.constructor | postgresql_driver.py:59-62 | a new driver has no connection, is not inside a transaction block, and sees the committed state |
| Driver.PostgreSQLDriver.Connect | postgresql_driver.py:66-85 | connect returns True exactly when the server is reachable; then the session is open, not aborted, and sees the committed state; otherwise nothing changes |
| Driver.PostgreSQLDriver.Disconnect | postgresql_driver.py:87-96 | an existing connection becomes closed; uncommitted work is lost |
| Driver.PostgreSQLDriver.Commit | postgresql_driver.py:112 | commit fails on a connection that is not open; on an aborted transaction the server keeps its state; otherwise the session's work becomes the committed state |
| Driver.PostgreSQLDriver.Rollback | postgresql_driver.py:115 | rollback discards the session's work and clears the failure |
| Driver.PostgreSQLDriver.CursorExecute | postgresql_driver.py:136 | one statement: refused without an open connection or after a failure in the same transaction; a failure aborts the transaction |
| Driver.PostgreSQLDriver.ExecuteQuery | postgresql_driver.py:121-140 | without a connection it raises and changes nothing; otherwise it returns the fetched rows of the statement |
| Driver.PostgreSQLDriver.ExecuteCommand | postgresql_driver.py:142-161 | without a connection it raises and changes nothing; otherwise it returns the statement's rowcount |
| Driver.PostgreSQLDriver.Transaction | postgresql_driver.py:102-119 | a transaction block is refused without a connection; when an exception (a re-raised statement failure or one raised by the block itself) leaves the block, everything is rolled back, the server keeps its state and the exception is re-raised; otherwise the block is committed, and a block in which a failure was swallowed stores nothing; the flag is cleared on every path |
| Driver.RunBlockStopsAtError | postgresql_driver.py:111-117 | once an exception reaches a block, the block's outcome is that exception whatever follows |
| Driver.RunBlockOutcome | postgresql_driver.py:111-112 | a block that no exception left ran every step, contains no raising step, every re-raising statement in it succeeded, and its transaction is aborted exactly when a swallowed failure happened in it (or it was aborted on entry) |
| Driver.BlockCommit | postgresql_driver.py:112 | the commit after a block stores the block's work when nothing failed in it, and nothing when create_table swallowed a failure inside it (postgresql_driver.py:212-214) |
| Driver.GuardRefusesAll | postgresql_driver.py:98-100 | without an open connection every statement is refused and changes nothing |
| Driver.FailureIsSticky | postgresql_driver.py:623-631 | after a failed statement later statements fail without effect, and committing keeps the server as it was |
| Driver.PostgreSQLDriver.CreateTable | postgresql_driver.py:165-214 | True exactly when connected and CREATE TABLE IF NOT EXISTS succeeded; a success is committed at once unless a transaction block is open |
| Driver.PostgreSQLDriver.Insert | postgresql_driver.py:216-250 | INSERT of the dict's columns and values; with return_id it skips the connection check and returns the new row's id, otherwise None |
| Driver.PostgreSQLDriver.InsertMany | postgresql_driver.py:252-280 | an empty list sends nothing and returns 0; otherwise one row per record, with the first record's columns, and the count of records |
| Driver.PostgreSQLDriver.Select | postgresql_driver.py:282-333 | SELECT with the dict as a conjunction of equalities, ORDER BY, and LIMIT/OFFSET when truthy; the params are None when the filter is empty |
| Driver.PostgreSQLDriver.SelectById | postgresql_driver.py:335-353 | the first row with that id, or None |
| Driver.SelectByIdFirst | postgresql_driver.py:347-349 | select_by_id is None exactly when no row has the id; otherwise it is the first such row in storage order |
| Driver.PostgreSQLDriver.Update | postgresql_driver.py:355-391 | UPDATE with the SET values then the WHERE values as parameters; returns the rowcount |
| Driver.PostgreSQLDriver.UpdateById | postgresql_driver.py:393-406 | update with the filter {'id': id} |
| Driver.PostgreSQLDriver.Delete | postgresql_driver.py:408-433 | DELETE with the filter as parameters; returns the rowcount |
| Driver.PostgreSQLDriver.DeleteById | postgresql_driver.py:435-446 | delete with the filter {'id': id} |
| Driver.PostgreSQLDriver.Count | postgresql_driver.py:448-475 | SELECT COUNT(*) with the optional filter; the first row's count |
| Driver.PostgreSQLDriver.Exists | postgresql_driver.py:477-488 | exists is count > 0 |
| Driver.ExistsIffMatchingRow | postgresql_driver.py:477-488 | exists is true exactly when some row the session sees satisfies the filter |
| Driver.PostgreSQLDriver.Enter | postgresql_driver.py:617-621 | entering connects, or raises when the server is unreachable |
| Driver.PostgreSQLDriver.Exit | postgresql_driver.py:623-631 | leaving commits unless a transaction block is open (a failed transaction commits nothing), then disconnects |
| Sql.EqualityList | postgresql_driver.py:312-317 | the loop yields the dict's columns and its values, both in dict order |
| Sql.ColumnDefinitions | postgresql_driver.py:192-197 | create_table's column list is one `name declaration` entry per column, then the extra constraints |
| Sql.SelectCallShape | postgresql_driver.py:301-329 | the WHERE text is one `col = %s` per filter entry joined by AND; the parameters are the filter's values in order; the parameters are None exactly when the filter is empty; placeholders match parameters |
| Sql.CountCallShape | postgresql_driver.py:460-470 | the same for count |
| Sql.UpdateCallShape | postgresql_driver.py:368-387 | the SET values come first, then the WHERE values, and the placeholders match |
| Sql.DeleteCallShape | postgresql_driver.py:419-429 | the WHERE values are the parameters and the placeholders match |
| Sql.InsertCallShape | postgresql_driver.py:230-240 | one placeholder per value, the values in dict order |
| Sql.ZeroLimitIsNoLimit | postgresql_driver.py:324-327 | a limit or offset of 0 is the same statement as none |
| Store.SelectMeaning | postgresql_driver.py:282-333 | a select succeeds exactly when the table and every named column exist and LIMIT/OFFSET are not negative; it then returns the listed columns of the OFFSET/LIMIT window (a zero counts as absent) of the matching rows sorted stably by the keys; with no column list and no window, these are exactly the matching rows, sorted, and the state is unchanged |
| Store.WindowSlice | postgresql_driver.py:324-327 | OFFSET skips the first rows (all of them when it is too large) and LIMIT keeps at most that many of the rest |
| Store.SelectedRows | postgresql_driver.py:312-327 | the rows of a `SELECT *` are sorted by the keys, each a stored row satisfying the filter, at most LIMIT of them, and without LIMIT or OFFSET exactly the matching rows |
| Store.ProjectMeaning | postgresql_driver.py:303-306 | an empty column list keeps whole rows; otherwise each row keeps exactly the listed columns it has, with their values |
| Store.EmptyFilterKeepsAll | postgresql_driver.py:312 | an empty filter keeps every row |
| Store.CountMatchesSelect | postgresql_driver.py:448-475 | the count equals the number of rows the same filter selects |
| Store.CountPositiveIff | postgresql_driver.py:488 | the count is positive exactly when some row satisfies the filter |
| Store.UpdateMeaning | postgresql_driver.py:355-391 | the rowcount is the number of matching rows; matching rows take the new values; every other row and column, and every other table, is unchanged; constraints still hold |
| Store.DeleteMeaning | postgresql_driver.py:408-433 | the rowcount is the number of matching rows; the matching rows are removed, with the rows that cascade from them |
| Store.InsertMeaning | postgresql_driver.py:216-250 | one row is appended with the given values and the column defaults; other tables are unchanged; rowcount 1 |
| Store.InsertThenSelectById | postgresql_driver.py:239-243 | the id RETURNING gives back selects exactly the inserted row |
| Store.InsertManyMeaning | postgresql_driver.py:252-276 | insert_many appends one row per record and reports their number |
| Store.InsertManyRow | postgresql_driver.py:266-276 | the k-th appended row holds, for every column of the first record, record k's value for it, and every other column's default, with SERIAL numbered from the table's next value plus k |
| Store.AddRowsRow | postgresql_driver.py:271-275 | appending a batch of rows with the same columns puts the given values in row k and defaults elsewhere, SERIAL advancing by one per row |
| Sql.InsertManyKeyError | postgresql_driver.py:266-268 | insert_many raises KeyError exactly when some record lacks a column of the first record |
| Sql.RowValuesMeaning | postgresql_driver.py:268 | one record's values are found exactly when it has every column, and they are its values in column order |
| Sql.AllRowValuesMeaning | postgresql_driver.py:268 | the values of all records are found exactly when each record's are, one tuple per record in order |
| Store.InsertFillsRequired | postgresql_driver.py:216-250 | a successful insert that leaves out a NOT NULL column has a non-NULL default for it |
| Store.InsertMissingRequiredFails | postgresql_driver.py:216-250 | leaving out a NOT NULL column without a default makes the insert fail |
| Store.InsertKeepsUnique | postgresql_driver.py:216-250 | after a successful insert, no earlier row shares its UNIQUE or PRIMARY KEY value |
| Store.InsertDuplicateFails | postgresql_driver.py:216-250 | inserting a duplicate UNIQUE or PRIMARY KEY value fails |
| Store.InsertKeepsReference | postgresql_driver.py:216-250 | a successful insert refers only to existing parent rows |
| Store.InsertDanglingReferenceFails | postgresql_driver.py:216-250 | inserting a reference to a missing parent row fails |
| Store.EmptyClausesRejected | postgresql_driver.py:384 | an UPDATE or DELETE with an empty WHERE, or an UPDATE with an empty SET, is a syntax error |
| Store.CreateExistingKeeps | postgresql_driver.py:200 | CREATE TABLE IF NOT EXISTS on an existing table changes nothing |
| Store.CreateKeepsConsistent | postgresql_driver.py:199-205 | creating a new, empty table keeps the constraints |
| Store.RunPreservesConsistent | postgresql_driver.py:121-161 | every statement that succeeds leaves the constraints satisfied |
| Store.DeleteByIdCascades | postgresql_driver.py:435-446 | deleting a parent by id removes exactly the child rows whose one cascading reference names that id |
| Ordering.SortRowsCorrect | postgresql_driver.py:320-321 | ORDER BY gives a result that is sorted by the keys and is a rearrangement of the rows |
| Ordering.CompareLaws | postgresql_driver.py:320-321 | the value order is antisymmetric and is zero exactly on equal values |
| Ordering.CompareTransitive | postgresql_driver.py:320-321 | the value order is transitive |
| Ordering.RowCompareTransitive | postgresql_driver.py:320-321 | the row order by several keys is transitive |
| BookingModel.ValidStatusesExact | models/booking.py:51 | the valid statuses are exactly the four status texts, each once, and parsing a status's text gives it back |
| BookingModel.ColumnsDistinct | models/booking.py:35-49 | no booking column is declared twice |
| BookingModel.NewBooking | models/booking.py:53-66 | a booking built with no arguments has status 'pending', duration 120, one guest, ids 0 and every optional field None |
| BookingModel.InsertedBookingDefaults | models/booking.py:36-48 | an inserted booking gets 'pending', 120 minutes, the next SERIAL id and the statement's time when those are not given; its date, time and guest count are never NULL; RETURNING id reports its id |
| BookingModel.BookingDateRequired | models/booking.py:39 | an insert that names no booking date fails |
| BookingModel.DeletingParentRemovesBookings | models/booking.py:37-38 | deleting a user or a table by id removes exactly the bookings referring to it and keeps every other booking |
| Backend.GetById | backend.py:58-65 | get_user_by_id, get_table_by_id and get_booking_by_id return the row select_by_id finds, or None when unreachable or on error; the committed state is unchanged |
| Backend.GetAll | backend.py:68-77 | get_all_users and get_all_tables return every row, or the rows with the given is_active; [] on error; the state is unchanged |
| Backend.Create | backend.py:34-56 | the insert's id is returned and committed; None and no change when unreachable; a failed insert commits nothing |
| Backend.CreateUser | backend.py:34-56 | create_user inserts every argument, with role 'user' by default |
| Backend.CreateTableRecord | backend.py:104-125 | create_table_record inserts every argument, active by default |
| Backend.CreateBooking | backend.py:174-201 | create_booking inserts every argument, status 'pending' and duration 120 by default |
| Backend.UpdateRecord | backend.py:80-88 | update_* is True exactly when the update succeeded and affected a row; its effect is committed |
| Backend.DeleteRecord | backend.py:91-99 | delete_* is True exactly when the delete succeeded and removed a row; its effect is committed |
| Backend.UpdatedIffExists | backend.py:238-246 | update_booking (and the other update_*) affects a row exactly when a row with that id exists, and then that row carries the changes |
| Backend.DeletedIffExists | backend.py:249-257 | delete_* removes a row exactly when a row with that id exists; afterwards no row has that id |
| Backend.CreateThenGet | backend.py:174-211 | after a successful create the returned id is not None, and get-by-id returns exactly the new row |
| Backend.QueryKeepsServer | backend.py:58-65 | a session that only selects or counts commits nothing new |
| Backend.BookingFilter | backend.py:221-229 | the filter has one entry per argument given, each column once |
| Backend.BookingFilterHolds | backend.py:221-229 | a booking satisfies the filter exactly when it matches every argument that was given |
| Backend.GetAllBookings | backend.py:214-235 | get_all_bookings selects with the filter of the given arguments, newest first; [] on error |
| Backend.AllBookingsMeaning | backend.py:214-235 | get_all_bookings returns, newest first, exactly the bookings that match every given argument |
| Backend.IsTableAvailable | backend.py:260-324 | the answer is the fail-closed decision over the table's bookings on the date; False when unreachable; the state is unchanged |
| Backend.TableAvailableIff | backend.py:281-320 | available exactly when every booking of the table on the date that is neither cancelled nor completed, and is not the excluded one, has a computable interval that does not overlap the request |
| Backend.GetTableAvailability | backend.py:327-351 | get_table_availability selects the table's bookings on the date by start time; [] on error |
| Backend.ScheduleMeaning | backend.py:340-347 | it returns every booking of the table on the date, whatever the status, sorted by start time |
| Availability.ScanBookings | backend.py:305-320 | the loop returns False at the first overlap, raises at the first booking whose interval cannot be computed, and returns True otherwise |
| Availability.CheckBookings | backend.py:289-320 | after the select, the answer is the decision: false on an error, true when no booking is left after the filters, otherwise whether the scan finds no collision |
| Availability.ScanTrueIff | backend.py:305-320 | the scan is True exactly when no booking overlaps and none raises |
| Availability.ActiveOnly | backend.py:290 | the status filter keeps exactly the bookings that are neither cancelled nor completed |
| Availability.WithoutBooking | backend.py:293-294 | the exclusion keeps exactly the bookings whose id differs, and raises KeyError when a booking has no id |
| Availability.DecideIff | backend.py:275-324 | available exactly when the select succeeded, the filters raised nothing, and the scan found no overlap |
| Availability.ConflictIff | backend.py:305-317 | when every interval can be computed, unavailable exactly when some remaining booking overlaps the request |
| Availability.SelectErrorMeansBusy | backend.py:322-324 | a failing select gives False |
| Availability.NothingLeftIsAvailable | backend.py:289-298 | when no booking is left after the status and exclusion filters, the table is available for any request |
| Availability.NoActiveBookingIsAvailable | backend.py:289-298 | a table whose bookings are all cancelled or completed is available for any request |
| Availability.CancelledNeverBlocks | backend.py:290 | a cancelled or completed booking never changes the answer, wherever it is in the list |
| Availability.ExcludedNeverBlocks | backend.py:293-294 | the booking being edited never changes the answer |
| Availability.OverlapSymmetricAbutting | backend.py:316 | the overlap test is symmetric, and intervals that only touch do not overlap |
| Availability.OverlapMeansSharedMinute | backend.py:316 | for intervals of positive length, overlap means some minute lies in both |
| Availability.DurationDefaultOnlyWhenAbsent | backend.py:308 | the 120-minute default applies only to a record without a duration key; a NULL duration raises |
| Values.ZipKeysVals | postgresql_driver.py:230-231 | a dict is rebuilt from its keys and values |

## Left out

- Connection configuration, logging and `print` are left out. Whether the server is reachable and the server's clock are parameters.
- Concurrency between sessions is left out. Each backend call runs one session against the committed state, so the race between two availability checks is not modelled.
- `execute_raw_sql`, `drop_table`, `get_table_info`, `get_tables_list`, `table_exists` and the example usage are left out. They lie outside the modelled core, and most of them read `information_schema`.
- `create_tables` and the GUI are left out: they are callers of the core.
- The `columns is None` path of `create_table` and its model-object branch are left out. The model passes the table name and its columns directly.
- The `users` and `tables` schemas are not part of this model beyond their table names. `models/user.py` and `models/tables.py` are not part of this model.
- Driver.PostgreSQLDriver.Select: ORDER BY is a list of column keys with ASC/DESC, not an arbitrary SQL text. Ties keep storage order, where PostgreSQL leaves their order unspecified.
- Driver.PostgreSQLDriver.Insert: with `return_id` and no connection, the source fails on a `None` cursor. The model reports the driver's "not connected" error instead.
- Driver.PostgreSQLDriver.Transaction: the block is a list of steps fixed in advance. A step is a statement that re-raises its failure, a create_table that swallows it, or an exception raised without sending anything (such as insert_many's KeyError). Python code in the block that chooses later steps from earlier results, and connect or disconnect calls inside a block, are not modelled.
- Driver.PostgreSQLDriver.InsertMany: `execute_values` pages of 100 rows are one statement here. A record missing a column of the first record raises KeyError, modelled as an error result.
- Store.Run: column types, VARCHAR lengths and the text of free-form constraints are not checked.
- Store.Run: a cascade goes one level deep, which is all the booking schema needs.
- Store.Run: a SERIAL value consumed by a failed insert is reused. PostgreSQL burns it.
- Store.Run: CURRENT_TIMESTAMP is the session's fixed clock.
- BookingModel.ColumnsDistinct: the COLUMNS strings are modelled as structured declarations. That their rendered SQL text equals the source's strings is not proved.
- BookingModel.NewBooking: the constructor only stores its arguments. Building the datatype with named arguments is that constructor; only the all-defaults call has a row.
- Availability.DurationDefaultOnlyWhenAbsent: datetime overflow and sub-minute resolution are not modelled. An instant is `day * 1440 + minute`.
- Values.Lookup: a Dict may repeat a key, which a Python dict cannot. The last entry wins.
- Backend.UpdateRecord: `updated_at` is not refreshed by an update, as in the source (no trigger is declared).
