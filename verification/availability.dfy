/** The table-availability check: which of a table's bookings on a date still count, the
    time interval each of them occupies, and whether a requested interval collides with one.
    A moment is a number of minutes: day number times 1440 plus minutes after midnight, so an
    interval that runs past midnight simply continues into the next day. */
module Availability {
  import opened Values

  const MinutesPerDay: int := 1440

  /** `existing_duration` when a booking record has no `duration` key. */
  const DefaultDuration: int := 120

  /** `datetime.combine(date, time)` as minutes. */
  function Instant(day: int, minute: int): int
  {
    day * MinutesPerDay + minute
  }

  /** The half-open intervals [s1, e1) and [s2, e2) collide unless one ends before the other
      starts. */
  predicate Overlaps(s1: int, e1: int, s2: int, e2: int)
  {
    !(e1 <= s2 || s1 >= e2)
  }

  /** The status filter: a booking counts unless its status is `cancelled` or `completed`; a
      record without a status counts. */
  predicate Active(b: Record)
  {
    Field(b, "status") != Text("cancelled") && Field(b, "status") != Text("completed")
  }

  /** Python's `value == exclude_booking_id` for an integer on the right: True equals 1,
      False equals 0, no other kind equals an integer. */
  predicate SameId(v: Value, id: int)
  {
    match v
    case Int(i) => i == id
    case Bool(b) => (if b then 1 else 0) == id
    case _ => false
  }

  function ActiveOnly(bs: seq<Record>): (out: seq<Record>)
    ensures forall b :: b in out <==> b in bs && Active(b)
    ensures |out| <= |bs|
  {
    if bs == [] then []
    else (if Active(bs[0]) then [bs[0]] else []) + ActiveOnly(bs[1..])
  }

  /** The exclusion filter `b['id'] != exclude`: a record without an `id` key raises KeyError. */
  function WithoutBooking(bs: seq<Record>, exclude: int): (r: Result<seq<Record>>)
    ensures r.Ok? <==> forall b :: b in bs ==> "id" in b
    ensures r.Ok? ==> forall b :: b in r.value <==> b in bs && !SameId(b["id"], exclude)
  {
    if bs == [] then Ok([])
    else if "id" !in bs[0] then Err(KeyMissing("id"))
    else match WithoutBooking(bs[1..], exclude)
      case Err(e) => Err(e)
      case Ok(rest) => Ok((if SameId(bs[0]["id"], exclude) then [] else [bs[0]]) + rest)
  }

  /** The bookings that are compared with the request. */
  function Remaining(bs: seq<Record>, exclude: Option<int>): Result<seq<Record>>
  {
    if exclude.None? then Ok(ActiveOnly(bs)) else WithoutBooking(ActiveOnly(bs), exclude.value)
  }

  /** `booking.get('duration', 120)` as minutes for timedelta: the default only when the key
      is absent; a NULL or a non-number raises TypeError; a boolean counts as 0 or 1. */
  function DurationOf(b: Record): Result<int>
  {
    if "duration" !in b then Ok(DefaultDuration)
    else match b["duration"]
      case Int(i) => Ok(i)
      case Bool(x) => Ok(if x then 1 else 0)
      case _ => Err(TypeMismatch)
  }

  /** The interval an existing booking occupies, or the error computing it raises. */
  function BookingInterval(b: Record): Result<(int, int)>
  {
    if "booking_date" !in b then Err(KeyMissing("booking_date"))
    else if "booking_time" !in b then Err(KeyMissing("booking_time"))
    else if !b["booking_date"].Date? || !b["booking_time"].Time? then Err(TypeMismatch)
    else
      var start := Instant(b["booking_date"].day, b["booking_time"].minute);
      match DurationOf(b)
      case Err(e) => Err(e)
      case Ok(d) => Ok((start, start + d))
  }

  /** No booking of `bs` collides with [start, end), every interval computed without error. */
  predicate Clear(bs: seq<Record>, start: int, end: int)
  {
    forall b :: b in bs ==>
      BookingInterval(b).Ok? && !Overlaps(start, end, BookingInterval(b).value.0, BookingInterval(b).value.1)
  }

  /** The loop over the remaining bookings: false at the first collision, an error at the
      first record whose interval cannot be computed, true after the last. */
  function Scan(bs: seq<Record>, start: int, end: int): Result<bool>
  {
    if bs == [] then Ok(true)
    else match BookingInterval(bs[0])
      case Err(e) => Err(e)
      case Ok(iv) => if Overlaps(start, end, iv.0, iv.1) then Ok(false) else Scan(bs[1..], start, end)
  }

  /** The answer for the bookings left after the filters (or the error filtering raised). */
  function Verdict(rest: Result<seq<Record>>, day: int, minute: int, duration: int): bool
  {
    match rest
    case Err(_) => false
    case Ok(bs) =>
      if bs == [] then true
      else
        var start := Instant(day, minute);
        Scan(bs, start, start + duration) == Ok(true)
  }

  /** is_table_available after the select: the select's outcome, the excluded id, and the
      requested date, start and duration. Any error is reported as "not available". */
  function Decide(selected: Result<seq<Record>>, exclude: Option<int>, day: int, minute: int, duration: int): bool
  {
    if selected.Err? then false else Verdict(Remaining(selected.value, exclude), day, minute, duration)
  }

  /** The scan over the remaining bookings as the source writes it, a loop with early exits. */
  method ScanBookings(bs: seq<Record>, start: int, end: int) returns (r: Result<bool>)
    ensures r == Scan(bs, start, end)
  {
    var i := 0;
    while i < |bs|
      invariant 0 <= i <= |bs|
      invariant Scan(bs, start, end) == Scan(bs[i..], start, end)
    {
      assert bs[i..][1..] == bs[i + 1..];
      var iv := BookingInterval(bs[i]);
      if iv.Err? {
        return Err(iv.error);
      }
      if Overlaps(start, end, iv.value.0, iv.value.1) {
        return Ok(false);
      }
      i := i + 1;
    }
    return Ok(true);
  }

  /** The check on the selected bookings as the source writes it: filter by status, drop the
      excluded booking, answer true when nothing is left, and otherwise scan. */
  method CheckBookings(selected: Result<seq<Record>>, exclude: Option<int>, day: int, minute: int, duration: int)
    returns (available: bool)
    ensures available == Decide(selected, exclude, day, minute, duration)
  {
    available := false;
    if selected.Ok? {
      var rest := Remaining(selected.value, exclude);
      if rest.Ok? {
        if rest.value == [] {
          available := true;
        } else {
          var start := Instant(day, minute);
          var scan := ScanBookings(rest.value, start, start + duration);
          available := scan == Ok(true);
        }
      }
    }
  }

  // ---------------------------------------------------------------------------
  // Properties

  /** The scan says true exactly when no booking collides and none raises. */
  lemma {:induction false} ScanTrueIff(bs: seq<Record>, start: int, end: int)
    ensures Scan(bs, start, end) == Ok(true) <==> Clear(bs, start, end)
  {
    if bs != [] {
      ScanTrueIff(bs[1..], start, end);
      assert bs == [bs[0]] + bs[1..];
    }
  }

  /** The check says available exactly when the select succeeded, the remaining bookings
      could be computed, and none of them collides with the requested interval. */
  lemma DecideIff(selected: Result<seq<Record>>, exclude: Option<int>, day: int, minute: int, duration: int)
    ensures Decide(selected, exclude, day, minute, duration) <==>
      && selected.Ok?
      && Remaining(selected.value, exclude).Ok?
      && Clear(Remaining(selected.value, exclude).value, Instant(day, minute), Instant(day, minute) + duration)
  {
    if selected.Ok? && Remaining(selected.value, exclude).Ok? {
      ScanTrueIff(Remaining(selected.value, exclude).value, Instant(day, minute), Instant(day, minute) + duration);
    }
  }

  /** When every remaining booking has a computable interval, the answer is false exactly when
      one of them collides with the request. */
  lemma ConflictIff(bs: seq<Record>, exclude: Option<int>, day: int, minute: int, duration: int)
    requires Remaining(bs, exclude).Ok?
    requires forall b :: b in Remaining(bs, exclude).value ==> BookingInterval(b).Ok?
    ensures !Decide(Ok(bs), exclude, day, minute, duration) <==>
      exists b :: b in Remaining(bs, exclude).value &&
        Overlaps(Instant(day, minute), Instant(day, minute) + duration, BookingInterval(b).value.0, BookingInterval(b).value.1)
  {
    DecideIff(Ok(bs), exclude, day, minute, duration);
  }

  /** Fail-closed: a select that raised means "not available". */
  lemma SelectErrorMeansBusy(e: Error, exclude: Option<int>, day: int, minute: int, duration: int)
    ensures !Decide(Err(e), exclude, day, minute, duration)
  {
  }

  /** With no booking left after the status and exclusion filters, every request is
      available. */
  lemma NothingLeftIsAvailable(bs: seq<Record>, exclude: Option<int>, day: int, minute: int, duration: int)
    requires Remaining(bs, exclude) == Ok([])
    ensures Decide(Ok(bs), exclude, day, minute, duration)
  {
    DecideIff(Ok(bs), exclude, day, minute, duration);
  }

  /** In particular, a table whose bookings are all cancelled or completed is available for
      every request, whichever booking is excluded. */
  lemma NoActiveBookingIsAvailable(bs: seq<Record>, exclude: Option<int>, day: int, minute: int, duration: int)
    requires forall b :: b in bs ==> !Active(b)
    ensures Decide(Ok(bs), exclude, day, minute, duration)
  {
    NoneActive(bs);
    NothingLeftIsAvailable(bs, exclude, day, minute, duration);
  }

  lemma {:induction false} NoneActive(bs: seq<Record>)
    requires forall b :: b in bs ==> !Active(b)
    ensures ActiveOnly(bs) == []
  {
    if bs != [] {
      assert bs[0] in bs;
      NoneActive(bs[1..]);
    }
  }

  lemma {:induction false} ActiveOnlyAppend(a: seq<Record>, b: seq<Record>)
    ensures ActiveOnly(a + b) == ActiveOnly(a) + ActiveOnly(b)
  {
    if a == [] {
      assert a + b == b;
    } else {
      assert (a + b)[1..] == a[1..] + b;
      ActiveOnlyAppend(a[1..], b);
    }
  }

  /** Records the exclusion filter drops entirely can be skipped. */
  lemma {:induction false} WithoutSkipsPrefix(y: seq<Record>, z: seq<Record>, exclude: int)
    requires WithoutBooking(y, exclude) == Ok([])
    ensures WithoutBooking(y + z, exclude) == WithoutBooking(z, exclude)
  {
    if y == [] {
      assert y + z == z;
    } else {
      assert y[0] in y;
      assert WithoutBooking(y[1..], exclude) == Ok([]);
      var yz := y + z;
      assert yz != [] && yz[0] == y[0] && yz[1..] == y[1..] + z;
      WithoutSkipsPrefix(y[1..], z, exclude);
      match WithoutBooking(z, exclude)
      case Ok(v) => assert [] + v == v;
      case Err(_) =>
    }
  }

  lemma {:induction false} WithoutSkips(x: seq<Record>, y: seq<Record>, z: seq<Record>, exclude: int)
    requires WithoutBooking(y, exclude) == Ok([])
    ensures WithoutBooking(x + y + z, exclude) == WithoutBooking(x + z, exclude)
  {
    if x == [] {
      assert x + y + z == y + z && x + z == z;
      WithoutSkipsPrefix(y, z, exclude);
    } else {
      assert (x + y + z)[0] == x[0] && (x + y + z)[1..] == x[1..] + y + z;
      assert (x + z)[0] == x[0] && (x + z)[1..] == x[1..] + z;
      WithoutSkips(x[1..], y, z, exclude);
    }
  }

  lemma ActiveOnlySplit(before: seq<Record>, b: Record, after: seq<Record>)
    ensures ActiveOnly(before + [b] + after) == ActiveOnly(before) + ActiveOnly([b]) + ActiveOnly(after)
    ensures ActiveOnly(before + after) == ActiveOnly(before) + ActiveOnly(after)
    ensures ActiveOnly([b]) == (if Active(b) then [b] else [])
  {
    ActiveOnlyAppend(before + [b], after);
    ActiveOnlyAppend(before, [b]);
    ActiveOnlyAppend(before, after);
    assert [b][1..] == [];
  }

  /** A cancelled or completed booking never changes the answer, wherever it sits among the
      others and whatever its interval. */
  lemma CancelledNeverBlocks(before: seq<Record>, b: Record, after: seq<Record>, exclude: Option<int>,
                             day: int, minute: int, duration: int)
    requires !Active(b)
    ensures Decide(Ok(before + [b] + after), exclude, day, minute, duration)
         == Decide(Ok(before + after), exclude, day, minute, duration)
  {
    ActiveOnlySplit(before, b, after);
    assert ActiveOnly(before) + [] + ActiveOnly(after) == ActiveOnly(before) + ActiveOnly(after);
    assert Remaining(before + [b] + after, exclude) == Remaining(before + after, exclude);
  }

  /** The booking being edited (its id equal to `exclude_booking_id`) never changes the answer,
      wherever it sits among the others and whatever its interval or status. */
  lemma ExcludedNeverBlocks(before: seq<Record>, b: Record, after: seq<Record>, exclude: int,
                            day: int, minute: int, duration: int)
    requires "id" in b && SameId(b["id"], exclude)
    ensures Decide(Ok(before + [b] + after), Some(exclude), day, minute, duration)
         == Decide(Ok(before + after), Some(exclude), day, minute, duration)
  {
    ActiveOnlySplit(before, b, after);
    var x, y, z := ActiveOnly(before), ActiveOnly([b]), ActiveOnly(after);
    if Active(b) {
      assert y == [b] && y[1..] == [] && y[0] == b;
      assert WithoutBooking(y[1..], exclude) == Ok([]);
      var none: seq<Record> := [];
      assert none + none == none;
    } else {
      assert y == [];
    }
    WithoutSkips(x, y, z, exclude);
    assert Remaining(before + [b] + after, Some(exclude)) == Remaining(before + after, Some(exclude));
  }

  predicate Within(m: int, s: int, e: int)
  {
    s <= m < e
  }

  /** For intervals of positive length the collision test means "some minute lies in both". */
  lemma OverlapMeansSharedMinute(s1: int, e1: int, s2: int, e2: int)
    requires s1 < e1 && s2 < e2
    ensures Overlaps(s1, e1, s2, e2) <==> exists m :: Within(m, s1, e1) && Within(m, s2, e2)
  {
    if Overlaps(s1, e1, s2, e2) {
      var m := if s1 < s2 then s2 else s1;
      assert Within(m, s1, e1) && Within(m, s2, e2);
    }
  }

  /** The collision test is symmetric, and intervals that only touch do not collide. */
  lemma OverlapSymmetricAbutting(s1: int, e1: int, s2: int, e2: int)
    ensures Overlaps(s1, e1, s2, e2) == Overlaps(s2, e2, s1, e1)
    ensures e1 == s2 ==> !Overlaps(s1, e1, s2, e2)
    ensures s1 == e2 ==> !Overlaps(s1, e1, s2, e2)
  {
  }

  /** The 120-minute default applies only to a record without the key; a NULL duration raises. */
  lemma DurationDefaultOnlyWhenAbsent(b: Record)
    ensures "duration" !in b ==> DurationOf(b) == Ok(120)
    ensures "duration" in b && b["duration"] == Null ==> DurationOf(b).Err?
    ensures "duration" in b && b["duration"].Int? ==> DurationOf(b) == Ok(b["duration"].i)
  {
  }
}
