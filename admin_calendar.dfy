/** The admin calendar (`AdminCalendar`): the booking shown in a cell, the
    list of non-cancelled bookings, and the lock/unlock toggles for one slot
    and for a whole day. The component's `closedSlots` list is taken to be
    the table itself (the hook refetches after every change). */
module AdminCalendar {
  import opened Wrappers
  import opened Calendar
  import opened Store
  import opened ClosedSlots
  import opened Bookings

  /** `getBookingAtTime(d, t)`: the first non-cancelled booking at (`d`, `t`). */
  function BookingAtTime(bs: seq<Booking>, d: Day, t: string): (r: Option<Booking>)
    ensures r.Some? ==> r.value in bs && r.value.date == d && r.value.time == t && Active(r.value)
    ensures r.None? <==> forall i :: 0 <= i < |bs| ==> !(bs[i].date == d && bs[i].time == t && Active(bs[i]))
    ensures bs != [] && bs[0].date == d && bs[0].time == t && Active(bs[0]) ==> r == Some(bs[0])
  {
    if bs == [] then None
    else if bs[0].date == d && bs[0].time == t && Active(bs[0]) then Some(bs[0])
    else BookingAtTime(bs[1..], d, t)
  }

  /** The first matching booking comes before any other: no earlier booking
      sits at the same slot. */
  lemma {:induction false} BookingAtTimeIsFirst(bs: seq<Booking>, d: Day, t: string)
    requires BookingAtTime(bs, d, t).Some?
    ensures exists i :: 0 <= i < |bs| && bs[i] == BookingAtTime(bs, d, t).value &&
                        (forall j :: 0 <= j < i ==> !(bs[j].date == d && bs[j].time == t && Active(bs[j])))
  {
    if !(bs[0].date == d && bs[0].time == t && Active(bs[0])) {
      BookingAtTimeIsFirst(bs[1..], d, t);
      var i :| 0 <= i < |bs[1..]| && bs[1..][i] == BookingAtTime(bs[1..], d, t).value &&
        forall j :: 0 <= j < i ==> !(bs[1..][j].date == d && bs[1..][j].time == t && Active(bs[1..][j]));
      forall j | 0 <= j < i + 1 ensures !(bs[j].date == d && bs[j].time == t && Active(bs[j])) {
        if j > 0 {
          assert bs[j] == bs[1..][j - 1];
        }
      }
      assert bs[i + 1] == bs[1..][i];
    } else {
      assert bs[0] == BookingAtTime(bs, d, t).value;
    }
  }

  /** A cell shows a booking exactly when its time is among the day's booked
      times. */
  lemma BookingAtTimeIffBooked(bs: seq<Booking>, d: Day, t: string)
    ensures BookingAtTime(bs, d, t).Some? <==> t in BookedTimes(bs, d)
  {
    BookedTimesIff(bs, d, t);
  }

  /** `bookings.filter(b => b.status !== "cancelled")`, the list under the grid. */
  function ActiveBookings(bs: seq<Booking>): (r: seq<Booking>)
    ensures |r| <= |bs|
    ensures forall i :: 0 <= i < |r| ==> Active(r[i]) && r[i] in bs
  {
    if bs == [] then []
    else (if Active(bs[0]) then [bs[0]] else []) + ActiveBookings(bs[1..])
  }

  /** Every non-cancelled booking is listed, and the list is empty (the "no
      bookings" message) exactly when every booking is cancelled. */
  lemma {:induction false} ActiveBookingsComplete(bs: seq<Booking>)
    ensures forall i :: 0 <= i < |bs| && Active(bs[i]) ==> bs[i] in ActiveBookings(bs)
    ensures ActiveBookings(bs) == [] <==> forall i :: 0 <= i < |bs| ==> !Active(bs[i])
  {
    if bs != [] {
      ActiveBookingsComplete(bs[1..]);
      forall i | 0 <= i < |bs| && Active(bs[i]) ensures bs[i] in ActiveBookings(bs) {
        if i > 0 {
          assert bs[i] == bs[1..][i - 1];
        }
      }
      if forall i :: 0 <= i < |bs| ==> !Active(bs[i]) {
        forall i | 0 <= i < |bs[1..]| ensures !Active(bs[1..][i]) {
          assert bs[1..][i] == bs[i + 1];
        }
      }
    }
  }

  /** `closedSlots.find(slot => slot.closed_date === d && slot.closed_time === t)`,
      as the index of the first matching row. */
  function FindRow(rows: seq<ClosedSlot>, d: Day, t: Option<string>): (r: Option<nat>)
    ensures r.Some? ==> r.value < |rows| && rows[r.value].date == d && rows[r.value].time == t
    ensures r.Some? ==> forall j :: 0 <= j < r.value ==> !(rows[j].date == d && rows[j].time == t)
    ensures r.None? <==> forall j :: 0 <= j < |rows| ==> !(rows[j].date == d && rows[j].time == t)
  {
    if rows == [] then None
    else if rows[0].date == d && rows[0].time == t then Some(0)
    else match FindRow(rows[1..], d, t)
      case Some(i) => Some(i + 1)
      case None => None
  }

  lemma FindRowHasRow(rows: seq<ClosedSlot>, d: Day, t: Option<string>)
    ensures FindRow(rows, d, t).Some? <==> HasRow(rows, d, t)
  {
    HasRowIff(rows, d, t);
  }

  /** The rows after one toggle of (`d`, `t`): the first matching row is
      deleted, or, with none, a row with the next id is added. */
  function Toggled(rows: seq<ClosedSlot>, next: nat, d: Day, t: Option<string>): (r: seq<ClosedSlot>)
    ensures FindRow(rows, d, t).Some? ==> |r| == |rows| - 1
    ensures FindRow(rows, d, t).None? ==> |r| == |rows| + 1 && r[|rows|] == ClosedSlot(next, d, t)
  {
    match FindRow(rows, d, t)
    case Some(i) => rows[..i] + rows[i + 1..]
    case None => rows + [ClosedSlot(next, d, t)]
  }

  /** Both toggles: open the first matching row by id, or close the slot. */
  method Toggle(db: Db, d: Day, t: Option<string>) returns (reopened: bool)
    requires db.Valid()
    modifies db
    ensures db.Valid()
    ensures reopened <==> HasRow(old(db.closed), d, t)
    ensures db.closed == Toggled(old(db.closed), old(db.nextId), d, t)
    ensures db.nextId == old(db.nextId) + (if reopened then 0 else 1)
    ensures db.bookings == old(db.bookings) && db.codes == old(db.codes)
  {
    FindRowHasRow(db.closed, d, t);
    var found := FindRow(db.closed, d, t);
    if found.Some? {
      OpenSlot(db, db.closed[found.value].id);
      reopened := true;
    } else {
      var _ := CloseSlot(db, d, t);
      reopened := false;
    }
  }

  /** `handleToggleSlot(date, time)` */
  method ToggleSlot(db: Db, d: Day, time: string) returns (reopened: bool)
    requires db.Valid()
    modifies db
    ensures db.Valid()
    ensures reopened <==> HasRow(old(db.closed), d, Some(time))
    ensures db.closed == Toggled(old(db.closed), old(db.nextId), d, Some(time))
    ensures db.nextId == old(db.nextId) + (if reopened then 0 else 1)
    ensures db.bookings == old(db.bookings) && db.codes == old(db.codes)
  {
    reopened := Toggle(db, d, Some(time));
  }

  /** `handleToggleDay(date)` */
  method ToggleDay(db: Db, d: Day) returns (reopened: bool)
    requires db.Valid()
    modifies db
    ensures db.Valid()
    ensures reopened <==> HasRow(old(db.closed), d, None)
    ensures db.closed == Toggled(old(db.closed), old(db.nextId), d, None)
    ensures db.nextId == old(db.nextId) + (if reopened then 0 else 1)
    ensures db.bookings == old(db.bookings) && db.codes == old(db.codes)
  {
    reopened := Toggle(db, d, None);
  }

  /** The day-level rows (no time), in table order. */
  function DayRows(rows: seq<ClosedSlot>): (r: seq<ClosedSlot>)
    ensures forall i :: 0 <= i < |r| ==> r[i].time.None?
  {
    if rows == [] then [] else (if rows[0].time.None? then [rows[0]] else []) + DayRows(rows[1..])
  }

  /** Every day-level row is a row of the table. */
  lemma {:induction false} DayRowsAreRows(rows: seq<ClosedSlot>)
    ensures forall x :: x in DayRows(rows) ==> x in rows
  {
    if rows != [] {
      DayRowsAreRows(rows[1..]);
    }
  }

  lemma {:induction false} DayRowsConcat(a: seq<ClosedSlot>, b: seq<ClosedSlot>)
    ensures DayRows(a + b) == DayRows(a) + DayRows(b)
  {
    if a == [] {
      assert a + b == b;
    } else {
      assert (a + b)[1..] == a[1..] + b;
      DayRowsConcat(a[1..], b);
    }
  }

  lemma TimeRowNotDayRow(row: ClosedSlot)
    requires row.time.Some?
    ensures DayRows([row]) == []
  {
    assert [row][1..] == [];
  }

  /** Deleting a row that has a time keeps the day-level rows. */
  lemma DayRowsWithout(rows: seq<ClosedSlot>, i: nat)
    requires i < |rows| && rows[i].time.Some?
    ensures DayRows(rows[..i] + rows[i + 1..]) == DayRows(rows)
  {
    var a, x, b := rows[..i], rows[i], rows[i + 1..];
    assert rows == a + ([x] + b);
    DayRowsConcat(a, [x] + b);
    DayRowsConcat([x], b);
    TimeRowNotDayRow(x);
    DayRowsConcat(a, b);
  }

  /** A slot toggle never adds or removes a day-level row. */
  lemma ToggleSlotKeepsDayRows(rows: seq<ClosedSlot>, next: nat, d: Day, time: string)
    ensures DayRows(Toggled(rows, next, d, Some(time))) == DayRows(rows)
  {
    match FindRow(rows, d, Some(time))
    case Some(i) =>
      DayRowsWithout(rows, i);
    case None =>
      var row := ClosedSlot(next, d, Some(time));
      DayRowsConcat(rows, [row]);
      TimeRowNotDayRow(row);
  }

  /** Removing row i leaves exactly the other rows' (date, time) pairs. */
  lemma HasRowWithout(rows: seq<ClosedSlot>, i: nat, d: Day, t: Option<string>)
    requires i < |rows|
    ensures HasRow(rows[..i] + rows[i + 1..], d, t) <==>
      exists j :: 0 <= j < |rows| && j != i && rows[j].date == d && rows[j].time == t
  {
    var r := rows[..i] + rows[i + 1..];
    HasRowIff(r, d, t);
    if exists k :: 0 <= k < |r| && r[k].date == d && r[k].time == t {
      var k :| 0 <= k < |r| && r[k].date == d && r[k].time == t;
      if k < i {
        assert r[k] == rows[k];
      } else {
        assert r[k] == rows[k + 1];
      }
    }
    if exists j :: 0 <= j < |rows| && j != i && rows[j].date == d && rows[j].time == t {
      var j :| 0 <= j < |rows| && j != i && rows[j].date == d && rows[j].time == t;
      if j < i {
        assert r[j] == rows[j];
      } else {
        assert r[j - 1] == rows[j];
      }
    }
  }

  /** A toggle of (`d`, `t`) changes no other (date, time) pair. */
  lemma ToggleOnlyThatPair(rows: seq<ClosedSlot>, next: nat, d: Day, t: Option<string>, d': Day, t': Option<string>)
    requires d' != d || t' != t
    ensures HasRow(Toggled(rows, next, d, t), d', t') == HasRow(rows, d', t')
  {
    HasRowIff(rows, d', t');
    match FindRow(rows, d, t)
    case Some(i) =>
      HasRowWithout(rows, i, d', t');
    case None =>
      HasRowAppend(rows, ClosedSlot(next, d, t), d', t');
  }

  /** A toggle with no matching row closes the pair; one with exactly one
      matching row opens it. */
  lemma ToggleFlips(rows: seq<ClosedSlot>, next: nat, d: Day, t: Option<string>)
    ensures !HasRow(rows, d, t) ==> HasRow(Toggled(rows, next, d, t), d, t)
    ensures (exists i :: 0 <= i < |rows| && rows[i].date == d && rows[i].time == t &&
              forall j :: 0 <= j < |rows| && j != i ==> !(rows[j].date == d && rows[j].time == t)) ==>
            !HasRow(Toggled(rows, next, d, t), d, t)
  {
    FindRowHasRow(rows, d, t);
    match FindRow(rows, d, t)
    case Some(i) =>
      HasRowWithout(rows, i, d, t);
    case None =>
      HasRowAppend(rows, ClosedSlot(next, d, t), d, t);
  }

  /** Toggling a pair that has no row twice gives back the same rows. */
  lemma ToggleTwiceRestores(rows: seq<ClosedSlot>, next: nat, d: Day, t: Option<string>)
    requires !HasRow(rows, d, t)
    ensures Toggled(Toggled(rows, next, d, t), next + 1, d, t) == rows
  {
    FindRowHasRow(rows, d, t);
    var row := ClosedSlot(next, d, t);
    var r1 := rows + [row];
    assert Toggled(rows, next, d, t) == r1;
    assert r1[|rows|] == row;
    var k := FindRow(r1, d, t);
    assert k.Some?;
    forall j | 0 <= j < |rows| ensures !(r1[j].date == d && r1[j].time == t) {
      assert r1[j] == rows[j];
    }
    assert k.value == |rows|;
    assert r1[..|rows|] + r1[|rows| + 1..] == rows;
  }

  /** Toggling a pair with exactly one row twice moves that row to the end
      under the next id. */
  lemma ToggleTwiceRenews(rows: seq<ClosedSlot>, next: nat, d: Day, t: Option<string>, i: nat)
    requires i < |rows| && rows[i].date == d && rows[i].time == t
    requires forall j :: 0 <= j < |rows| && j != i ==> !(rows[j].date == d && rows[j].time == t)
    ensures Toggled(Toggled(rows, next, d, t), next, d, t) == rows[..i] + rows[i + 1..] + [ClosedSlot(next, d, t)]
  {
    var k := FindRow(rows, d, t);
    assert k == Some(i);
    var r1 := rows[..i] + rows[i + 1..];
    HasRowWithout(rows, i, d, t);
    FindRowHasRow(r1, d, t);
  }

  /** The unlock button of a slot on a locked day runs the slot toggle: with no
      row for that time it adds one, and the slot stays closed. */
  lemma UnlockOnClosedDayAddsRow(rows: seq<ClosedSlot>, next: nat, d: Day, time: string)
    requires HasRow(rows, d, None) && !HasRow(rows, d, Some(time))
    ensures Toggled(rows, next, d, Some(time)) == rows + [ClosedSlot(next, d, Some(time))]
    ensures IsSlotClosed(Toggled(rows, next, d, Some(time)), d, Some(time))
  {
    FindRowHasRow(rows, d, Some(time));
    HasRowAppend(rows, ClosedSlot(next, d, Some(time)), d, None);
  }
}
