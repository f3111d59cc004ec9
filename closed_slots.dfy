/** The closed-slot overlay (`useClosedSlots`): a row with a time closes that
    slot, a row without one closes the whole day, and the day row dominates. */
module ClosedSlots {
  import opened Wrappers
  import opened Text
  import opened Calendar
  import opened Store

  /** `closedSlots.some(slot => slot.closed_date === d && slot.closed_time === t)`,
      where `t == None` is the `null` of a day row. */
  predicate HasRow(rows: seq<ClosedSlot>, d: Day, t: Option<string>) {
    rows != [] && ((rows[0].date == d && rows[0].time == t) || HasRow(rows[1..], d, t))
  }

  /** `HasRow` is the existence of a matching row. */
  lemma {:induction false} HasRowIff(rows: seq<ClosedSlot>, d: Day, t: Option<string>)
    ensures HasRow(rows, d, t) <==> exists i :: 0 <= i < |rows| && rows[i].date == d && rows[i].time == t
  {
    if rows != [] {
      HasRowIff(rows[1..], d, t);
      if HasRow(rows[1..], d, t) {
        var i :| 0 <= i < |rows[1..]| && rows[1..][i].date == d && rows[1..][i].time == t;
        assert rows[i + 1] == rows[1..][i];
      }
      if exists i :: 0 <= i < |rows| && rows[i].date == d && rows[i].time == t {
        var i :| 0 <= i < |rows| && rows[i].date == d && rows[i].time == t;
        if i > 0 {
          assert rows[1..][i - 1] == rows[i];
        }
      }
    }
  }

  /** `isSlotClosed(date, time?)`: the day row first, then (only for a truthy
      time) the exact (date, time) row. */
  predicate IsSlotClosed(rows: seq<ClosedSlot>, d: Day, t: Option<string>) {
    HasRow(rows, d, None) || (Truthy(t) && HasRow(rows, d, t))
  }

  /** A day row closes every time of that day. */
  lemma DayDominates(rows: seq<ClosedSlot>, i: nat, t: Option<string>)
    requires i < |rows| && rows[i].time == None
    ensures IsSlotClosed(rows, rows[i].date, t)
  {
    HasRowIff(rows, rows[i].date, None);
  }

  /** Without a day row, a truthy time is closed exactly when a row carries
      that date and time; with no time or the empty time, exactly when a day
      row exists. */
  lemma SlotClosedIff(rows: seq<ClosedSlot>, d: Day, t: Option<string>)
    ensures !Truthy(t) ==> (IsSlotClosed(rows, d, t) <==> exists i :: 0 <= i < |rows| && rows[i].date == d && rows[i].time == None)
    ensures Truthy(t) && !HasRow(rows, d, None) ==>
      (IsSlotClosed(rows, d, t) <==> exists i :: 0 <= i < |rows| && rows[i].date == d && rows[i].time == t)
  {
    HasRowIff(rows, d, None);
    HasRowIff(rows, d, t);
  }

  /** The rows of one date. */
  function RowsOn(rows: seq<ClosedSlot>, d: Day): (r: seq<ClosedSlot>)
    ensures forall i :: 0 <= i < |r| ==> r[i].date == d && r[i] in rows
  {
    if rows == [] then []
    else (if rows[0].date == d then [rows[0]] else []) + RowsOn(rows[1..], d)
  }

  lemma {:induction false} HasRowOn(rows: seq<ClosedSlot>, d: Day, t: Option<string>)
    ensures HasRow(RowsOn(rows, d), d, t) == HasRow(rows, d, t)
  {
    if rows != [] {
      HasRowOn(rows[1..], d, t);
      if rows[0].date == d {
        assert RowsOn(rows, d) == [rows[0]] + RowsOn(rows[1..], d);
      } else {
        assert RowsOn(rows, d) == RowsOn(rows[1..], d);
      }
    }
  }

  /** Rows of other dates never change the answer for `d`. */
  lemma OtherDatesIrrelevant(rows: seq<ClosedSlot>, d: Day, t: Option<string>)
    ensures IsSlotClosed(rows, d, t) == IsSlotClosed(RowsOn(rows, d), d, t)
  {
    HasRowOn(rows, d, None);
    HasRowOn(rows, d, t);
  }

  lemma {:induction false} HasRowAppend(rows: seq<ClosedSlot>, row: ClosedSlot, d: Day, t: Option<string>)
    ensures HasRow(rows + [row], d, t) <==> HasRow(rows, d, t) || (row.date == d && row.time == t)
  {
    if rows != [] {
      assert (rows + [row])[1..] == rows[1..] + [row];
      HasRowAppend(rows[1..], row, d, t);
    } else {
      assert ([] + [row])[1..] == [];
    }
  }

  /** After `closeSlot(d, t)` the slot reads as closed, unless `t` is the empty
      string: that row closes nothing on its own. */
  lemma CloseThenClosed(rows: seq<ClosedSlot>, id: nat, d: Day, t: Option<string>)
    ensures t != Some("") ==> IsSlotClosed(rows + [ClosedSlot(id, d, t)], d, t)
    ensures t == Some("") ==> IsSlotClosed(rows + [ClosedSlot(id, d, t)], d, t) == IsSlotClosed(rows, d, t)
  {
    HasRowAppend(rows, ClosedSlot(id, d, t), d, t);
    HasRowAppend(rows, ClosedSlot(id, d, t), d, None);
  }

  /** `closeSlot`: insert one row, with no check for an equal row already there. */
  method CloseSlot(db: Db, d: Day, t: Option<string>) returns (row: ClosedSlot)
    requires db.Valid()
    modifies db
    ensures db.Valid()
    ensures row == ClosedSlot(old(db.nextId), d, t)
    ensures db.closed == old(db.closed) + [row] && db.nextId == old(db.nextId) + 1
    ensures db.bookings == old(db.bookings) && db.codes == old(db.codes)
  {
    row := ClosedSlot(db.nextId, d, t);
    AppendFreshId(db.closed, ClosedId, db.nextId, row);
    db.closed := db.closed + [row];
    db.nextId := db.nextId + 1;
  }

  /** `openSlot(id)`: delete the row with that id. */
  method OpenSlot(db: Db, id: nat)
    requires db.Valid()
    modifies db
    ensures db.Valid()
    ensures db.closed == RemoveId(old(db.closed), ClosedId, id)
    ensures forall i :: 0 <= i < |old(db.closed)| && old(db.closed)[i].id == id ==>
      db.closed == old(db.closed)[..i] + old(db.closed)[i + 1..]
    ensures (forall i :: 0 <= i < |old(db.closed)| ==> old(db.closed)[i].id != id) ==> db.closed == old(db.closed)
    ensures db.bookings == old(db.bookings) && db.codes == old(db.codes) && db.nextId == old(db.nextId)
  {
    var rows := db.closed;
    forall i | 0 <= i < |rows| && rows[i].id == id
      ensures RemoveId(rows, ClosedId, id) == rows[..i] + rows[i + 1..]
    {
      RemoveUniqueId(rows, ClosedId, i);
    }
    if forall i :: 0 <= i < |rows| ==> rows[i].id != id {
      RemoveAbsentId(rows, ClosedId, id);
    }
    RemoveIdKeepsIds(rows, ClosedId, db.nextId, id);
    db.closed := RemoveId(rows, ClosedId, id);
  }
}
