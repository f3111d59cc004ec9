/** The bookings hook (`useBookings`): the booked times of a day, and the
    admin's update and delete of one booking. The hook's `bookings` list is
    taken to be the table itself (the hook refetches on every change). */
module Bookings {
  import opened Wrappers
  import opened Text
  import opened Calendar
  import opened Store
  import SendSms

  /** `getBookedTimesForDate(d)`: the times of the day's non-cancelled
      bookings, in list order. */
  function BookedTimes(bs: seq<Booking>, d: Day): (r: seq<string>)
    ensures |r| <= |bs|
  {
    if bs == [] then []
    else (if bs[0].date == d && Active(bs[0]) then [bs[0].time] else []) + BookedTimes(bs[1..], d)
  }

  /** The number of bookings on a day, cancelled or not. */
  function CountOn(bs: seq<Booking>, d: Day): nat {
    if bs == [] then 0 else (if bs[0].date == d then 1 else 0) + CountOn(bs[1..], d)
  }

  /** A time is booked exactly when a non-cancelled booking of that day has it,
      and there are no more booked times than bookings on the day. */
  lemma {:induction false} BookedTimesIff(bs: seq<Booking>, d: Day, t: string)
    ensures t in BookedTimes(bs, d) <==> exists i :: 0 <= i < |bs| && bs[i].date == d && bs[i].time == t && Active(bs[i])
    ensures |BookedTimes(bs, d)| <= CountOn(bs, d)
  {
    if bs != [] {
      BookedTimesIff(bs[1..], d, t);
      if exists i :: 0 <= i < |bs| && bs[i].date == d && bs[i].time == t && Active(bs[i]) {
        var i :| 0 <= i < |bs| && bs[i].date == d && bs[i].time == t && Active(bs[i]);
        if i > 0 {
          assert bs[1..][i - 1] == bs[i];
        }
      }
      if exists i :: 0 <= i < |bs[1..]| && bs[1..][i].date == d && bs[1..][i].time == t && Active(bs[1..][i]) {
        var i :| 0 <= i < |bs[1..]| && bs[1..][i].date == d && bs[1..][i].time == t && Active(bs[1..][i]);
        assert bs[i + 1] == bs[1..][i];
      }
    }
  }

  /** The list order is kept: the booked times of a concatenation are the
      booked times of its parts, one after the other. */
  lemma {:induction false} BookedTimesConcat(a: seq<Booking>, b: seq<Booking>, d: Day)
    ensures BookedTimes(a + b, d) == BookedTimes(a, d) + BookedTimes(b, d)
  {
    if a == [] {
      assert a + b == b;
    } else {
      assert (a + b)[1..] == a[1..] + b;
      BookedTimesConcat(a[1..], b, d);
    }
  }

  /** The fields an update may set; `None` leaves a field as it is. */
  datatype Patch = Patch(
    name: Option<string>,
    phone: Option<string>,
    date: Option<Day>,
    time: Option<string>,
    status: Option<string>)

  function ApplyPatch(b: Booking, p: Patch): (r: Booking)
    ensures r.id == b.id && r.reminderSent == b.reminderSent
    ensures p.date.None? ==> r.date == b.date
    ensures p.time.None? ==> r.time == b.time
  {
    b.(name := p.name.GetOr(b.name), phone := p.phone.GetOr(b.phone), date := p.date.GetOr(b.date),
       time := p.time.GetOr(b.time), status := p.status.GetOr(b.status))
  }

  /** `.update(patch).eq("id", id)` */
  function UpdateRows(bs: seq<Booking>, id: nat, p: Patch): (r: seq<Booking>)
    ensures |r| == |bs|
    ensures forall i :: 0 <= i < |bs| ==> r[i] == if bs[i].id == id then ApplyPatch(bs[i], p) else bs[i]
  {
    if bs == [] then [] else [if bs[0].id == id then ApplyPatch(bs[0], p) else bs[0]] + UpdateRows(bs[1..], id, p)
  }

  /** The first booking with the id (`bookings.find(b => b.id === id)`). */
  function FindById(bs: seq<Booking>, id: nat): (r: Option<Booking>)
    ensures r.Some? ==> r.value in bs && r.value.id == id
    ensures r.None? <==> forall i :: 0 <= i < |bs| ==> bs[i].id != id
  {
    if bs == [] then None else if bs[0].id == id then Some(bs[0]) else FindById(bs[1..], id)
  }

  /** An update touches only the patched fields of that one row: the id and
      the reminder flag stay, a field set to `None` keeps its value, and every
      other row is left alone. */
  lemma UpdateChangesOnlyPatchedFields(bs: seq<Booking>, id: nat, p: Patch, i: nat)
    requires i < |bs|
    ensures var r := UpdateRows(bs, id, p)[i];
      r.id == bs[i].id && r.reminderSent == bs[i].reminderSent &&
      (bs[i].id != id ==> r == bs[i]) &&
      (p.name.None? ==> r.name == bs[i].name) && (p.phone.None? ==> r.phone == bs[i].phone) &&
      (p.date.None? ==> r.date == bs[i].date) && (p.time.None? ==> r.time == bs[i].time) &&
      (p.status.None? ==> r.status == bs[i].status) &&
      (bs[i].id == id && p.time.Some? ==> r.time == p.time.value) &&
      (bs[i].id == id && p.date.Some? ==> r.date == p.date.value)
  {
  }

  /** An update does not check that the new slot is free: moving a booking to
      a taken time leaves two non-cancelled bookings there. */
  lemma UpdateCanDoubleBook()
    ensures var b1 := Booking(1, "Dana", "0501234567", 20000, "10:00", "confirmed", false);
            var b2 := Booking(2, "Noa", "0507654321", 20000, "10:40", "confirmed", false);
            OneActivePerSlot([b1, b2]) &&
            !OneActivePerSlot(UpdateRows([b1, b2], 2, Patch(None, None, None, Some("10:00"), None)))
  {
    var b1 := Booking(1, "Dana", "0501234567", 20000, "10:00", "confirmed", false);
    var b2 := Booking(2, "Noa", "0507654321", 20000, "10:40", "confirmed", false);
    var r := UpdateRows([b1, b2], 2, Patch(None, None, None, Some("10:00"), None));
    assert r[0] == b1 && r[1].time == "10:00" && r[1].date == 20000 && Active(r[1]);
  }

  datatype UpdateResult = UpdateFailed | Updated(booking: Booking)

  /** The SMS `updateBooking` asks for: to the phone the booking had before the
      update, with the patched date and time when given (and truthy), else the
      booking's own. */
  function UpdateNotice(current: Booking, p: Patch): (r: SendSms.SmsRequest)
    ensures r.phone == current.phone && r.kind == SendSms.BookingUpdated
    ensures r.data.date == Some(if p.date.Some? then p.date.value else current.date)
    ensures r.data.time == Some(if Truthy(p.time) then p.time.value else current.time)
  {
    SendSms.SmsRequest(current.phone, SendSms.BookingUpdated,
      SendSms.SmsData(None, Some(p.date.GetOr(current.date)),
        Some(if Truthy(p.time) then p.time.value else current.time), None))
  }

  /** `updateBooking(id, patch, sendSms)`. `.single()` fails when no row has
      the id; the error is thrown before any SMS. */
  method UpdateBooking(db: Db, id: nat, p: Patch, sendSms: bool) returns (res: UpdateResult, sms: Option<SendSms.SmsRequest>)
    requires db.Valid()
    modifies db
    ensures db.Valid()
    ensures FindById(old(db.bookings), id).None? ==> res == UpdateFailed && sms == None && db.bookings == old(db.bookings)
    ensures FindById(old(db.bookings), id).Some? ==>
      res == Updated(ApplyPatch(FindById(old(db.bookings), id).value, p)) &&
      db.bookings == UpdateRows(old(db.bookings), id, p) &&
      sms == (if sendSms then Some(UpdateNotice(FindById(old(db.bookings), id).value, p)) else None)
    ensures db.closed == old(db.closed) && db.codes == old(db.codes) && db.nextId == old(db.nextId)
  {
    var current := FindById(db.bookings, id);
    if current.None? {
      return UpdateFailed, None;
    }
    var rows := UpdateRows(db.bookings, id, p);
    assert forall i :: 0 <= i < |rows| ==> rows[i].id == db.bookings[i].id;
    db.bookings := rows;
    res := Updated(ApplyPatch(current.value, p));
    sms := if sendSms then Some(UpdateNotice(current.value, p)) else None;
  }

  /** `deleteBooking(id, sendSms)`: the row goes; the cancellation SMS is asked
      for only when `sendSms` is set and the booking was in the list. */
  method DeleteBooking(db: Db, id: nat, sendSms: bool) returns (sms: Option<SendSms.SmsRequest>)
    requires db.Valid()
    modifies db
    ensures db.Valid()
    ensures db.bookings == RemoveId(old(db.bookings), BookingId, id)
    ensures forall i :: 0 <= i < |old(db.bookings)| && old(db.bookings)[i].id == id ==>
      db.bookings == old(db.bookings)[..i] + old(db.bookings)[i + 1..]
    ensures FindById(old(db.bookings), id).None? ==> db.bookings == old(db.bookings)
    ensures sms.Some? <==> sendSms && FindById(old(db.bookings), id).Some?
    ensures sms.Some? ==> var b := FindById(old(db.bookings), id).value;
      sms.value == SendSms.SmsRequest(b.phone, SendSms.BookingCancelled, SendSms.SmsData(None, Some(b.date), Some(b.time), None))
    ensures db.closed == old(db.closed) && db.codes == old(db.codes) && db.nextId == old(db.nextId)
  {
    var toDelete := FindById(db.bookings, id);
    var rows := db.bookings;
    forall i | 0 <= i < |rows| && rows[i].id == id
      ensures RemoveId(rows, BookingId, id) == rows[..i] + rows[i + 1..]
    {
      RemoveUniqueId(rows, BookingId, i);
    }
    if toDelete.None? {
      RemoveAbsentId(rows, BookingId, id);
    }
    RemoveIdKeepsIds(rows, BookingId, db.nextId, id);
    db.bookings := RemoveId(rows, BookingId, id);
    sms := None;
    if sendSms && toDelete.Some? {
      var b := toDelete.value;
      sms := Some(SendSms.SmsRequest(b.phone, SendSms.BookingCancelled, SendSms.SmsData(None, Some(b.date), Some(b.time), None)));
    }
  }

  /** With one non-cancelled booking per slot, deleting a non-cancelled
      booking frees its time on its day. */
  lemma DeleteFreesSlot(bs: seq<Booking>, i: nat)
    requires i < |bs| && OneActivePerSlot(bs) && UniqueIds(bs, BookingId) && Active(bs[i])
    ensures bs[i].time !in BookedTimes(RemoveId(bs, BookingId, bs[i].id), bs[i].date)
  {
    RemoveUniqueId(bs, BookingId, i);
    var r := bs[..i] + bs[i + 1..];
    BookedTimesIff(r, bs[i].date, bs[i].time);
    forall k | 0 <= k < |r| && r[k].date == bs[i].date && Active(r[k]) ensures r[k].time != bs[i].time {
      var k' := if k < i then k else k + 1;
      assert r[k] == bs[k'] && k' != i;
      if k' < i {
        assert bs[k'].date != bs[i].date || bs[k'].time != bs[i].time;
      } else {
        assert bs[i].date != bs[k'].date || bs[i].time != bs[k'].time;
      }
    }
  }
}
