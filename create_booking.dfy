/** The `create-booking` edge function: the customer's reservation. Its steps
    run in this order: required fields, code format, code lookup, consuming the
    code, the taken check, the closed check, the insert. */
module CreateBooking {
  import opened Wrappers
  import opened Text
  import opened Calendar
  import opened Store
  import opened ClosedSlots
  import opened SendSms
  import opened VerifyCode

  /** A request body; `date == None` is a missing or empty `booking_date`. */
  datatype BookingRequest = BookingRequest(phone: string, code: string, name: string, date: Option<Day>, time: string)

  datatype ReserveResult =
    | MissingFields
    | BadCode
    | LookupFailed
    | WrongCode
    | SlotTaken
    | SlotClosed
    | Booked(booking: Booking)

  /** The HTTP status: thrown errors answer 500, every other exit 200. */
  function ReserveStatus(r: ReserveResult): (s: nat)
    ensures s == 500 <==> r.MissingFields? || r.LookupFailed?
  {
    if r.MissingFields? || r.LookupFailed? then 500 else 200
  }

  predicate HasAllFields(req: BookingRequest) {
    req.phone != "" && req.code != "" && req.name != "" && req.date.Some? && req.time != ""
  }

  /** The slot is taken when a non-cancelled booking sits at (`d`, `t`). */
  predicate Taken(bs: seq<Booking>, d: Day, t: string) {
    ActiveAt(bs, d, t) != []
  }

  /** The closed rows the query `.eq("closed_date", d)
      .or("closed_time.eq.t,closed_time.is.null")` returns. */
  function ClosedMatches(rows: seq<ClosedSlot>, d: Day, t: string): (r: seq<ClosedSlot>)
    ensures forall i :: 0 <= i < |r| ==> r[i] in rows && r[i].date == d && (r[i].time == Some(t) || r[i].time == None)
  {
    if rows == [] then []
    else
      var hit := rows[0].date == d && (rows[0].time == Some(t) || rows[0].time == None);
      (if hit then [rows[0]] else []) + ClosedMatches(rows[1..], d, t)
  }

  /** The slot is closed for booking when such a row exists. */
  predicate ClosedFor(rows: seq<ClosedSlot>, d: Day, t: string) {
    ClosedMatches(rows, d, t) != []
  }

  // ---- The probes as written: `maybeSingle()` with its error ignored ----

  /** The taken check as the code reads it: `existingBooking` is non-null only
      when exactly one row matches, because two or more make `maybeSingle`
      return `data: null` with an error that is not looked at. */
  predicate TakenAsWritten(bs: seq<Booking>, d: Day, t: string)
    ensures TakenAsWritten(bs, d, t) <==> |ActiveAt(bs, d, t)| == 1
  {
    MaybeSingle(ActiveAt(bs, d, t)).OneRow?
  }

  /** The closed check as the code reads it. */
  predicate ClosedForAsWritten(rows: seq<ClosedSlot>, d: Day, t: string)
    ensures ClosedForAsWritten(rows, d, t) <==> |ClosedMatches(rows, d, t)| == 1
  {
    MaybeSingle(ClosedMatches(rows, d, t)).OneRow?
  }

  /** For every non-empty time, the intended closed check agrees with the
      overlay the booking screen shows (`isSlotClosed`). The written check
      (`ClosedForAsWritten`, below) never refuses a slot the screen shows open,
      and agrees with it whenever at most one closed row matches. */
  lemma {:induction false} ClosedForIsSlotClosed(rows: seq<ClosedSlot>, d: Day, t: string)
    requires t != ""
    ensures ClosedFor(rows, d, t) <==> IsSlotClosed(rows, d, Some(t))
    ensures ClosedForAsWritten(rows, d, t) ==> IsSlotClosed(rows, d, Some(t))
    ensures |ClosedMatches(rows, d, t)| <= 1 ==> (ClosedForAsWritten(rows, d, t) <==> IsSlotClosed(rows, d, Some(t)))
  {
    if rows != [] {
      ClosedForIsSlotClosed(rows[1..], d, t);
    }
  }

  /** The code step shared by both rules: the refusal it answers with, or
      nothing once the code verified (and was consumed). A bad format is
      answered with 200 instead of thrown, unlike `verify-code`. */
  function CodeGate(codes: seq<VerificationCode>, req: BookingRequest, now: Instant): (r: Option<ReserveResult>)
    ensures r.None? <==> HasAllFields(req) && VerifyOutcome(codes, req.phone, req.code, now).Verified?
    ensures !HasAllFields(req) ==> r == Some(MissingFields)
    ensures HasAllFields(req) ==>
      (r == Some(BadCode) <==> VerifyOutcome(codes, req.phone, req.code, now).BadFormat?) &&
      (r == Some(LookupFailed) <==> VerifyOutcome(codes, req.phone, req.code, now).DatabaseError?) &&
      (r == Some(WrongCode) <==> VerifyOutcome(codes, req.phone, req.code, now).NoMatch?)
    ensures r.Some? ==> r.value.MissingFields? || r.value.BadCode? || r.value.LookupFailed? || r.value.WrongCode?
  {
    if !HasAllFields(req) then Some(MissingFields)
    else
      match VerifyOutcome(codes, req.phone, req.code, now)
      case MissingInput => Some(MissingFields)
      case BadFormat => Some(BadCode)
      case DatabaseError => Some(LookupFailed)
      case NoMatch => Some(WrongCode)
      case Verified(_) => None
  }

  /** The steps after the code is consumed, given the answers of the taken and
      closed probes: taken first, then closed, then the booking to insert. */
  function SlotOutcome(taken: bool, closed: bool, req: BookingRequest, id: nat): (r: ReserveResult)
    requires HasAllFields(req)
    ensures r.SlotTaken? <==> taken
    ensures r.SlotClosed? <==> !taken && closed
    ensures r.Booked? <==> !taken && !closed
    ensures r.Booked? ==>
      r.booking == Booking(id, Trim(req.name), req.phone, req.date.value, req.time, "confirmed", false)
  {
    if taken then SlotTaken
    else if closed then SlotClosed
    else Booked(Booking(id, Trim(req.name), req.phone, req.date.value, req.time, "confirmed", false))
  }

  /** The slot steps as the code runs them. Each refusal is genuine (some
      matching row exists), but two or more matching rows are read as none. */
  function SlotStep(bs: seq<Booking>, closed: seq<ClosedSlot>, req: BookingRequest, id: nat): (r: ReserveResult)
    requires HasAllFields(req)
    ensures r.SlotTaken? || r.SlotClosed? || r.Booked?
    ensures r.SlotTaken? <==> |ActiveAt(bs, req.date.value, req.time)| == 1
    ensures r.SlotTaken? ==> Taken(bs, req.date.value, req.time)
    ensures r.SlotClosed? ==> ClosedFor(closed, req.date.value, req.time)
    ensures r.Booked? <==> |ActiveAt(bs, req.date.value, req.time)| != 1 && |ClosedMatches(closed, req.date.value, req.time)| != 1
    ensures r.Booked? ==>
      r.booking == Booking(id, Trim(req.name), req.phone, req.date.value, req.time, "confirmed", false)
  {
    SlotOutcome(TakenAsWritten(bs, req.date.value, req.time), ClosedForAsWritten(closed, req.date.value, req.time), req, id)
  }

  /** The slot steps as intended: refuse when any matching row exists. */
  function SlotStepIntended(bs: seq<Booking>, closed: seq<ClosedSlot>, req: BookingRequest, id: nat): (r: ReserveResult)
    requires HasAllFields(req)
    ensures r.SlotTaken? || r.SlotClosed? || r.Booked?
    ensures r.SlotTaken? <==> Taken(bs, req.date.value, req.time)
    ensures r.Booked? <==> !Taken(bs, req.date.value, req.time) && !ClosedFor(closed, req.date.value, req.time)
    ensures r.Booked? ==>
      r.booking == Booking(id, Trim(req.name), req.phone, req.date.value, req.time, "confirmed", false)
  {
    SlotOutcome(Taken(bs, req.date.value, req.time), ClosedFor(closed, req.date.value, req.time), req, id)
  }

  /** The decision as the code makes it. */
  function Decide(codes: seq<VerificationCode>, bs: seq<Booking>, closed: seq<ClosedSlot>,
                  req: BookingRequest, now: Instant, id: nat): (r: ReserveResult)
    ensures !HasAllFields(req) <==> r.MissingFields?
    ensures (r.SlotTaken? || r.SlotClosed? || r.Booked?) <==>
      HasAllFields(req) && VerifyOutcome(codes, req.phone, req.code, now).Verified?
    ensures r.Booked? ==>
      r.booking == Booking(id, Trim(req.name), req.phone, req.date.value, req.time, "confirmed", false)
    ensures r.Booked? ==> !TakenAsWritten(bs, req.date.value, req.time) && !ClosedForAsWritten(closed, req.date.value, req.time)
    ensures r.SlotTaken? ==> Taken(bs, req.date.value, req.time)
    ensures r.SlotClosed? ==> ClosedFor(closed, req.date.value, req.time)
    ensures HasAllFields(req) && VerifyOutcome(codes, req.phone, req.code, now).Verified? ==>
      (r.SlotTaken? <==> |ActiveAt(bs, req.date.value, req.time)| == 1) &&
      (r.Booked? <==> |ActiveAt(bs, req.date.value, req.time)| != 1 && |ClosedMatches(closed, req.date.value, req.time)| != 1)
  {
    match CodeGate(codes, req, now)
    case Some(refusal) => refusal
    case None => SlotStep(bs, closed, req, id)
  }

  /** The decision as intended: a booking is made only for a free, open slot. */
  function DecideIntended(codes: seq<VerificationCode>, bs: seq<Booking>, closed: seq<ClosedSlot>,
                          req: BookingRequest, now: Instant, id: nat): (r: ReserveResult)
    ensures !HasAllFields(req) <==> r.MissingFields?
    ensures (r.SlotTaken? || r.SlotClosed? || r.Booked?) <==>
      HasAllFields(req) && VerifyOutcome(codes, req.phone, req.code, now).Verified?
    ensures r.Booked? ==>
      r.booking == Booking(id, Trim(req.name), req.phone, req.date.value, req.time, "confirmed", false)
    ensures r.Booked? ==> !Taken(bs, req.date.value, req.time) && !ClosedFor(closed, req.date.value, req.time)
    ensures HasAllFields(req) && VerifyOutcome(codes, req.phone, req.code, now).Verified? ==>
      (r.SlotTaken? <==> Taken(bs, req.date.value, req.time)) &&
      (r.Booked? <==> !Taken(bs, req.date.value, req.time) && !ClosedFor(closed, req.date.value, req.time))
  {
    match CodeGate(codes, req, now)
    case Some(refusal) => refusal
    case None => SlotStepIntended(bs, closed, req, id)
  }

  /** The handler. The code is consumed as soon as it is found, so a request
      rejected as taken or closed still uses it up. The confirmation SMS is
      returned as a request for `send-sms`; its outcome is not an input, so it
      cannot change the result. */
  method HandleCreateBooking(db: Db, req: BookingRequest, now: Instant) returns (res: ReserveResult, sms: Option<SmsRequest>)
    requires db.Valid()
    modifies db
    ensures db.Valid()
    ensures res == Decide(old(db.codes), old(db.bookings), old(db.closed), req, now, old(db.nextId))
    ensures HasAllFields(req) && VerifyOutcome(old(db.codes), req.phone, req.code, now).Verified? ==>
      db.codes == MarkVerified(old(db.codes), VerifyOutcome(old(db.codes), req.phone, req.code, now).id)
    ensures !(HasAllFields(req) && VerifyOutcome(old(db.codes), req.phone, req.code, now).Verified?) ==>
      db.codes == old(db.codes)
    ensures res.Booked? ==> db.bookings == old(db.bookings) + [res.booking] && db.nextId == old(db.nextId) + 1
    ensures !res.Booked? ==> db.bookings == old(db.bookings) && db.nextId == old(db.nextId)
    ensures db.closed == old(db.closed)
    ensures sms.Some? <==> res.Booked?
    ensures res.Booked? ==> sms == Some(SmsRequest(ConfirmationPhone(req.phone), BookingConfirmation,
      SmsData(None, req.date, Some(req.time), Some(req.name))))
  {
    if !HasAllFields(req) {
      return MissingFields, None;
    }
    var outcome := HandleVerifyCode(db, req.phone, req.code, now);
    match outcome {
      case MissingInput => return MissingFields, None;
      case BadFormat => return BadCode, None;
      case DatabaseError => return LookupFailed, None;
      case NoMatch => return WrongCode, None;
      case Verified(_) =>
    }
    res, sms := ReserveSlot(db, req);
  }

  /** The taken probe, the closed probe and the insert, with the confirmation
      SMS asked for once the booking exists. Each probe reads only the `data`
      of `maybeSingle()`. */
  method ReserveSlot(db: Db, req: BookingRequest) returns (res: ReserveResult, sms: Option<SmsRequest>)
    requires db.Valid() && HasAllFields(req)
    modifies db
    ensures db.Valid()
    ensures res == SlotStep(old(db.bookings), old(db.closed), req, old(db.nextId))
    ensures res.Booked? ==> db.bookings == old(db.bookings) + [res.booking] && db.nextId == old(db.nextId) + 1
    ensures !res.Booked? ==> db.bookings == old(db.bookings) && db.nextId == old(db.nextId)
    ensures db.closed == old(db.closed) && db.codes == old(db.codes)
    ensures sms.Some? <==> res.Booked?
    ensures res.Booked? ==> sms == Some(SmsRequest(ConfirmationPhone(req.phone), BookingConfirmation,
      SmsData(None, req.date, Some(req.time), Some(req.name))))
  {
    var d := req.date.value;
    var existingBooking := MaybeSingle(ActiveAt(db.bookings, d, req.time));
    if existingBooking.OneRow? {
      return SlotTaken, None;
    }
    var closedSlot := MaybeSingle(ClosedMatches(db.closed, d, req.time));
    if closedSlot.OneRow? {
      return SlotClosed, None;
    }
    var booking := Booking(db.nextId, Trim(req.name), req.phone, d, req.time, "confirmed", false);
    AppendFreshId(db.bookings, BookingId, db.nextId, booking);
    db.bookings := db.bookings + [booking];
    db.nextId := db.nextId + 1;
    res := Booked(booking);
    sms := Some(SmsRequest(ConfirmationPhone(req.phone), BookingConfirmation,
      SmsData(None, req.date, Some(req.time), Some(req.name))));
  }

  /** While at most one non-cancelled booking sits on each slot, the taken
      check as written agrees with the intended one. */
  lemma {:induction false} TakenAsWrittenAgrees(bs: seq<Booking>, d: Day, t: string)
    requires OneActivePerSlot(bs)
    ensures TakenAsWritten(bs, d, t) == Taken(bs, d, t)
    ensures |ActiveAt(bs, d, t)| <= 1
  {
    if bs != [] {
      var tail := bs[1..];
      assert OneActivePerSlot(tail) by {
        forall i, j | 0 <= i < j < |tail| && Active(tail[i]) && Active(tail[j])
          ensures tail[i].date != tail[j].date || tail[i].time != tail[j].time
        {
          assert tail[i] == bs[i + 1] && tail[j] == bs[j + 1];
        }
      }
      TakenAsWrittenAgrees(tail, d, t);
      if bs[0].date == d && bs[0].time == t && Active(bs[0]) {
        forall j | 0 <= j < |tail| ensures !(tail[j].date == d && tail[j].time == t && Active(tail[j])) {
          assert tail[j] == bs[j + 1];
        }
        NoActiveAt(tail, d, t);
      }
    }
  }

  /** Appending a booking on a slot no non-cancelled booking holds keeps at
      most one non-cancelled booking per slot. */
  lemma AppendOnFreeSlot(bs: seq<Booking>, b: Booking)
    requires OneActivePerSlot(bs) && ActiveAt(bs, b.date, b.time) == []
    ensures OneActivePerSlot(bs + [b])
  {
    var r := bs + [b];
    forall i, j | 0 <= i < j < |r| && Active(r[i]) && Active(r[j])
      ensures r[i].date != r[j].date || r[i].time != r[j].time
    {
      if j == |bs| {
        assert r[i] == bs[i] && r[j] == b;
        assert bs[i] in bs;
      } else {
        assert r[i] == bs[i] && r[j] == bs[j];
      }
    }
  }

  /** A successful reservation keeps at most one non-cancelled booking per
      slot, under the code as written as well as under the intended rule: with
      at most one booking per slot, the written taken check sees it. */
  lemma ReserveKeepsOneActivePerSlot(codes: seq<VerificationCode>, bs: seq<Booking>, closed: seq<ClosedSlot>,
                                     req: BookingRequest, now: Instant, id: nat)
    requires OneActivePerSlot(bs)
    ensures Decide(codes, bs, closed, req, now, id).Booked? ==>
      OneActivePerSlot(bs + [Decide(codes, bs, closed, req, now, id).booking])
    ensures DecideIntended(codes, bs, closed, req, now, id).Booked? ==>
      OneActivePerSlot(bs + [DecideIntended(codes, bs, closed, req, now, id).booking])
  {
    if HasAllFields(req) {
      var d, t := req.date.value, req.time;
      TakenAsWrittenAgrees(bs, d, t);
      if !Taken(bs, d, t) {
        AppendOnFreeSlot(bs, Booking(id, Trim(req.name), req.phone, d, t, "confirmed", false));
      }
    }
  }

  /** The taken check runs first: a slot the taken probe sees is reported
      taken even when it is also closed. As written the probe sees the slot
      only when exactly one booking holds it, which the one-booking-per-slot
      invariant guarantees for every taken slot. */
  lemma TakenBeforeClosed(codes: seq<VerificationCode>, bs: seq<Booking>, closed: seq<ClosedSlot>,
                          req: BookingRequest, now: Instant, id: nat)
    requires HasAllFields(req) && VerifyOutcome(codes, req.phone, req.code, now).Verified?
    ensures TakenAsWritten(bs, req.date.value, req.time) ==> Decide(codes, bs, closed, req, now, id) == SlotTaken
    ensures OneActivePerSlot(bs) && Taken(bs, req.date.value, req.time) ==> Decide(codes, bs, closed, req, now, id) == SlotTaken
    ensures Taken(bs, req.date.value, req.time) ==> DecideIntended(codes, bs, closed, req, now, id) == SlotTaken
  {
    if OneActivePerSlot(bs) {
      TakenAsWrittenAgrees(bs, req.date.value, req.time);
    }
  }

  /** A code spent on a rejected slot cannot be reused: the retry with the same
      code, at the same time or later, is answered as a wrong code. */
  lemma RetryAfterRejectionFails(codes: seq<VerificationCode>, bs: seq<Booking>, closed: seq<ClosedSlot>,
                                 req: BookingRequest, now: Instant, later: Instant, id: nat, id2: nat)
    requires UniqueIds(codes, CodeId) && now <= later
    requires Decide(codes, bs, closed, req, now, id).SlotTaken? || Decide(codes, bs, closed, req, now, id).SlotClosed?
    ensures Decide(MarkVerified(codes, VerifyOutcome(codes, req.phone, req.code, now).id), bs, closed, req, later, id2) == WrongCode
  {
    VerifySingleUse(codes, req.phone, req.code, now, later);
  }

  /** Two or more non-cancelled bookings on one open slot (which the admin path
      and `updateBooking` can produce) make the written taken probe read
      "free", and the handler inserts one more non-cancelled booking there;
      the intended rule refuses it. */
  lemma TakenAsWrittenMissesDoubleBooking(codes: seq<VerificationCode>, bs: seq<Booking>, closed: seq<ClosedSlot>,
                                          req: BookingRequest, now: Instant, id: nat)
    requires HasAllFields(req) && VerifyOutcome(codes, req.phone, req.code, now).Verified?
    requires |ActiveAt(bs, req.date.value, req.time)| >= 2
    requires ClosedMatches(closed, req.date.value, req.time) == []
    ensures Decide(codes, bs, closed, req, now, id).Booked?
    ensures var b := Decide(codes, bs, closed, req, now, id).booking;
      b.date == req.date.value && b.time == req.time && Active(b)
    ensures DecideIntended(codes, bs, closed, req, now, id) == SlotTaken
  {
  }

  /** The input of the first finding: two confirmed bookings at 10:00, a
      third customer with a valid code asks for 10:00 and is booked. */
  lemma DoubleBookingExample()
    ensures var b1 := Booking(1, "Dana", "0501234567", 20000, "10:00", "confirmed", false);
            var b2 := Booking(2, "Noa", "0507654321", 20000, "10:00", "confirmed", false);
            var codes := [VerificationCode(5, "0521112222", "123456", 1000, false)];
            var req := BookingRequest("0521112222", "123456", "Lior", Some(20000), "10:00");
            Decide(codes, [b1, b2], [], req, 0, 3).Booked? && DecideIntended(codes, [b1, b2], [], req, 0, 3) == SlotTaken
  {
    var b1 := Booking(1, "Dana", "0501234567", 20000, "10:00", "confirmed", false);
    var b2 := Booking(2, "Noa", "0507654321", 20000, "10:00", "confirmed", false);
    var c := VerificationCode(5, "0521112222", "123456", 1000, false);
    var req := BookingRequest("0521112222", "123456", "Lior", Some(20000), "10:00");
    assert [b1, b2][1..] == [b2] && [b2][1..] == [];
    assert |ActiveAt([b1, b2], 20000, "10:00")| == 2;
    assert [c][1..] == [];
    assert CodeMatches([c], req.phone, req.code, 0) == [c];
    assert IsSixDigits("123456");
    assert VerifyOutcome([c], req.phone, req.code, 0).Verified?;
    TakenAsWrittenMissesDoubleBooking([c], [b1, b2], [], req, 0, 3);
  }

  /** A free slot whose day is closed and which also has a row of its own
      (the admin calendar's unlock button adds one) reads as open to the
      written closed probe, and the handler books it although the booking
      screen shows it closed; the intended rule refuses it. */
  lemma ClosedAsWrittenMissesClosedDay(codes: seq<VerificationCode>, bs: seq<Booking>, closed: seq<ClosedSlot>,
                                       req: BookingRequest, now: Instant, id: nat)
    requires HasAllFields(req) && VerifyOutcome(codes, req.phone, req.code, now).Verified?
    requires ActiveAt(bs, req.date.value, req.time) == []
    requires |ClosedMatches(closed, req.date.value, req.time)| >= 2
    ensures Decide(codes, bs, closed, req, now, id).Booked?
    ensures IsSlotClosed(closed, req.date.value, Some(req.time))
    ensures DecideIntended(codes, bs, closed, req, now, id) == SlotClosed
  {
    ClosedForIsSlotClosed(closed, req.date.value, req.time);
  }

  /** The input of the second finding: a closed day with a row for 10:00, no
      booking, and a customer with a valid code asks for 10:00 and is booked. */
  lemma ClosedDayExample()
    ensures var rows := [ClosedSlot(1, 20000, None), ClosedSlot(2, 20000, Some("10:00"))];
            var codes := [VerificationCode(5, "0521112222", "123456", 1000, false)];
            var req := BookingRequest("0521112222", "123456", "Lior", Some(20000), "10:00");
            Decide(codes, [], rows, req, 0, 3).Booked? && IsSlotClosed(rows, 20000, Some("10:00")) &&
            DecideIntended(codes, [], rows, req, 0, 3) == SlotClosed
  {
    var rows := [ClosedSlot(1, 20000, None), ClosedSlot(2, 20000, Some("10:00"))];
    var c := VerificationCode(5, "0521112222", "123456", 1000, false);
    var req := BookingRequest("0521112222", "123456", "Lior", Some(20000), "10:00");
    assert rows[1..] == [ClosedSlot(2, 20000, Some("10:00"))] && rows[1..][1..] == [];
    assert |ClosedMatches(rows, 20000, "10:00")| == 2;
    assert [c][1..] == [];
    assert CodeMatches([c], req.phone, req.code, 0) == [c];
    assert IsSixDigits("123456");
    assert VerifyOutcome([c], req.phone, req.code, 0).Verified?;
    ClosedAsWrittenMissesClosedDay([c], [], rows, req, 0, 3);
  }
}
