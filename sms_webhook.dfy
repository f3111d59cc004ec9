/** The `sms-webhook` edge function: a customer answers "0" to an SMS and
    their nearest upcoming booking is deleted, unless it starts in less than
    three hours. */
module SmsWebhook {
  import opened Wrappers
  import opened Text
  import opened Calendar
  import opened Constants
  import opened Store

  /** The `payload` object of an `sms:received` event. */
  datatype Inbound = Inbound(phoneNumber: Option<string>, message: Option<string>)

  /** The request body: JSON (the gateway's event, or a flat object), or a
      form. Each field is absent or a string. */
  datatype WebhookRequest =
    | Json(event: Option<string>, payload: Option<Inbound>,
           from: Option<string>, phone: Option<string>, phoneNumber: Option<string>,
           body: Option<string>, message: Option<string>)
    | Form(from: Option<string>, phone: Option<string>, body: Option<string>, message: Option<string>)

  /** `a || b` for a field that may be absent or empty. */
  function OrElse(a: Option<string>, b: string): (r: string)
    ensures Truthy(a) ==> r == a.value
    ensures !Truthy(a) ==> r == b
  {
    if Truthy(a) then a.value else b
  }

  /** The sender and the trimmed body the handler goes on with. */
  function Sender(req: WebhookRequest): string {
    match req
    case Json(event, payload, from, phone, phoneNumber, _, _) =>
      if event == Some("sms:received") && payload.Some? then OrElse(payload.value.phoneNumber, "")
      else OrElse(from, OrElse(phone, OrElse(phoneNumber, "")))
    case Form(from, phone, _, _) => OrElse(from, OrElse(phone, ""))
  }

  function Body(req: WebhookRequest): string {
    var raw := match req
      case Json(event, payload, _, _, _, body, message) =>
        if event == Some("sms:received") && payload.Some? then OrElse(payload.value.message, "")
        else OrElse(body, OrElse(message, ""))
      case Form(_, _, body, message) => OrElse(body, OrElse(message, ""));
    Trim(raw)
  }

  /** The gateway's event takes its own fields and nothing else; the other
      shapes fall back through `from`, `phone`, `phoneNumber` (not in a form)
      and `body`, `message`. */
  lemma ExtractionOrder(req: WebhookRequest)
    ensures req.Json? && req.event == Some("sms:received") && req.payload.Some? ==>
      Sender(req) == OrElse(req.payload.value.phoneNumber, "") && Body(req) == Trim(OrElse(req.payload.value.message, ""))
    ensures req.Json? && !(req.event == Some("sms:received") && req.payload.Some?) ==>
      Sender(req) == OrElse(req.from, OrElse(req.phone, OrElse(req.phoneNumber, ""))) &&
      Body(req) == Trim(OrElse(req.body, OrElse(req.message, "")))
    ensures req.Form? ==> (Sender(req) == OrElse(req.from, OrElse(req.phone, "")) &&
                           Body(req) == Trim(OrElse(req.body, OrElse(req.message, ""))))
  {
  }

  /** "+972X" and "972X" become "0X"; anything else is kept. */
  function ToLocalPhone(from: string): (r: string)
    ensures StartsWith(from, "+972") ==> r == "0" + from[4..]
    ensures !StartsWith(from, "+972") && StartsWith(from, "972") ==> r == "0" + from[3..]
    ensures !StartsWith(from, "+972") && !StartsWith(from, "972") ==> r == from
  {
    if StartsWith(from, "+972") then "0" + from[4..]
    else if StartsWith(from, "972") then "0" + from[3..]
    else from
  }

  /** The reply helper's number: a "+972" number as it is, otherwise "+972"
      in place of the first character. */
  function InternationalForm(phone: string): (r: string)
    ensures StartsWith(r, "+972")
  {
    if StartsWith(phone, "+972") then phone
    else if phone == "" then "+972"
    else "+972" + phone[1..]
  }

  /** A local number "0…" survives the trip to the international form and
      back, and a "+972…" number survives the trip the other way. */
  lemma PhoneRoundTrip(phone: string)
    ensures |phone| >= 1 && phone[0] == '0' ==> ToLocalPhone(InternationalForm(phone)) == phone
    ensures StartsWith(phone, "+972") ==> InternationalForm(ToLocalPhone(phone)) == "+972" + phone[4..]
  {
    if |phone| >= 1 && phone[0] == '0' {
      var i := InternationalForm(phone);
      assert i == "+972" + phone[1..];
      assert i[..4] == "+972" && i[4..] == phone[1..];
      assert "0" + phone[1..] == phone;
    }
    if StartsWith(phone, "+972") {
      var l := ToLocalPhone(phone);
      assert l == "0" + phone[4..];
      assert l[1..] == phone[4..];
      assert !StartsWith(l, "+972") by {
        assert l[0] == '0';
      }
    }
  }

  /** The rows the query keeps: this phone, from today on, not cancelled. */
  predicate IsUpcoming(b: Booking, phone: string, today: Day) {
    b.phone == phone && b.date >= today && Active(b)
  }

  /** The query's order: by date, then by time. */
  predicate KeyLe(a: Booking, b: Booking) {
    a.date < b.date || (a.date == b.date && StrLe(a.time, b.time))
  }

  /** `.order("booking_date").order("booking_time").limit(1)`: the least
      upcoming booking; among equal keys, the first in table order. */
  function Earliest(bs: seq<Booking>, phone: string, today: Day): (r: Option<Booking>)
    ensures r.Some? ==> r.value in bs && IsUpcoming(r.value, phone, today)
  {
    if bs == [] then None
    else
      var rest := Earliest(bs[1..], phone, today);
      if !IsUpcoming(bs[0], phone, today) then rest
      else if rest.None? || KeyLe(bs[0], rest.value) then Some(bs[0])
      else rest
  }

  /** The chosen booking is at or before every other upcoming booking of the
      phone, and there is none to choose exactly when no booking is upcoming. */
  lemma {:induction false} EarliestIsLeast(bs: seq<Booking>, phone: string, today: Day)
    ensures Earliest(bs, phone, today).None? <==> forall i :: 0 <= i < |bs| ==> !IsUpcoming(bs[i], phone, today)
    ensures Earliest(bs, phone, today).Some? ==>
      forall i :: 0 <= i < |bs| && IsUpcoming(bs[i], phone, today) ==> KeyLe(Earliest(bs, phone, today).value, bs[i])
  {
    if bs != [] {
      var tail := bs[1..];
      EarliestIsLeast(tail, phone, today);
      var rest := Earliest(tail, phone, today);
      var r := Earliest(bs, phone, today);
      forall i | 0 <= i < |bs| && i > 0 ensures bs[i] == tail[i - 1] {
      }
      if r.Some? {
        forall i | 0 <= i < |bs| && IsUpcoming(bs[i], phone, today) ensures KeyLe(r.value, bs[i]) {
          StrLeReflexive(bs[i].time);
          if i > 0 && rest.Some? {
            assert KeyLe(rest.value, bs[i]);
            if r.value != rest.value {
              KeyLeTransitive(r.value, rest.value, bs[i]);
            }
          } else if i == 0 && r.value != bs[0] {
            KeyLeTotal(bs[0], rest.value);
          }
        }
      }
      if forall i :: 0 <= i < |bs| ==> !IsUpcoming(bs[i], phone, today) {
        assert forall i :: 0 <= i < |tail| ==> !IsUpcoming(tail[i], phone, today) by {
          forall i | 0 <= i < |tail| ensures !IsUpcoming(tail[i], phone, today) {
            assert tail[i] == bs[i + 1];
          }
        }
      }
    }
  }

  lemma KeyLeTotal(a: Booking, b: Booking)
    ensures KeyLe(a, b) || KeyLe(b, a)
  {
    StrLeTotal(a.time, b.time);
  }

  lemma KeyLeTransitive(a: Booking, b: Booking, c: Booking)
    requires KeyLe(a, b) && KeyLe(b, c)
    ensures KeyLe(a, c)
  {
    if a.date == b.date && b.date == c.date {
      StrLeTransitive(a.time, b.time, c.time);
    }
  }

  /** `hoursUntilBooking < 3`, with the booking's start read as
      `date + "T" + time + ":00"`. A time that does not read as a clock gives
      `NaN`, which is not below 3, so such a booking is never too late. */
  predicate TooLateToCancel(b: Booking, now: Instant) {
    ParseClock(b.time).Some? && StartOf(b.date, ParseClock(b.time).value) - now < MinCancelHours * MsPerHour
  }

  /** A booking that has already started is always too late. */
  lemma StartedIsTooLate(b: Booking, now: Instant)
    requires ParseClock(b.time).Some? && StartOf(b.date, ParseClock(b.time).value) <= now
    ensures TooLateToCancel(b, now)
  {
  }

  datatype WebhookResult =
    | MissingInput
    | NotCancellation
    | LookupFailed
    | NoBooking
    | TooLate(booking: Booking)
    | DeleteFailed(booking: Booking)
    | Cancelled(booking: Booking)

  /** What the handler decides. `fetchOk` and `deleteOk` are the outcomes of
      the select and of the delete. */
  function WebhookDecide(req: WebhookRequest, bs: seq<Booking>, now: Instant, fetchOk: bool, deleteOk: bool): WebhookResult
  {
    var from := Sender(req);
    var body := Body(req);
    if from == "" || body == "" then MissingInput
    else if body != "0" then NotCancellation
    else if !fetchOk then LookupFailed
    else
      var found := Earliest(bs, ToLocalPhone(from), DayOf(now));
      if found.None? then NoBooking
      else if TooLateToCancel(found.value, now) then TooLate(found.value)
      else if !deleteOk then DeleteFailed(found.value)
      else Cancelled(found.value)
  }

  /** The response: `success` is set for "not a cancellation", "no booking"
      and a cancellation, and the status is 200 on every exit, the thrown
      errors included. */
  datatype Response = Response(status: nat, success: bool)

  function WebhookResponse(r: WebhookResult): (resp: Response)
    ensures resp.status == 200
    ensures resp.success <==> r.NotCancellation? || r.NoBooking? || r.Cancelled?
  {
    match r
    case MissingInput => Response(200, false)
    case NotCancellation => Response(200, true)
    case LookupFailed => Response(200, false)
    case NoBooking => Response(200, true)
    case TooLate(_) => Response(200, false)
    case DeleteFailed(_) => Response(200, false)
    case Cancelled(_) => Response(200, true)
  }

  /** The decision's cases: the missing sender or body, anything but "0", and
      the lookup and delete outcomes; the booking it names is always the
      phone's earliest upcoming one, and it is cancelled exactly when the
      three-hour gate lets it through. */
  lemma WebhookOutcome(req: WebhookRequest, bs: seq<Booking>, now: Instant, fetchOk: bool, deleteOk: bool)
    ensures (Sender(req) == "" || Body(req) == "") <==> WebhookDecide(req, bs, now, fetchOk, deleteOk) == MissingInput
    ensures WebhookDecide(req, bs, now, fetchOk, deleteOk).Cancelled? || WebhookDecide(req, bs, now, fetchOk, deleteOk).TooLate? || WebhookDecide(req, bs, now, fetchOk, deleteOk).DeleteFailed? ==>
      Body(req) == "0" && Sender(req) != "" &&
      Earliest(bs, ToLocalPhone(Sender(req)), DayOf(now)) == Some(WebhookDecide(req, bs, now, fetchOk, deleteOk).booking)
    ensures WebhookDecide(req, bs, now, fetchOk, deleteOk).Cancelled? <==> (Sender(req) != "" && Body(req) == "0" && fetchOk && deleteOk &&
                               Earliest(bs, ToLocalPhone(Sender(req)), DayOf(now)).Some? &&
                               !TooLateToCancel(Earliest(bs, ToLocalPhone(Sender(req)), DayOf(now)).value, now))
    ensures WebhookDecide(req, bs, now, fetchOk, deleteOk).TooLate? ==> fetchOk && TooLateToCancel(WebhookDecide(req, bs, now, fetchOk, deleteOk).booking, now)
  {
    var from, body := Sender(req), Body(req);
    var r := WebhookDecide(req, bs, now, fetchOk, deleteOk);
    if from == "" || body == "" {
      assert r == MissingInput;
    } else if body != "0" {
      assert r == NotCancellation;
    } else if !fetchOk {
      assert r == LookupFailed;
    } else {
      var found := Earliest(bs, ToLocalPhone(from), DayOf(now));
      if found.None? {
        assert r == NoBooking;
      } else if TooLateToCancel(found.value, now) {
        assert r == TooLate(found.value);
      } else if !deleteOk {
        assert r == DeleteFailed(found.value);
      } else {
        assert r == Cancelled(found.value);
      }
    }
  }

  /** The replies; their Hebrew wording is not modelled. */
  datatype ReplyKind = NoBookingReply | TooLateReply(date: Day, time: string) | DeleteErrorReply | CancelledReply(date: Day, time: string)
  datatype Reply = Reply(to: string, kind: ReplyKind)

  /** The reply the handler sends, if the gateway credentials are set. */
  function ReplyFor(r: WebhookResult, localPhone: string, gatewayConfigured: bool): (m: Option<Reply>)
    ensures m.Some? <==> gatewayConfigured && !(r.MissingInput? || r.NotCancellation? || r.LookupFailed?)
    ensures m.Some? ==> m.value.to == InternationalForm(localPhone)
    ensures m.Some? && r.NoBooking? ==> m.value.kind == NoBookingReply
    ensures m.Some? && r.TooLate? ==> m.value.kind == TooLateReply(r.booking.date, r.booking.time)
    ensures m.Some? && r.DeleteFailed? ==> m.value.kind == DeleteErrorReply
    ensures m.Some? && r.Cancelled? ==> m.value.kind == CancelledReply(r.booking.date, r.booking.time)
  {
    if !gatewayConfigured then None
    else match r
      case NoBooking => Some(Reply(InternationalForm(localPhone), NoBookingReply))
      case TooLate(b) => Some(Reply(InternationalForm(localPhone), TooLateReply(b.date, b.time)))
      case DeleteFailed(_) => Some(Reply(InternationalForm(localPhone), DeleteErrorReply))
      case Cancelled(b) => Some(Reply(InternationalForm(localPhone), CancelledReply(b.date, b.time)))
      case _ => None
  }

  /** `.delete().eq("id", id)` on the bookings table. */
  method DeleteById(db: Db, id: nat)
    requires db.Valid()
    modifies db
    ensures db.Valid()
    ensures db.bookings == RemoveId(old(db.bookings), BookingId, id)
    ensures db.closed == old(db.closed) && db.codes == old(db.codes) && db.nextId == old(db.nextId)
  {
    RemoveIdKeepsIds(db.bookings, BookingId, db.nextId, id);
    db.bookings := RemoveId(db.bookings, BookingId, id);
  }

  /** The handler: only a successful cancellation changes the store, and it
      removes exactly the chosen booking. */
  method HandleSmsWebhook(db: Db, req: WebhookRequest, now: Instant, fetchOk: bool, deleteOk: bool, gatewayConfigured: bool)
    returns (res: WebhookResult, reply: Option<Reply>)
    requires db.Valid()
    modifies db
    ensures db.Valid()
    ensures res == WebhookDecide(req, old(db.bookings), now, fetchOk, deleteOk)
    ensures reply == ReplyFor(res, ToLocalPhone(Sender(req)), gatewayConfigured)
    ensures res.Cancelled? ==> db.bookings == RemoveId(old(db.bookings), BookingId, res.booking.id)
    ensures !res.Cancelled? ==> db.bookings == old(db.bookings)
    ensures db.closed == old(db.closed) && db.codes == old(db.codes) && db.nextId == old(db.nextId)
  {
    var rows := db.bookings;
    res := WebhookDecide(req, rows, now, fetchOk, deleteOk);
    reply := ReplyFor(res, ToLocalPhone(Sender(req)), gatewayConfigured);
    if res.Cancelled? {
      DeleteById(db, res.booking.id);
    }
  }

  /** A cancellation removes that one booking: it is gone, and every other
      booking is still there, in order. */
  lemma CancelRemovesOnlyIt(bs: seq<Booking>, b: Booking)
    requires UniqueIds(bs, BookingId) && b in bs
    ensures exists i :: 0 <= i < |bs| && bs[i] == b && RemoveId(bs, BookingId, b.id) == bs[..i] + bs[i + 1..]
    ensures b !in RemoveId(bs, BookingId, b.id)
    ensures forall x :: x in bs && x.id != b.id ==> x in RemoveId(bs, BookingId, b.id)
  {
    var i :| 0 <= i < |bs| && bs[i] == b;
    RemoveUniqueId(bs, BookingId, i);
    RemoveIdSound(bs, BookingId, b.id);
  }

  /** The gateway's event carrying "0" from a non-empty sender. */
  lemma GatewayZeroReply(from: string)
    requires from != ""
    ensures var req := Json(Some("sms:received"), Some(Inbound(Some(from), Some("0"))), None, None, None, None, None);
      Sender(req) == from && Body(req) == "0"
  {
    TrimOfTrimmed("0");
  }

  /** A "0" from a sender, with the select and the delete succeeding: the
      phone's earliest upcoming booking is cancelled, or kept as too late. */
  lemma ZeroReplyOutcome(req: WebhookRequest, bs: seq<Booking>, now: Instant)
    requires Sender(req) != "" && Body(req) == "0"
    requires Earliest(bs, ToLocalPhone(Sender(req)), DayOf(now)).Some?
    ensures var r := WebhookDecide(req, bs, now, true, true);
      (r.Cancelled? || r.TooLate?) && r.booking == Earliest(bs, ToLocalPhone(Sender(req)), DayOf(now)).value
  {
  }

  /** A customer who booked under a local number "0…" and answers "0" from the
      same number in international form reaches an upcoming booking of theirs. */
  lemma ReplyFindsOwnBooking(bs: seq<Booking>, i: nat, now: Instant, payload: Inbound)
    requires i < |bs| && |bs[i].phone| >= 1 && bs[i].phone[0] == '0'
    requires IsUpcoming(bs[i], bs[i].phone, DayOf(now))
    requires payload == Inbound(Some(InternationalForm(bs[i].phone)), Some("0"))
    ensures var r := WebhookDecide(Json(Some("sms:received"), Some(payload), None, None, None, None, None), bs, now, true, true);
      r.Cancelled? || r.TooLate?
    ensures var r := WebhookDecide(Json(Some("sms:received"), Some(payload), None, None, None, None, None), bs, now, true, true);
      r.booking.phone == bs[i].phone && KeyLe(r.booking, bs[i])
  {
    var from := InternationalForm(bs[i].phone);
    var req := Json(Some("sms:received"), Some(payload), None, None, None, None, None);
    GatewayZeroReply(from);
    PhoneRoundTrip(bs[i].phone);
    assert ToLocalPhone(Sender(req)) == bs[i].phone;
    EarliestIsLeast(bs, bs[i].phone, DayOf(now));
    ZeroReplyOutcome(req, bs, now);
  }

}
