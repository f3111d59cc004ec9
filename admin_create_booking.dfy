/** The `admin-create-booking` edge function after its authorisation steps:
    the hand-written `validateInput`, and an insert with no conflict check. */
module AdminCreateBooking {
  import opened Wrappers
  import opened Text
  import opened Calendar
  import opened Constants
  import opened Store
  import opened Validations
  import SendSms

  datatype AdminError =
    | NameRequired | NameTooShort | NameTooLong | NameInvalid
    | PhoneRequired | PhoneInvalid
    | DateRequired | DateFormat | DateInvalid
    | TimeRequired | TimeInvalid

  /** `/^([01]\d|2[0-3]):[0-5]\d$/` */
  predicate TimePattern(s: string) {
    |s| == 5 && s[2] == ':' &&
    ((('0' <= s[0] <= '1') && IsDigit(s[1])) || (s[0] == '2' && '0' <= s[1] <= '3')) &&
    '0' <= s[3] <= '5' && IsDigit(s[4])
  }

  function NameError(name: string): (e: Option<AdminError>)
    ensures e.None? <==> NameMin <= |Trim(name)| <= NameMax && NamePattern(Trim(name))
  {
    var t := Trim(name);
    if t == "" then Some(NameRequired)
    else if |t| < NameMin then Some(NameTooShort)
    else if |t| > NameMax then Some(NameTooLong)
    else if !NamePattern(t) then Some(NameInvalid)
    else None
  }

  function PhoneError(phone: string): (e: Option<AdminError>)
    ensures e.None? <==> LocalMobile(Trim(phone))
  {
    var t := Trim(phone);
    if t == "" then Some(PhoneRequired)
    else if !LocalMobile(t) then Some(PhoneInvalid)
    else None
  }

  function DateError(date: string): (e: Option<AdminError>)
    ensures e.None? <==> EngineAcceptsDate(date)
  {
    if date == "" then Some(DateRequired)
    else if !DateShape(date) then Some(DateFormat)
    else if !EngineAcceptsDate(date) then Some(DateInvalid)
    else None
  }

  function TimeError(time: string): (e: Option<AdminError>)
    ensures e.None? <==> TimePattern(time)
  {
    if time == "" then Some(TimeRequired)
    else if !TimePattern(time) then Some(TimeInvalid)
    else None
  }

  /** `validateInput`: name, phone, date, time, in that order; the first
      failure is the answer. */
  function ValidateInput(name: string, phone: string, date: string, time: string): (e: Option<AdminError>)
    ensures e.None? <==> NameError(name).None? && PhoneError(phone).None? && DateError(date).None? && TimeError(time).None?
    ensures NameError(name).Some? ==> e == NameError(name)
    ensures NameError(name).None? && PhoneError(phone).Some? ==> e == PhoneError(phone)
    ensures NameError(name).None? && PhoneError(phone).None? && DateError(date).Some? ==> e == DateError(date)
    ensures NameError(name).None? && PhoneError(phone).None? && DateError(date).None? ==> e == TimeError(time)
  {
    if NameError(name).Some? then NameError(name)
    else if PhoneError(phone).Some? then PhoneError(phone)
    else if DateError(date).Some? then DateError(date)
    else TimeError(time)
  }

  /** The server's name and phone rules are the client schema's. */
  lemma RulesAgreeWithSchema(name: string, phone: string)
    ensures NameError(name).None? <==> NameIssues(name) == []
    ensures PhoneError(phone).None? <==> PhoneIssues(phone) == []
  {
  }

  /** The time rule is exactly the clock format 00:00..23:59 that `ParseClock`
      reads. */
  lemma TimeRuleIsClock(time: string)
    ensures TimeError(time).None? <==> ParseClock(time).Some?
  {
    if TimePattern(time) {
      assert DigitValue(time[0]) * 10 + DigitValue(time[1]) <= 23;
    }
  }

  /** The time need not lie on the slot grid: "10:20" is accepted. */
  lemma OffGridTimeAccepted()
    ensures TimeError("10:20").None? && !OnGrid("10:20")
  {
    TimeRuleIsClock("10:20");
    TimeSlotGrid();
    assert ParseClock("10:20") == Some(620);
    forall k | 0 <= k < |TimeSlots()| ensures TimeSlots()[k] != "10:20" {
      assert SlotStart(k) != 620;
    }
  }

  /** After validation the trimmed phone starts with "05", so the branch that
      rewrites a "+972" prefix for the SMS never runs. */
  lemma LocalPhoneBranchDead(name: string, phone: string, date: string, time: string)
    requires ValidateInput(name, phone, date, time).None?
    ensures !StartsWith(Trim(phone), "+972")
    ensures SendSms.ConfirmationPhone(Trim(phone)) == Trim(phone)
  {
  }

  datatype AdminResult =
    | Invalid(error: AdminError)
    | InsertFailed
    | Created(booking: Booking)

  /** HTTP status: 400 for a validation failure, 500 for a failed insert. */
  function AdminStatus(r: AdminResult): (s: nat)
    ensures s == 200 <==> r.Created?
    ensures s == 400 <==> r.Invalid?
  {
    match r
    case Invalid(_) => 400
    case InsertFailed => 500
    case Created(_) => 200
  }

  /** The decision: it reads neither the bookings nor the closed slots. A
      validated date the database cannot store (the 30th of February, say)
      fails in the insert. */
  function AdminDecide(name: string, phone: string, date: string, time: string, id: nat): (r: AdminResult)
    ensures r.Invalid? <==> ValidateInput(name, phone, date, time).Some?
    ensures r.Created? <==> ValidateInput(name, phone, date, time).None? && IsCalendarDate(date)
    ensures r.Created? ==> r.booking == Booking(id, Trim(name), Trim(phone), DateKey(date), time, "confirmed", false)
  {
    var e := ValidateInput(name, phone, date, time);
    if e.Some? then Invalid(e.value)
    else if !IsCalendarDate(date) then InsertFailed
    else Created(Booking(id, Trim(name), Trim(phone), DateKey(date), time, "confirmed", false))
  }

  /** The handler: validate, then insert whatever slot the request names. */
  method HandleAdminCreate(db: Db, name: string, phone: string, date: string, time: string)
    returns (res: AdminResult, sms: Option<SendSms.SmsRequest>)
    requires db.Valid()
    modifies db
    ensures db.Valid()
    ensures res == AdminDecide(name, phone, date, time, old(db.nextId))
    ensures res.Created? ==> db.bookings == old(db.bookings) + [res.booking] && db.nextId == old(db.nextId) + 1
    ensures !res.Created? ==> db.bookings == old(db.bookings) && db.nextId == old(db.nextId)
    ensures db.closed == old(db.closed) && db.codes == old(db.codes)
    ensures sms.Some? <==> res.Created?
    ensures res.Created? ==> sms == Some(SendSms.SmsRequest(SendSms.ConfirmationPhone(Trim(phone)), SendSms.BookingConfirmation,
      SendSms.SmsData(None, Some(res.booking.date), Some(time), Some(name))))
  {
    var e := ValidateInput(name, phone, date, time);
    if e.Some? {
      return Invalid(e.value), None;
    }
    if !IsCalendarDate(date) {
      return InsertFailed, None;
    }
    var booking := Booking(db.nextId, Trim(name), Trim(phone), DateKey(date), time, "confirmed", false);
    AppendFreshId(db.bookings, BookingId, db.nextId, booking);
    db.bookings := db.bookings + [booking];
    db.nextId := db.nextId + 1;
    res := Created(booking);
    sms := Some(SendSms.SmsRequest(SendSms.ConfirmationPhone(Trim(phone)), SendSms.BookingConfirmation,
      SendSms.SmsData(None, Some(booking.date), Some(time), Some(name))));
  }

  lemma SampleDate()
    ensures IsCalendarDate("2025-03-11") && DateKey("2025-03-11") == DaysFromCivil(2025, 3, 11)
  {
    var s := "2025-03-11";
    assert s[..4] == "2025" && s[5..7] == "03" && s[8..] == "11";
    assert DigitsValue("2025") == 2025 by {
      assert "2025"[..3] == "202" && "202"[..2] == "20" && "20"[..1] == "2" && "2"[..0] == "";
    }
    assert DigitsValue("03") == 3 by {
      assert "03"[..1] == "0" && "0"[..0] == "";
    }
    assert DigitsValue("11") == 11 by {
      assert "11"[..1] == "1" && "1"[..0] == "";
    }
  }

  lemma SampleName()
    ensures NameError("Noa").None? && Trim("Noa") == "Noa"
  {
    TrimOfTrimmed("Noa");
    assert NamePattern("Noa");
  }

  lemma SamplePhone()
    ensures PhoneError("0507654321").None? && Trim("0507654321") == "0507654321"
  {
    TrimOfTrimmed("0507654321");
    assert LocalMobile("0507654321");
  }

  lemma SampleInput()
    ensures ValidateInput("Noa", "0507654321", "2025-03-11", "10:00").None?
  {
    SampleName();
    SamplePhone();
    SampleDate();
    TimeRuleIsClock("10:00");
  }

  /** The admin path books a slot that is already taken: two confirmed
      bookings then sit at 10:00 on 2025-03-11. */
  lemma AdminCanDoubleBook()
    ensures var existing := Booking(1, "Dana", "0501234567", DaysFromCivil(2025, 3, 11), "10:00", "confirmed", false);
            var r := AdminDecide("Noa", "0507654321", "2025-03-11", "10:00", 2);
            OneActivePerSlot([existing]) && r.Created? && !OneActivePerSlot([existing, r.booking])
  {
    SampleDate();
    SampleName();
    SamplePhone();
    SampleInput();
    var r := AdminDecide("Noa", "0507654321", "2025-03-11", "10:00", 2);
    var existing := Booking(1, "Dana", "0501234567", DaysFromCivil(2025, 3, 11), "10:00", "confirmed", false);
    var bs := [existing, r.booking];
    assert r.booking.date == existing.date && r.booking.time == existing.time;
    assert Active(bs[0]) && Active(bs[1]) && bs[0].date == bs[1].date && bs[0].time == bs[1].time;
  }
}
