/** The `send-reminders` edge function: every confirmed booking of tomorrow
    without a reminder gets one, and its flag is set only after the SMS went
    out, so a rerun picks up exactly the ones that failed. */
module SendReminders {
  import opened Wrappers
  import opened Calendar
  import opened Store
  import SendSms

  /** The selection `.eq("booking_date", tomorrow).eq("status", "confirmed")
      .eq("reminder_sent", false)`. */
  predicate IsCandidate(b: Booking, tomorrow: Day) {
    b.date == tomorrow && b.status == "confirmed" && !b.reminderSent
  }

  function Candidates(bs: seq<Booking>, tomorrow: Day): (r: seq<Booking>)
    ensures |r| <= |bs|
    ensures forall j :: 0 <= j < |r| ==> r[j] in bs && IsCandidate(r[j], tomorrow)
  {
    if bs == [] then []
    else (if IsCandidate(bs[0], tomorrow) then [bs[0]] else []) + Candidates(bs[1..], tomorrow)
  }

  /** Every candidate is selected, so the selection is empty exactly when no
      booking is a candidate. */
  lemma {:induction false} CandidatesComplete(bs: seq<Booking>, tomorrow: Day)
    ensures forall k :: 0 <= k < |bs| && IsCandidate(bs[k], tomorrow) ==> bs[k] in Candidates(bs, tomorrow)
    ensures Candidates(bs, tomorrow) == [] <==> forall k :: 0 <= k < |bs| ==> !IsCandidate(bs[k], tomorrow)
  {
    if bs != [] {
      CandidatesComplete(bs[1..], tomorrow);
      forall k | 0 <= k < |bs| && IsCandidate(bs[k], tomorrow) ensures bs[k] in Candidates(bs, tomorrow) {
        if k > 0 {
          assert bs[k] == bs[1..][k - 1];
        }
      }
      if forall k :: 0 <= k < |bs| ==> !IsCandidate(bs[k], tomorrow) {
        forall k | 0 <= k < |bs[1..]| ensures !IsCandidate(bs[1..][k], tomorrow) {
          assert bs[1..][k] == bs[k + 1];
        }
      }
    }
  }

  /** The reminder asked of `send-sms` for one booking. */
  function ReminderFor(b: Booking): SendSms.SmsRequest {
    SendSms.SmsRequest(b.phone, SendSms.BookingReminder, SendSms.SmsData(None, Some(b.date), Some(b.time), Some(b.name)))
  }

  /** The reminders asked for, one per candidate, in order. */
  function Reminders(cs: seq<Booking>): (r: seq<SendSms.SmsRequest>)
    ensures |r| == |cs|
  {
    if cs == [] then [] else Reminders(cs[..|cs| - 1]) + [ReminderFor(cs[|cs| - 1])]
  }

  lemma {:induction false} RemindersPointwise(cs: seq<Booking>)
    ensures forall j :: 0 <= j < |cs| ==> Reminders(cs)[j] == ReminderFor(cs[j])
  {
    if cs != [] {
      var init := cs[..|cs| - 1];
      RemindersPointwise(init);
      forall j | 0 <= j < |cs| ensures Reminders(cs)[j] == ReminderFor(cs[j]) {
        if j < |init| {
          assert Reminders(cs)[j] == Reminders(init)[j];
          assert init[j] == cs[j];
        }
      }
    }
  }

  /** The reminder flag set on every row whose id is in `ids`, nothing else
      changed; with one id it is `.update({ reminder_sent: true }).eq("id", id)`. */
  function MarkIf(b: Booking, ids: set<nat>): Booking {
    if b.id in ids then b.(reminderSent := true) else b
  }

  function MarkAll(rows: seq<Booking>, ids: set<nat>): (r: seq<Booking>)
    ensures |r| == |rows|
    ensures forall k :: 0 <= k < |rows| ==> r[k] == MarkIf(rows[k], ids)
  {
    if rows == [] then [] else [MarkIf(rows[0], ids)] + MarkAll(rows[1..], ids)
  }

  /** The candidates, in order, whose SMS went out. */
  function SentCount(cs: seq<Booking>, smsOk: nat -> bool): (n: nat)
    ensures n <= |cs|
  {
    if cs == [] then 0
    else SentCount(cs[..|cs| - 1], smsOk) + (if smsOk(cs[|cs| - 1].id) then 1 else 0)
  }

  /** The ids whose flag the loop sets: the SMS went out and the update went through. */
  function Flagged(cs: seq<Booking>, smsOk: nat -> bool, flagOk: nat -> bool): set<nat> {
    if cs == [] then {}
    else
      var last := cs[|cs| - 1];
      Flagged(cs[..|cs| - 1], smsOk, flagOk) + (if smsOk(last.id) && flagOk(last.id) then {last.id} else {})
  }

  lemma {:induction false} FlaggedIff(cs: seq<Booking>, smsOk: nat -> bool, flagOk: nat -> bool, id: nat)
    ensures id in Flagged(cs, smsOk, flagOk) <==> smsOk(id) && flagOk(id) && exists j :: 0 <= j < |cs| && cs[j].id == id
  {
    if cs != [] {
      var init := cs[..|cs| - 1];
      FlaggedIff(init, smsOk, flagOk, id);
      if exists j :: 0 <= j < |init| && init[j].id == id {
        var j :| 0 <= j < |init| && init[j].id == id;
        assert cs[j] == init[j];
      }
      if exists j :: 0 <= j < |cs| && cs[j].id == id {
        var j :| 0 <= j < |cs| && cs[j].id == id;
        if j < |init| {
          assert init[j] == cs[j];
        }
      }
    }
  }

  /** The rows after a sweep: a candidate whose SMS went out and whose flag
      update went through is flagged; every other row is as it was. */
  function SweptRow(b: Booking, tomorrow: Day, smsOk: nat -> bool, flagOk: nat -> bool): Booking {
    if IsCandidate(b, tomorrow) && smsOk(b.id) && flagOk(b.id) then b.(reminderSent := true) else b
  }

  function Swept(bs: seq<Booking>, tomorrow: Day, smsOk: nat -> bool, flagOk: nat -> bool): (r: seq<Booking>)
    ensures |r| == |bs|
    ensures forall k :: 0 <= k < |bs| ==> r[k] == SweptRow(bs[k], tomorrow, smsOk, flagOk)
  {
    if bs == [] then [] else [SweptRow(bs[0], tomorrow, smsOk, flagOk)] + Swept(bs[1..], tomorrow, smsOk, flagOk)
  }

  lemma MarkFlaggedRow(bs: seq<Booking>, cs: seq<Booking>, tomorrow: Day, smsOk: nat -> bool, flagOk: nat -> bool, k: nat)
    requires UniqueIds(bs, BookingId) && k < |bs| && cs == Candidates(bs, tomorrow)
    requires forall m :: 0 <= m < |bs| && IsCandidate(bs[m], tomorrow) ==> bs[m] in cs
    ensures MarkIf(bs[k], Flagged(cs, smsOk, flagOk)) == SweptRow(bs[k], tomorrow, smsOk, flagOk)
  {
    var ids := Flagged(cs, smsOk, flagOk);
    FlaggedIff(cs, smsOk, flagOk, bs[k].id);
    if IsCandidate(bs[k], tomorrow) {
      var j :| 0 <= j < |cs| && cs[j] == bs[k];
      assert cs[j].id == bs[k].id;
    }
    if bs[k].id in ids {
      var j :| 0 <= j < |cs| && cs[j].id == bs[k].id;
      assert cs[j] in bs && IsCandidate(cs[j], tomorrow);
      var m :| 0 <= m < |bs| && bs[m] == cs[j];
      assert BookingId(bs[m]) == BookingId(bs[k]);
      assert m == k;
    }
  }

  /** With unique ids, flagging the loop's ids is the sweep. */
  lemma MarkFlaggedIsSweep(bs: seq<Booking>, tomorrow: Day, smsOk: nat -> bool, flagOk: nat -> bool)
    requires UniqueIds(bs, BookingId)
    ensures MarkAll(bs, Flagged(Candidates(bs, tomorrow), smsOk, flagOk)) == Swept(bs, tomorrow, smsOk, flagOk)
  {
    var cs := Candidates(bs, tomorrow);
    CandidatesComplete(bs, tomorrow);
    forall k | 0 <= k < |bs| ensures MarkIf(bs[k], Flagged(cs, smsOk, flagOk)) == SweptRow(bs[k], tomorrow, smsOk, flagOk) {
      MarkFlaggedRow(bs, cs, tomorrow, smsOk, flagOk, k);
    }
  }

  /** One more candidate processed. */
  lemma PrefixStep(cs: seq<Booking>, i: nat, smsOk: nat -> bool, flagOk: nat -> bool)
    requires i < |cs|
    ensures SentCount(cs[..i + 1], smsOk) == SentCount(cs[..i], smsOk) + (if smsOk(cs[i].id) then 1 else 0)
    ensures Flagged(cs[..i + 1], smsOk, flagOk) ==
      Flagged(cs[..i], smsOk, flagOk) + (if smsOk(cs[i].id) && flagOk(cs[i].id) then {cs[i].id} else {})
    ensures Reminders(cs[..i + 1]) == Reminders(cs[..i]) + [ReminderFor(cs[i])]
  {
    var p := cs[..i + 1];
    assert p[..i] == cs[..i] && p[i] == cs[i];
  }

  /** Flagging one more id on top of a set is flagging the larger set. */
  lemma MarkStep(rows: seq<Booking>, ids: set<nat>, id: nat)
    ensures MarkAll(MarkAll(rows, ids), {id}) == MarkAll(rows, ids + {id})
  {
    var a := MarkAll(MarkAll(rows, ids), {id});
    var b := MarkAll(rows, ids + {id});
    forall k | 0 <= k < |rows| ensures a[k] == b[k] {
    }
  }

  /** Flagging keeps every id where it was. */
  lemma MarkKeepsIds(rows: seq<Booking>, ids: set<nat>, next: nat)
    requires IdsOk(rows, BookingId, next)
    ensures IdsOk(MarkAll(rows, ids), BookingId, next)
  {
    var r := MarkAll(rows, ids);
    assert forall k :: 0 <= k < |rows| ==> BookingId(r[k]) == BookingId(rows[k]);
  }

  datatype ReminderResult =
    | FetchFailed
    | NothingToSend
    | Done(sent: nat, failed: nat, total: nat)

  /** HTTP status: 500 when the selection failed, 200 otherwise. */
  function ReminderStatus(r: ReminderResult): (s: nat)
    ensures s == 500 <==> r.FetchFailed?
    ensures s == 200 <==> !r.FetchFailed?
  {
    if r.FetchFailed? then 500 else 200
  }

  /** The `for` loop over the selection: ask for each reminder, count it as
      sent or failed, and flag the booking after a sent reminder whose update
      went through. */
  method RemindAll(db: Db, cands: seq<Booking>, smsOk: nat -> bool, flagOk: nat -> bool)
    returns (sent: nat, failed: nat, requests: seq<SendSms.SmsRequest>)
    requires db.Valid()
    modifies db
    ensures db.Valid()
    ensures sent == SentCount(cands, smsOk) && sent + failed == |cands|
    ensures requests == Reminders(cands)
    ensures db.bookings == MarkAll(old(db.bookings), Flagged(cands, smsOk, flagOk))
    ensures db.closed == old(db.closed) && db.codes == old(db.codes) && db.nextId == old(db.nextId)
  {
    var bs0 := db.bookings;
    sent, failed := 0, 0;
    requests := [];
    var i := 0;
    while i < |cands|
      invariant 0 <= i <= |cands|
      invariant sent == SentCount(cands[..i], smsOk) && sent + failed == i
      invariant requests == Reminders(cands[..i])
      invariant db.bookings == MarkAll(bs0, Flagged(cands[..i], smsOk, flagOk))
      invariant db.Valid()
      invariant db.closed == old(db.closed) && db.codes == old(db.codes) && db.nextId == old(db.nextId)
    {
      var b := cands[i];
      PrefixStep(cands, i, smsOk, flagOk);
      ghost var before := Flagged(cands[..i], smsOk, flagOk);
      ghost var after := Flagged(cands[..i + 1], smsOk, flagOk);
      requests := requests + [ReminderFor(b)];
      if !smsOk(b.id) {
        assert after == before;
        failed := failed + 1;
      } else {
        if flagOk(b.id) {
          assert after == before + {b.id};
          MarkStep(bs0, before, b.id);
          MarkKeepsIds(db.bookings, {b.id}, db.nextId);
          db.bookings := MarkAll(db.bookings, {b.id});
        } else {
          assert after == before;
        }
        sent := sent + 1;
      }
      i := i + 1;
    }
    assert cands[..i] == cands;
  }

  /** The sweep of one day's selection, once the select has succeeded. */
  method SweepDay(db: Db, tomorrow: Day, smsOk: nat -> bool, flagOk: nat -> bool)
    returns (res: ReminderResult, requests: seq<SendSms.SmsRequest>)
    requires db.Valid()
    modifies db
    ensures db.Valid()
    ensures Candidates(old(db.bookings), tomorrow) == [] ==>
      res == NothingToSend && requests == [] && db.bookings == old(db.bookings)
    ensures Candidates(old(db.bookings), tomorrow) != [] ==>
      var cs := Candidates(old(db.bookings), tomorrow);
      res == Done(SentCount(cs, smsOk), |cs| - SentCount(cs, smsOk), |cs|) &&
      requests == Reminders(cs) &&
      db.bookings == Swept(old(db.bookings), tomorrow, smsOk, flagOk)
    ensures db.closed == old(db.closed) && db.codes == old(db.codes) && db.nextId == old(db.nextId)
  {
    var bs0 := db.bookings;
    var cands := Candidates(bs0, tomorrow);
    if cands == [] {
      return NothingToSend, [];
    }
    MarkFlaggedIsSweep(bs0, tomorrow, smsOk, flagOk);
    var sent, failed;
    sent, failed, requests := RemindAll(db, cands, smsOk, flagOk);
    res := Done(sent, failed, |cands|);
  }

  /** The handler. Tomorrow is the day after the server's (UTC) today;
      `fetchOk` is the selection's outcome, `smsOk(id)` whether the reminder
      for booking `id` came back without error, and `flagOk(id)` whether
      setting its flag did. */
  method SendReminders(db: Db, now: Instant, fetchOk: bool, smsOk: nat -> bool, flagOk: nat -> bool)
    returns (res: ReminderResult, requests: seq<SendSms.SmsRequest>)
    requires db.Valid()
    modifies db
    ensures db.Valid()
    ensures !fetchOk ==> res == FetchFailed && requests == [] && db.bookings == old(db.bookings)
    ensures fetchOk && Candidates(old(db.bookings), DayOf(now) + 1) == [] ==>
      res == NothingToSend && requests == [] && db.bookings == old(db.bookings)
    ensures fetchOk && Candidates(old(db.bookings), DayOf(now) + 1) != [] ==>
      var cs := Candidates(old(db.bookings), DayOf(now) + 1);
      res == Done(SentCount(cs, smsOk), |cs| - SentCount(cs, smsOk), |cs|) &&
      requests == Reminders(cs) &&
      db.bookings == Swept(old(db.bookings), DayOf(now) + 1, smsOk, flagOk)
    ensures db.closed == old(db.closed) && db.codes == old(db.codes) && db.nextId == old(db.nextId)
  {
    if !fetchOk {
      return FetchFailed, [];
    }
    res, requests := SweepDay(db, DayOf(now) + 1, smsOk, flagOk);
  }

  /** After a sweep, the candidates left are exactly those whose SMS failed or
      whose flag update failed; every other booking is left as it was apart
      from its flag. */
  lemma SweepLeavesFailures(bs: seq<Booking>, tomorrow: Day, smsOk: nat -> bool, flagOk: nat -> bool, k: nat)
    requires k < |bs|
    ensures var r := Swept(bs, tomorrow, smsOk, flagOk)[k];
      (IsCandidate(r, tomorrow) <==> IsCandidate(bs[k], tomorrow) && !(smsOk(bs[k].id) && flagOk(bs[k].id))) &&
      r == bs[k].(reminderSent := r.reminderSent) &&
      (!IsCandidate(bs[k], tomorrow) ==> r == bs[k])
  {
  }

  /** A failed SMS keeps the booking a candidate; so does a failed flag update
      after a sent SMS, which is still counted as sent. */
  lemma FailuresAreRetried(bs: seq<Booking>, tomorrow: Day, smsOk: nat -> bool, flagOk: nat -> bool, k: nat)
    requires k < |bs| && IsCandidate(bs[k], tomorrow) && !(smsOk(bs[k].id) && flagOk(bs[k].id))
    ensures bs[k] in Candidates(Swept(bs, tomorrow, smsOk, flagOk), tomorrow)
  {
    var r := Swept(bs, tomorrow, smsOk, flagOk);
    assert r[k] == bs[k];
    CandidatesComplete(r, tomorrow);
  }

  /** After a run in which every SMS and every flag update succeeded, a rerun
      selects nothing. */
  lemma RerunSelectsNothing(bs: seq<Booking>, tomorrow: Day, smsOk: nat -> bool, flagOk: nat -> bool)
    requires forall k :: 0 <= k < |bs| && IsCandidate(bs[k], tomorrow) ==> smsOk(bs[k].id) && flagOk(bs[k].id)
    ensures Candidates(Swept(bs, tomorrow, smsOk, flagOk), tomorrow) == []
  {
    var r := Swept(bs, tomorrow, smsOk, flagOk);
    forall k | 0 <= k < |r| ensures !IsCandidate(r[k], tomorrow) {
      assert r[k] == SweptRow(bs[k], tomorrow, smsOk, flagOk);
    }
    CandidatesComplete(r, tomorrow);
  }
}
