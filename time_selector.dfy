/** The booking screen's time picker (`TimeSelector`): which grid slots are
    past, which are disabled, and the click guard. Clock values are
    milliseconds in the browser's local frame. */
module TimeSelector {
  import opened Wrappers
  import opened Text
  import opened Calendar
  import opened Constants
  import opened Store
  import opened ClosedSlots
  import opened Bookings
  import CreateBooking

  /** `isTimePast(time)`: only on today, a slot is past when its start (seconds
      and milliseconds zero) is strictly before now. A time the clock format
      does not read gives `NaN`, which is never before anything. */
  predicate IsTimePast(selected: Option<Day>, time: string, now: Instant) {
    selected.Some? && selected.value == DayOf(now) &&
    ParseClock(time).Some? && StartOf(DayOf(now), ParseClock(time).value) < now
  }

  /** With no selected date, or a selected date that is not today, no slot is past. */
  lemma NotTodayNothingPast(selected: Option<Day>, time: string, now: Instant)
    requires selected.None? || selected.value != DayOf(now)
    ensures !IsTimePast(selected, time, now)
  {
  }

  /** On today, grid slot k is past exactly when it started before now. */
  lemma TodayPastIff(k: nat, now: Instant)
    requires k < |TimeSlots()|
    ensures IsTimePast(Some(DayOf(now)), TimeSlots()[k], now) <==> StartOf(DayOf(now), SlotStart(k)) < now
  {
    TimeSlotGrid();
  }

  /** Past-ness is monotone along the grid: every slot before a past slot is past. */
  lemma PastMonotone(selected: Option<Day>, j: nat, k: nat, now: Instant)
    requires j <= k < |TimeSlots()|
    requires IsTimePast(selected, TimeSlots()[k], now)
    ensures IsTimePast(selected, TimeSlots()[j], now)
  {
    TimeSlotGrid();
    assert SlotStart(j) <= SlotStart(k);
  }

  /** The closed-slot callback, when given, is the overlay's `isSlotClosed` over
      these rows. */
  predicate IsClosedHere(selected: Option<Day>, closedRows: Option<seq<ClosedSlot>>, time: string) {
    selected.Some? && closedRows.Some? && IsSlotClosed(closedRows.value, selected.value, Some(time))
  }

  /** `isDisabled = isBooked || isPast || isClosed` */
  predicate IsDisabled(booked: seq<string>, selected: Option<Day>, closedRows: Option<seq<ClosedSlot>>,
                       time: string, now: Instant) {
    time in booked || IsTimePast(selected, time, now) || IsClosedHere(selected, closedRows, time)
  }

  /** `onClick={() => !isDisabled && onSelectTime(time)}`: the time handed to
      `onSelectTime`, if any. */
  function OnClick(booked: seq<string>, selected: Option<Day>, closedRows: Option<seq<ClosedSlot>>,
                   time: string, now: Instant): (r: Option<string>)
    ensures r.Some? ==> r.value == time
    ensures r.None? <==> IsDisabled(booked, selected, closedRows, time, now)
  {
    if IsDisabled(booked, selected, closedRows, time, now) then None else Some(time)
  }

  /** Fed with the day's booked times and the closed-slot rows, the screen
      lets a customer pick a grid slot only when the server's taken and closed
      checks would both let it through. */
  lemma SelectableMeansFree(bs: seq<Booking>, rows: seq<ClosedSlot>, d: Day, k: nat, now: Instant)
    requires k < |TimeSlots()|
    requires OnClick(BookedTimes(bs, d), Some(d), Some(rows), TimeSlots()[k], now).Some?
    ensures !CreateBooking.Taken(bs, d, TimeSlots()[k])
    ensures !CreateBooking.ClosedFor(rows, d, TimeSlots()[k])
    ensures !CreateBooking.TakenAsWritten(bs, d, TimeSlots()[k]) && !CreateBooking.ClosedForAsWritten(rows, d, TimeSlots()[k])
  {
    var t := TimeSlots()[k];
    assert |t| == 5;
    BookedTimesIff(bs, d, t);
    CreateBooking.ClosedForIsSlotClosed(rows, d, t);
    forall i | 0 <= i < |bs| ensures !(bs[i].date == d && bs[i].time == t && Active(bs[i])) {
    }
    NoActiveAt(bs, d, t);
  }
}
