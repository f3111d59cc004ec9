/** The shop's configuration (`BARBERSHOP_CONFIG`), the daily slot grid
    (`generateTimeSlots`) and the week of bookable dates (`getAvailableDates`). */
module Constants {
  import opened Wrappers
  import opened Text
  import opened Calendar

  const OpeningTime: nat := 10
  const ClosingTime: nat := 17
  /** Minutes per slot. */
  const SlotDuration: nat := 40
  /** Weekdays the shop is closed (1 = Monday). */
  const ClosedDays: seq<nat> := [1]
  /** Cancellation by SMS must come at least this many hours before the slot. */
  const MinCancelHours: nat := 3

  const OpeningMinutes: nat := OpeningTime * 60
  const ClosingMinutes: nat := ClosingTime * 60

  /** How many times the generator's loop runs: the ceiling of the opening span
      over the slot duration. */
  const SlotCount: nat := (ClosingMinutes - OpeningMinutes + SlotDuration - 1) / SlotDuration

  /** Minute of the day at which slot k starts. */
  function SlotStart(k: nat): nat {
    OpeningMinutes + k * SlotDuration
  }

  /** The grid in closed form: slot k is labelled with the clock time `SlotStart(k)`. */
  function TimeSlots(): seq<string> {
    seq(SlotCount, k requires 0 <= k < SlotCount => ClockLabel(SlotStart(k)))
  }

  /** `generateTimeSlots`: step a minute counter from opening time by the slot
      duration while it is before closing time, pushing each `HH:MM` label. */
  method GenerateTimeSlots() returns (slots: seq<string>)
    ensures slots == TimeSlots()
    ensures |slots| == 11
  {
    slots := [];
    var currentMinutes := OpeningTime * 60;
    var endMinutes := ClosingTime * 60;
    while currentMinutes < endMinutes
      invariant currentMinutes == SlotStart(|slots|)
      invariant |slots| <= SlotCount
      invariant forall k :: 0 <= k < |slots| ==> slots[k] == ClockLabel(SlotStart(k))
      decreases endMinutes - currentMinutes
    {
      var hours := currentMinutes / 60;
      var minutes := currentMinutes % 60;
      slots := slots + [Pad2(hours) + ":" + Pad2(minutes)];
      currentMinutes := currentMinutes + SlotDuration;
    }
  }

  /** The grid runs from "10:00" to "16:40" in 11 steps of 40 minutes, every slot
      starts inside opening hours, and each label reads back as its own minute. */
  lemma TimeSlotGrid()
    ensures |TimeSlots()| == 11
    ensures TimeSlots()[0] == "10:00" && TimeSlots()[10] == "16:40"
    ensures forall k :: 0 <= k < |TimeSlots()| ==>
      OpeningTime * 60 <= SlotStart(k) < ClosingTime * 60 &&
      ParseClock(TimeSlots()[k]) == Some(SlotStart(k))
    ensures forall k :: 0 < k < |TimeSlots()| ==> SlotStart(k) == SlotStart(k - 1) + SlotDuration
  {
    forall k | 0 <= k < |TimeSlots()|
      ensures ParseClock(TimeSlots()[k]) == Some(SlotStart(k))
    {
      ClockRoundTrip(SlotStart(k));
    }
    assert TimeSlots()[0] == ClockLabel(600);
    assert TimeSlots()[10] == ClockLabel(1000);
  }

  /** Slots are strictly increasing, hence pairwise distinct. */
  lemma TimeSlotsDistinct(i: nat, j: nat)
    requires i < j < |TimeSlots()|
    ensures SlotStart(i) < SlotStart(j)
    ensures TimeSlots()[i] != TimeSlots()[j]
  {
    TimeSlotGrid();
    assert ParseClock(TimeSlots()[i]) != ParseClock(TimeSlots()[j]);
  }

  /** A label lies on the grid exactly when it is the label of some slot. */
  predicate OnGrid(t: string) {
    t in TimeSlots()
  }

  lemma {:induction false} MondayOffset(today: Day, i: int)
    requires 0 <= i < 7
    ensures Weekday(today + i) == 1 <==> i == (8 - Weekday(today)) % 7
  {
    var w := Weekday(today);
    assert (today + 4) == 7 * ((today + 4) / 7) + w;
    assert today + i + 4 == 7 * ((today + 4) / 7) + (w + i);
    assert Weekday(today + i) == (w + i) % 7;
  }

  /** `getAvailableDates`: the next seven days from `today`, skipping closed
      weekdays. */
  method GetAvailableDates(today: Day) returns (dates: seq<Day>)
    ensures |dates| <= 7
    ensures forall i, j :: 0 <= i < j < |dates| ==> dates[i] < dates[j]
    ensures forall d :: d in dates <==> today <= d < today + 7 && Weekday(d) !in ClosedDays
    ensures |dates| == 6
  {
    dates := [];
    ghost var monday := (8 - Weekday(today)) % 7;
    for i := 0 to 7
      invariant forall k :: 0 <= k < |dates| ==> today <= dates[k] < today + i
      invariant forall k, l :: 0 <= k < l < |dates| ==> dates[k] < dates[l]
      invariant forall d :: d in dates <==> today <= d < today + i && Weekday(d) !in ClosedDays
      invariant |dates| == i - (if monday < i then 1 else 0)
    {
      var date := today + i;
      MondayOffset(today, i);
      if Weekday(date) !in ClosedDays {
        dates := dates + [date];
      }
    }
  }
}
