/** Day keys, clock readings and the `HH:MM` clock strings.

    A calendar date ("YYYY-MM-DD" in the database) is a `Day`: the number of
    days since 1970-01-01. A moment is an `Instant`: milliseconds since the epoch
    in the frame the comparing code runs in (the browser's local time for the
    booking screen, UTC for the edge functions). */
module Calendar {
  import opened Wrappers
  import opened Text

  type Day = int
  type Instant = int

  const MsPerMinute: int := 60000
  const MsPerHour: int := 3600000
  const MsPerDay: int := 86400000

  /** `Date.prototype.getDay()`: 0 = Sunday, ..., 6 = Saturday; 1970-01-01 was a Thursday. */
  function Weekday(d: Day): (w: nat)
    ensures w < 7
  {
    (d + 4) % 7
  }

  /** The calendar day an instant falls on (`toISOString().split("T")[0]` in UTC). */
  function DayOf(t: Instant): Day {
    t / MsPerDay
  }

  /** The instant at which minute `minutes` of day `d` starts (`setHours(h, m, 0, 0)`). */
  function StartOf(d: Day, minutes: nat): Instant {
    d * MsPerDay + minutes * MsPerMinute
  }

  function DigitValue(c: char): (n: nat)
    requires IsDigit(c)
    ensures n < 10 && DigitChar(n) == c
  {
    c as int - 48
  }

  /** Reads an `HH:MM` string (00:00 to 23:59) as minutes since midnight; `None`
      stands for the `NaN` a JavaScript `Date` holds for any other string. */
  function ParseClock(s: string): (r: Option<nat>)
    ensures r.Some? ==> r.value < 1440
  {
    if |s| == 5 && s[2] == ':' && IsDigit(s[0]) && IsDigit(s[1]) && IsDigit(s[3]) && IsDigit(s[4]) then
      var h := DigitValue(s[0]) * 10 + DigitValue(s[1]);
      var m := DigitValue(s[3]) * 10 + DigitValue(s[4]);
      if h <= 23 && m <= 59 then Some(h * 60 + m) else None
    else
      None
  }

  /** Two decimal digits: `n.toString().padStart(2, '0')` for n < 100. */
  function Pad2(n: nat): (s: string)
    requires n < 100
    ensures |s| == 2 && AllDigits(s)
  {
    [DigitChar(n / 10), DigitChar(n % 10)]
  }

  /** `padStart(2, '0')` */
  function PadStart2(s: string): string {
    if |s| >= 2 then s else seq(2 - |s|, _ => '0') + s
  }

  /** `Pad2` is what `toString().padStart(2, '0')` produces. */
  lemma Pad2IsPadStart(n: nat)
    requires n < 100
    ensures PadStart2(DecimalString(n)) == Pad2(n)
  {
    if n >= 10 {
      assert DecimalString(n) == DecimalString(n / 10) + [DigitChar(n % 10)];
      assert DecimalString(n / 10) == [DigitChar(n / 10)];
    }
  }

  /** The `HH:MM` label of a minute of the day. */
  function ClockLabel(m: nat): (s: string)
    requires m < 1440
    ensures |s| == 5
  {
    Pad2(m / 60) + ":" + Pad2(m % 60)
  }

  /** Reading a label back recovers the minute. */
  lemma ClockRoundTrip(m: nat)
    requires m < 1440
    ensures ParseClock(ClockLabel(m)) == Some(m)
  {
    var s := ClockLabel(m);
    assert s[0] == DigitChar(m / 60 / 10) && s[1] == DigitChar(m / 60 % 10);
    assert s[3] == DigitChar(m % 60 / 10) && s[4] == DigitChar(m % 60 % 10);
    assert DigitValue(s[0]) * 10 + DigitValue(s[1]) == m / 60;
    assert DigitValue(s[3]) * 10 + DigitValue(s[4]) == m % 60;
  }

  /** Every string `ParseClock` accepts is the label of the minute it reads. */
  lemma ClockLabelOfParse(s: string)
    requires ParseClock(s).Some?
    ensures ClockLabel(ParseClock(s).value) == s
  {
    var m := ParseClock(s).value;
    var h := DigitValue(s[0]) * 10 + DigitValue(s[1]);
    var mm := DigitValue(s[3]) * 10 + DigitValue(s[4]);
    assert m / 60 == h && m % 60 == mm;
    assert ClockLabel(m) == [s[0], s[1], ':', s[3], s[4]];
  }

  /** Days since 1970-01-01 of a proleptic Gregorian date; a day number past the
      end of its month counts on into the next month. */
  function DaysFromCivil(y: int, m: int, d: int): Day
    requires 1 <= m <= 12
  {
    var y1 := if m <= 2 then y - 1 else y;
    var era := y1 / 400;
    var yoe := y1 - era * 400;
    var doy := (153 * (if m > 2 then m - 3 else m + 9) + 2) / 5 + d - 1;
    var doe := yoe * 365 + yoe / 4 - yoe / 100 + doy;
    era * 146097 + doe - 719468
  }

  /** Anchors of the day numbering: the epoch, and 2025-03-10, a Monday. */
  lemma CalendarAnchors()
    ensures DaysFromCivil(1970, 1, 1) == 0 && Weekday(0) == 4
    ensures Weekday(DaysFromCivil(2025, 3, 10)) == 1
  {
  }

  // ---- "YYYY-MM-DD" date strings ----

  /** `/^\d{4}-\d{2}-\d{2}$/` */
  predicate DateShape(s: string) {
    |s| == 10 && s[4] == '-' && s[7] == '-' &&
    forall i :: 0 <= i < 10 && i != 4 && i != 7 ==> IsDigit(s[i])
  }

  /** The value of a string of decimal digits. */
  function DigitsValue(s: string): (n: nat)
    requires AllDigits(s)
  {
    if s == [] then 0 else DigitsValue(s[..|s| - 1]) * 10 + DigitValue(s[|s| - 1])
  }

  /** The year, month and day fields of a date-shaped string. */
  function YearOf(s: string): nat requires DateShape(s) { DigitsValue(s[..4]) }
  function MonthOf(s: string): nat requires DateShape(s) { DigitsValue(s[5..7]) }
  function DayOfMonthOf(s: string): nat requires DateShape(s) { DigitsValue(s[8..]) }

  /** What the JavaScript engine behind the edge functions (V8) accepts in
      `new Date(s + "T00:00:00")` for a date-shaped `s`: a month 01..12 and a
      day 01..31, whatever the month; a day past the month's end rolls over. */
  predicate EngineAcceptsDate(s: string) {
    DateShape(s) && 1 <= MonthOf(s) <= 12 && 1 <= DayOfMonthOf(s) <= 31
  }

  predicate LeapYear(y: int) {
    y % 4 == 0 && (y % 100 != 0 || y % 400 == 0)
  }

  function DaysInMonth(y: int, m: int): (n: nat)
    requires 1 <= m <= 12
    ensures 28 <= n <= 31
  {
    if m == 2 then (if LeapYear(y) then 29 else 28)
    else if m == 4 || m == 6 || m == 9 || m == 11 then 30
    else 31
  }

  /** A date the database's `date` type stores: year 1 or later, and a day
      that exists in its month. */
  predicate IsCalendarDate(s: string) {
    DateShape(s) && YearOf(s) >= 1 && 1 <= MonthOf(s) <= 12 &&
    1 <= DayOfMonthOf(s) <= DaysInMonth(YearOf(s), MonthOf(s))
  }

  /** The day a calendar date names. */
  function DateKey(s: string): Day
    requires IsCalendarDate(s)
  {
    DaysFromCivil(YearOf(s), MonthOf(s), DayOfMonthOf(s))
  }

  /** Every date the database stores passes the engine's check, but not the
      other way round: "2025-02-30" passes the engine and is no calendar date. */
  lemma EngineLooserThanCalendar()
    ensures forall s :: IsCalendarDate(s) ==> EngineAcceptsDate(s)
    ensures EngineAcceptsDate("2025-02-30") && !IsCalendarDate("2025-02-30")
  {
    var s := "2025-02-30";
    assert s[..4] == "2025" && s[5..7] == "02" && s[8..] == "30";
    assert DigitsValue("2025") == 2025 by {
      assert "2025"[..3] == "202" && "202"[..2] == "20" && "20"[..1] == "2" && "2"[..0] == "";
    }
    assert DigitsValue("02") == 2 by {
      assert "02"[..1] == "0" && "0"[..0] == "";
    }
    assert DigitsValue("30") == 30 by {
      assert "30"[..1] == "3" && "3"[..0] == "";
    }
  }
}
