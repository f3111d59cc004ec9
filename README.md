# Slot-booking core of a one-chair barbershop

This project models the booking core of a barbershop web app in Dafny. The app is a React front end with serverless edge functions over a hosted database.

- **Customers:** pick a day and a 40-minute slot, prove their phone number with a six-digit SMS code, and book. They can cancel by answering "0" to an SMS.
- **The administrator:** closes and opens single slots or whole days, books on a customer's behalf, and edits or deletes bookings.
- **A scheduled job:** sends next-day reminders.

The hosted database becomes one in-memory store, the class `Store.Db`. It holds three tables (bookings, closed slots, verification codes) and an id counter. `Db.Valid()` says every row has a unique id below the counter. Every handler is a method that `modifies` the store. It keeps `Valid()`, and its `ensures` give the new tables as pure functions of the old ones. Those functions carry the lemmas.

Modules, in the order of the app:

- `Constants`: the shop's configuration, the time-slot grid and the week of bookable days.
- `Calendar`, `Text`: day keys and weekdays, the "HH:MM" clock, trimming, the database's string order, decimal strings.
- `Validations`: the client-side schemas for names, phones, codes and the admin login.
- `Store`: the tables, the `maybeSingle` lookup rule, deletion by id, the non-cancelled bookings at a slot, code matching and consumption.
- `ClosedSlots`: the closed-slot overlay and its insert and delete.
- `Bookings`: the booked times of a day, plus the admin's update and delete.
- `TimeSelector`: the booking screen's past, disabled and click rules.
- `AdminCalendar`: the admin grid's booking lookup and its slot and day toggles.
- `SendSms`: code issue and the message dispatch gates.
- `VerifyCode`: code consumption.
- `CreateBooking`: the customer reservation.
- `AdminCreateBooking`: the admin reservation.
- `SmsWebhook`: cancellation by SMS reply.
- `SendReminders`: the reminder sweep.

Representations:
- A day is an integer count of days since 1970-01-01, with `Weekday(d) = (d + 4) % 7` (0 is Sunday).
- An instant is an integer number of milliseconds.
- The server functions read the clock in UTC. The browser's clock is a local frame of the same kind.

Outside calls are parameters of the handlers:
- the rate limiter;
- the phone normaliser and validator;
- the test-account predicate and test code;
- `Math.random`;
- the SMS gateway's configuration and answer;
- the per-booking outcome of the reminder SMS and of the flag update;
- the success of the webhook's select and delete.

An SMS that a handler asks `send-sms` to send is returned as a value (`SendSms.SmsRequest`), not sent.

Three behaviours of the code are kept as written:
- **The slot grid.** The loop in `generateTimeSlots` checks only a slot's start against closing time. It yields 11 slots, 10:00 to 16:40, and the last one runs to 17:20.
- **The admin path's times.** Its server check accepts any "HH:MM" time, including times off the grid (`AdminCreateBooking.OffGridTimeAccepted`).
- **The customer path's slot probes.** The taken and closed checks read only the `data` of `maybeSingle()`, which is null when two or more rows match. `CreateBooking.Decide`, `SlotStep`, `ReserveSlot` and `HandleCreateBooking` follow the code: they refuse a slot only when exactly one row matches. `CreateBooking.DecideIntended` and `SlotStepIntended` state the corrected rule (refuse when any row matches). Both rules are related by lemmas, and the two gaps are under "## Findings".

The customer path looks codes up under the phone as the request gives it. `send-sms` stores them under the normalised phone. The model keeps that difference: a reservation finds a code only when the two spellings agree.

## Model

| member | source | states |
|---|---|---|
| Constants.GenerateTimeSlots | src/lib/constants.ts:52-67 | the `while` loop returns exactly the grid `TimeSlots()`, which has 11 entries |
| Constants.TimeSlots | src/lib/constants.ts:13-15 | the grid in closed form: slot k is the clock label of opening time plus 40·k minutes; pinned by `TimeSlotGrid` |
| Constants.TimeSlotGrid | src/lib/constants.ts:13-15 | the grid has 11 slots, "10:00" first and "16:40" last; each slot starts at or after opening and before closing, and 40 minutes after the previous one; each label reads back (hours·60+minutes) as its loop value |
| Constants.TimeSlotsDistinct | src/lib/constants.ts:59-63 | slot starts strictly increase along the grid, so the labels are pairwise distinct |
| Constants.MondayOffset | src/lib/constants.ts:80-88 | among the seven days from today, exactly one offset falls on a Monday, and it is (8 − weekday(today)) mod 7 |
| Constants.GetAvailableDates | src/lib/constants.ts:75-91 | the `for` loop returns at most 7 strictly increasing days; a day is in the result iff it is within the seven days from today and its weekday is not closed; with Monday closed, exactly 6 days |
| Calendar.Weekday | src/lib/constants.ts:17-18 | the weekday is one of 0..6 |
| Calendar.CalendarAnchors | src/lib/constants.ts:17-18 | day key 0 is 1970-01-01, a Thursday (4), and 2025-03-10 is a Monday (1), matching `getDay`'s numbering |
| Calendar.ParseClock | src/components/booking/TimeSelector.tsx:36 | a clock string that reads as "HH:MM" gives minutes below 24·60 |
| Calendar.Pad2IsPadStart | src/lib/constants.ts:62 | `padStart(2, '0')` of the decimal form of a number below 100 is its two-digit form |
| Calendar.ClockRoundTrip | src/lib/constants.ts:60-62 | formatting a minute value with `Math.floor(m/60)`, `m % 60` and zero padding, then reading it back as hours·60+minutes, gives the same value |
| Calendar.ClockLabelOfParse | src/components/booking/TimeSelector.tsx:36 | every string the clock reading accepts is the label of the minute it reads: parsing loses nothing |
| Calendar.DaysInMonth | supabase/functions/admin-create-booking/index.ts:68-71 | a month has 28 to 31 days, with February's length decided by the leap-year rule |
| Calendar.EngineLooserThanCalendar | supabase/functions/admin-create-booking/index.ts:64-71 | every real calendar date passes the date checks, but so does "2025-02-30": the `Date` range check lets impossible days through |
| Text.TrimStart | src/lib/validations.ts:7 | the result is a suffix of the input that starts with a non-space, and everything dropped is whitespace |
| Text.TrimEnd | src/lib/validations.ts:7 | the result is a prefix of the input that ends with a non-space, and everything dropped is whitespace |
| Text.Trim | src/lib/validations.ts:7 | `String.prototype.trim` is never longer than its input; characterised by `TrimStart`, `TrimEnd`, `TrimIdempotent` and `TrimOfTrimmed` |
| Text.TrimIdempotent | src/lib/validations.ts:7 | trimming twice is trimming once, and a trimmed string begins and ends with a non-space |
| Text.TrimOfTrimmed | supabase/functions/sms-webhook/index.ts:46 | a string without surrounding whitespace is its own trim |
| Text.StrLeReflexive | supabase/functions/sms-webhook/index.ts:99 | the order of `booking_time` values is reflexive |
| Text.StrLeTotal | supabase/functions/sms-webhook/index.ts:99 | that order is total |
| Text.StrLeTransitive | supabase/functions/sms-webhook/index.ts:99 | that order is transitive |
| Text.DecimalLength | supabase/functions/send-sms/index.ts:106 | a number from 10^k to 10^(k+1)−1 has k+1 decimal digits |
| Text.SixDigitDecimal | supabase/functions/send-sms/index.ts:106 | every value in 100000..999999 prints as exactly six digits |
| Validations.NameIssues | src/lib/validations.ts:5-10 | no issue iff the trimmed name has 2..100 characters, all of them letters, whitespace, hyphens or apostrophes |
| Validations.PhoneIssues | src/lib/validations.ts:11-14 | no issue iff the trimmed phone is "05" followed by 8 digits; an accepted phone is then 10 characters long |
| Validations.CodeIssues | src/lib/validations.ts:31-36 | no issue iff the code is six digits; a code of the wrong length fails both the length and the pattern rule |
| Validations.LoginIssues | src/lib/validations.ts:18-28 | no issue iff the trimmed email is an email of at most 255 characters and the untrimmed password has 6..128 characters |
| Validations.TrimInvariant | src/lib/validations.ts:7-14 | the name and phone rules give the same answer for a string and for its trim |
| Validations.PasswordNotTrimmed | src/lib/validations.ts:18-28 | with any acceptable e-mail address, the password "abcde " (five characters and a space) passes: the password is not trimmed |
| Store.MaybeSingle | supabase/functions/verify-code/index.ts:47 | `maybeSingle` gives no row iff the query returned none, the row iff it returned exactly one, and otherwise an error with no row |
| Store.RemoveId | src/hooks/useClosedSlots.ts:74 | deleting by id never lengthens the table |
| Store.RemoveIdSound | src/hooks/useClosedSlots.ts:74 | after deleting by id, a row remains iff it was there and has another id |
| Store.RemoveAbsentId | src/hooks/useClosedSlots.ts:74 | deleting an id no row has leaves the table as it was |
| Store.RemoveUniqueId | src/hooks/useClosedSlots.ts:74 | with unique ids, deleting row i's id removes exactly row i and keeps the rest in order |
| Store.ActiveAt | supabase/functions/create-booking/index.ts:88-94 | the rows the taken query returns are exactly the non-cancelled bookings at that date and time |
| Store.NoActiveAt | supabase/functions/create-booking/index.ts:88-94 | when no booking is non-cancelled at (date, time), the taken query returns nothing |
| Store.RemoveKeepsOneActivePerSlot | src/hooks/useBookings.ts:158 | deleting a row keeps "at most one non-cancelled booking per (date, time)" |
| Store.CodeMatches | supabase/functions/verify-code/index.ts:40-47 | the lookup returns exactly the codes with this phone and code, not verified, and expiring strictly after now |
| Store.NoCodeMatches | supabase/functions/verify-code/index.ts:40-47 | with no usable code, the lookup returns nothing |
| Store.MarkVerified | supabase/functions/verify-code/index.ts:69-72 | marking an id verified sets the flag on the rows with that id and leaves every other row as it was |
| Store.SingleUse | supabase/functions/verify-code/index.ts:45 | once the single match is marked verified, the same phone and code match nothing, now or later |
| ClosedSlots.HasRowIff | src/hooks/useClosedSlots.ts:82-91 | a (date, time) row exists iff some index holds it |
| ClosedSlots.IsSlotClosed | src/hooks/useClosedSlots.ts:78-95 | the day row first, then, for a truthy time, the exact (date, time) row; characterised by `SlotClosedIff` and `DayDominates` |
| ClosedSlots.DayDominates | src/hooks/useClosedSlots.ts:82-85 | a day row for d closes every time on d, with or without a time argument |
| ClosedSlots.SlotClosedIff | src/hooks/useClosedSlots.ts:78-95 | with no time, or an empty (falsy) time, the answer is "a day row exists for d"; with a time and no day row, it is "a row for exactly (d, time) exists" |
| ClosedSlots.RowsOn | src/hooks/useClosedSlots.ts:82-91 | the rows for one date are all of that date and all from the table |
| ClosedSlots.HasRowOn | src/hooks/useClosedSlots.ts:82-91 | a row for (d, t) is found among d's rows iff it is found in the table |
| ClosedSlots.OtherDatesIrrelevant | src/hooks/useClosedSlots.ts:82-91 | rows of other dates never change whether (d, t) is closed |
| ClosedSlots.HasRowAppend | src/hooks/useClosedSlots.ts:63-67 | after appending a row, a (date, time) row exists iff one existed before or the new row is it |
| ClosedSlots.CloseThenClosed | src/hooks/useClosedSlots.ts:58-70 | after closing (d, t), the slot is closed, except that a row with an empty time closes nothing new |
| ClosedSlots.CloseSlot | src/hooks/useClosedSlots.ts:58-70 | `closeSlot` appends one row with a fresh id and no duplicate check; existing rows and the other tables are unchanged |
| ClosedSlots.OpenSlot | src/hooks/useClosedSlots.ts:73-76 | `openSlot(id)` removes exactly the row with that id, keeps the others in order, and leaves the table as it was when no row has the id |
| Bookings.BookedTimesIff | src/hooks/useBookings.ts:180-185 | t is a booked time of d iff some non-cancelled booking has date d and time t; there are no more booked times than bookings on d |
| Bookings.BookedTimes | src/hooks/useBookings.ts:180-185 | the day's booked times are no more than the bookings; characterised by `BookedTimesIff` |
| Bookings.BookedTimesConcat | src/hooks/useBookings.ts:182-184 | the filter keeps the list order: the booked times of a concatenation are those of its parts in turn |
| Bookings.UpdateRows | src/hooks/useBookings.ts:124-129 | the update patches exactly the rows with the id and leaves every other row as it was |
| Bookings.ApplyPatch | src/hooks/useBookings.ts:124-129 | the per-row merge of `.update(updates)` keeps the id and the reminder flag, and a date or time the patch leaves out; characterised by `UpdateChangesOnlyPatchedFields` |
| Bookings.FindById | src/hooks/useBookings.ts:122 | `find` returns a row of the list with the id, and nothing iff no row has the id |
| Bookings.UpdateChangesOnlyPatchedFields | src/hooks/useBookings.ts:124-129 | an update keeps the id and the reminder flag, keeps every field the patch leaves out, sets the patched date and time, and leaves other rows alone |
| Bookings.UpdateCanDoubleBook | src/hooks/useBookings.ts:110-129 | moving a booking onto another's time breaks "one non-cancelled booking per slot": the update does not check the new slot |
| Bookings.UpdateNotice | src/hooks/useBookings.ts:134-145 | the update SMS goes to the phone the booking had before, with the patched date and time when present (truthy), else the booking's own |
| Bookings.UpdateBooking | src/hooks/useBookings.ts:110-152 | an unknown id fails with no change and no SMS; otherwise the row is patched, the result is the patched booking, and an SMS is asked for iff `sendSms` |
| Bookings.DeleteBooking | src/hooks/useBookings.ts:154-178 | the row with the id is removed and the others are kept in order; the cancellation SMS is asked for iff `sendSms` and the id was in the list, with that booking's phone, date and time |
| Bookings.DeleteFreesSlot | src/hooks/useBookings.ts:156-159 | with one non-cancelled booking per slot, deleting a non-cancelled booking removes its time from the day's booked times |
| TimeSelector.NotTodayNothingPast | src/components/booking/TimeSelector.tsx:23-33 | with no selected date, or one that is not today, no slot is past |
| TimeSelector.IsTimePast | src/components/booking/TimeSelector.tsx:23-43 | only on today, a slot is past when its start is before now; a time that does not read as a clock is never past; characterised by `NotTodayNothingPast`, `TodayPastIff` and `PastMonotone` |
| TimeSelector.IsDisabled | src/components/booking/TimeSelector.tsx:49-55 | a slot is disabled iff it is booked, past or closed (when a closed-slot callback is given); used by `OnClick` |
| TimeSelector.TodayPastIff | src/components/booking/TimeSelector.tsx:36-40 | on today, a grid slot is past iff its start, with seconds and milliseconds at zero, is strictly before now |
| TimeSelector.PastMonotone | src/components/booking/TimeSelector.tsx:36-40 | if a grid slot is past, every earlier slot of the grid is past |
| TimeSelector.OnClick | src/components/booking/TimeSelector.tsx:48-60 | a click passes on its own time, and passes nothing iff the slot is booked, past, or closed (closed only when a date and the callback are both given) |
| TimeSelector.SelectableMeansFree | src/components/booking/TimeSelector.tsx:49-60 | a slot the screen lets a customer pick, fed the day's booked times and the closed rows, passes the server's taken and closed checks, both as written and as intended |
| AdminCalendar.BookingAtTime | src/components/admin/AdminCalendar.tsx:36-44 | the result is a non-cancelled booking at (d, t) from the list, none iff there is no such booking, and the head of the list when it matches |
| AdminCalendar.BookingAtTimeIsFirst | src/components/admin/AdminCalendar.tsx:38-43 | the booking found is the first match: no earlier booking is non-cancelled at (d, t) |
| AdminCalendar.BookingAtTimeIffBooked | src/components/admin/AdminCalendar.tsx:36-44 | a cell shows a booking iff its time is among the day's booked times |
| AdminCalendar.ActiveBookings | src/components/admin/AdminCalendar.tsx:287-288 | the list under the grid holds only non-cancelled bookings of the table |
| AdminCalendar.ActiveBookingsComplete | src/components/admin/AdminCalendar.tsx:321 | every non-cancelled booking is listed, and the list is empty ("no bookings") iff all are cancelled |
| AdminCalendar.FindRow | src/components/admin/AdminCalendar.tsx:61-63 | `find` returns the index of the first row for (d, t), and nothing iff there is none |
| AdminCalendar.FindRowHasRow | src/components/admin/AdminCalendar.tsx:61-63 | `find` succeeds iff a row for (d, t) exists |
| AdminCalendar.Toggled | src/components/admin/AdminCalendar.tsx:57-92 | one toggle deletes exactly one row when a matching row exists, otherwise appends the row (d, t) with the next id; characterised by `ToggleFlips`, `ToggleOnlyThatPair`, `ToggleTwiceRestores` and `ToggleTwiceRenews` |
| AdminCalendar.Toggle | src/components/admin/AdminCalendar.tsx:61-72 | a toggle reopens iff a matching row exists, removing the first one; otherwise it closes by appending one row with a fresh id |
| AdminCalendar.ToggleSlot | src/components/admin/AdminCalendar.tsx:57-72 | `handleToggleSlot` removes the first (d, time) row if one exists, else appends one; bookings and codes are unchanged |
| AdminCalendar.ToggleDay | src/components/admin/AdminCalendar.tsx:78-92 | `handleToggleDay` removes the first (d, no time) row if one exists, else appends one; bookings and codes are unchanged |
| AdminCalendar.DayRows | src/components/admin/AdminCalendar.tsx:82-84 | every day-level row has no time |
| AdminCalendar.DayRowsAreRows | src/components/admin/AdminCalendar.tsx:82-84 | every day-level row is a row of the table |
| AdminCalendar.ToggleSlotKeepsDayRows | src/components/admin/AdminCalendar.tsx:61-70 | a slot toggle never adds or removes a day-level row |
| AdminCalendar.ToggleOnlyThatPair | src/components/admin/AdminCalendar.tsx:57-92 | a toggle of (d, t) leaves every other (date, time) pair open or closed as it was |
| AdminCalendar.ToggleFlips | src/components/admin/AdminCalendar.tsx:57-92 | a toggle with no matching row closes the pair; one with exactly one matching row opens it |
| AdminCalendar.ToggleTwiceRestores | src/components/admin/AdminCalendar.tsx:57-72 | toggling a pair with no row twice gives back the same rows |
| AdminCalendar.ToggleTwiceRenews | src/components/admin/AdminCalendar.tsx:57-72 | toggling a pair with one row twice gives the other rows in order plus one new row for the pair at the end |
| AdminCalendar.UnlockOnClosedDayAddsRow | src/components/admin/AdminCalendar.tsx:255-262 | on a locked day, the unlock button of a slot with no row of its own adds a row, and the slot stays closed |
| SendSms.ConfirmationPhone | supabase/functions/create-booking/index.ts:153-155 | a "+972…" number becomes "0" and the rest; any other number is passed on unchanged |
| SendSms.Status | supabase/functions/send-sms/index.ts:83-90 | the answer is 200 iff the test account was skipped or the SMS was sent, and 429 iff rate-limited |
| SendSms.ChooseCode | supabase/functions/send-sms/index.ts:103-106 | the code is the test code for a test account when one is configured, else the caller's truthy `data.code`, else the random value in decimal |
| SendSms.RandomCodeSixDigits | supabase/functions/send-sms/index.ts:106 | the random code is six digits |
| SendSms.CodesOf | supabase/functions/send-sms/index.ts:111-114 | the codes of a phone all have that phone, and there are no more of them than codes in the table |
| SendSms.CodesOfAreCodes | supabase/functions/send-sms/index.ts:111-114 | every code of a phone is a code of the table |
| SendSms.DeletePhone | supabase/functions/send-sms/index.ts:111-114 | deleting a phone's codes leaves only codes of other phones, from the table |
| SendSms.CodesOfDeletePhone | supabase/functions/send-sms/index.ts:111-114 | after the delete, the phone has no codes and every other phone keeps its codes |
| SendSms.IssueCode | supabase/functions/send-sms/index.ts:111-126 | delete-then-insert ends with the new code, and no earlier code has its phone; characterised by `IssueCodeEffect` and `IssueKeepsOneCodePerPhone` |
| SendSms.IssueCodeEffect | supabase/functions/send-sms/index.ts:111-126 | after issue, the phone holds exactly the new code and every other phone keeps its codes |
| SendSms.IssueKeepsOneCodePerPhone | supabase/functions/send-sms/index.ts:111-126 | issue keeps "at most one code per phone" |
| SendSms.NewCode | supabase/functions/send-sms/index.ts:118-125 | the new code is under the normalised phone, not verified, and expires 30 days after now for a test account and 5 minutes after now otherwise |
| SendSms.Outcome | supabase/functions/send-sms/index.ts:61-199 | the gates in order: an empty phone, an invalid phone, the rate limit, an unknown type; the test account is skipped iff a verification request for it passes the gates; past the gates, a request is sent iff the gateway is configured and answers ok, "not configured" iff it is not configured, and "failed" iff it is configured and does not answer ok |
| SendSms.TestAccountSkipsGateway | supabase/functions/send-sms/index.ts:129-135 | a test account's verification succeeds whatever the gateway's configuration and answer |
| SendSms.HandleSendSms | supabase/functions/send-sms/index.ts:56-213 | the handler's result is `Outcome`; the codes change only on a verification request that passes the gates, and then by issue alone; bookings and closed slots are unchanged |
| VerifyCode.VerifyStatus | supabase/functions/verify-code/index.ts:54-92 | the answer is 200 iff the code was verified or nothing matched; a missing input, a malformed code and a database error answer 500 |
| VerifyCode.VerifyOutcome | supabase/functions/verify-code/index.ts:28-66 | a missing phone or code is reported first, then a non-six-digit code; "no match" only when the lookup is empty; "verified" names a usable code of the table |
| VerifyCode.HandleVerifyCode | supabase/functions/verify-code/index.ts:26-82 | the result is `VerifyOutcome`; on success the matched code is marked verified, otherwise the codes are unchanged; the other tables are never touched |
| VerifyCode.MarkVerifiedOnlyThatRow | supabase/functions/verify-code/index.ts:69-72 | with unique ids, marking row i's id changes row i's flag and nothing else |
| VerifyCode.MatchesWithinPhone | supabase/functions/verify-code/index.ts:40-44 | a lookup never returns more codes than the phone holds |
| VerifyCode.VerifySucceedsIff | supabase/functions/verify-code/index.ts:28-72 | with at most one code per phone, a well-formed request is verified iff a usable code matches; otherwise it is "no match", one answer for a wrong and an expired code |
| VerifyCode.VerifySingleUse | supabase/functions/verify-code/index.ts:45-72 | after a successful verification, the same phone and code answer "no match", now or later |
| VerifyCode.MarkVerifiedKeepsCodesOf | supabase/functions/verify-code/index.ts:68-71 | marking a code verified leaves every phone with as many codes as before |
| VerifyCode.MarkVerifiedKeepsOneCodePerPhone | supabase/functions/verify-code/index.ts:68-71 | a verification keeps "at most one code per phone", so `VerifySucceedsIff` applies again after it |
| VerifyCode.IssueThenVerify | supabase/functions/send-sms/index.ts:111-126 | right after issue, and before expiry, the phone's new code verifies as the issued row |
| CreateBooking.ReserveStatus | supabase/functions/create-booking/index.ts:34-36 | the answer is 500 iff a field is missing or the lookup failed; every other exit answers 200 |
| CreateBooking.ClosedMatches | supabase/functions/create-booking/index.ts:110-115 | the closed query returns rows of the table for the date whose time is the request's or null |
| CreateBooking.ClosedForIsSlotClosed | supabase/functions/create-booking/index.ts:110-117 | for a non-empty time, the intended closed check agrees with the screen's `isSlotClosed`; the written check never refuses a slot the screen shows open, and agrees with the screen whenever at most one closed row matches |
| CreateBooking.TakenAsWritten | supabase/functions/create-booking/index.ts:87-96 | the written taken probe sees the slot iff exactly one non-cancelled booking holds it |
| CreateBooking.ClosedForAsWritten | supabase/functions/create-booking/index.ts:109-117 | the written closed probe sees the slot iff exactly one closed row matches the date with the time or null |
| CreateBooking.CodeGate | supabase/functions/create-booking/index.ts:38-85 | a missing field answers "missing fields"; otherwise a bad format, a lookup error and no match answer "bad code", "lookup failed" and "wrong code" as `verify-code` decides; nothing is answered iff the code verified |
| CreateBooking.SlotOutcome | supabase/functions/create-booking/index.ts:87-141 | taken iff the taken probe fired; closed iff only the closed probe fired; otherwise booked with the trimmed name, the phone as given and status "confirmed" |
| CreateBooking.Decide | supabase/functions/create-booking/index.ts:34-141 | the decision as written: a missing field is rejected first; the taken, closed or booked outcomes happen iff the code verified; once it verified, taken iff exactly one non-cancelled booking holds the slot and booked iff neither probe saw exactly one row; a refusal always has a matching row behind it |
| CreateBooking.DecideIntended | supabase/functions/create-booking/index.ts:34-141 | the corrected decision: the same code step; once the code verified, taken iff any non-cancelled booking holds the slot and booked iff the slot is neither taken nor closed |
| CreateBooking.SlotStep | supabase/functions/create-booking/index.ts:87-141 | the slot steps as written: taken iff exactly one non-cancelled booking holds the slot, booked iff neither the bookings nor the closed rows match exactly once; each refusal is backed by a matching row |
| CreateBooking.SlotStepIntended | supabase/functions/create-booking/index.ts:87-141 | the corrected slot steps: taken iff any non-cancelled booking holds the slot, booked iff the slot is neither taken nor closed |
| CreateBooking.ReserveSlot | supabase/functions/create-booking/index.ts:87-173 | the two `maybeSingle` probes and the insert give the as-written `SlotStep`; exactly one booking with the next id is appended iff booked, otherwise bookings are unchanged; closed slots and codes are unchanged; the confirmation SMS is asked for iff booked |
| CreateBooking.HandleCreateBooking | supabase/functions/create-booking/index.ts:29-184 | the result is the as-written `Decide`; a verified code is consumed before the slot checks, even when the slot is then refused; exactly one booking is appended iff booked; the confirmation SMS is asked for iff booked, and its fate does not reach the result |
| CreateBooking.ReserveKeepsOneActivePerSlot | supabase/functions/create-booking/index.ts:88-141 | under both the written and the intended rule, a successful reservation keeps "at most one non-cancelled booking per (date, time)" |
| CreateBooking.TakenBeforeClosed | supabase/functions/create-booking/index.ts:87-128 | the taken check comes first: a slot the written probe sees is reported taken even if closed, and so is every taken slot while one booking per slot holds; under the intended rule every taken slot is reported taken |
| CreateBooking.RetryAfterRejectionFails | supabase/functions/create-booking/index.ts:81-128 | after a code was spent on a slot the as-written decision refused, a retry with the same code, at the same time or later, is a wrong code |
| CreateBooking.TakenAsWrittenAgrees | supabase/functions/create-booking/index.ts:88-96 | while one non-cancelled booking per slot holds, the written taken check agrees with the intended one |
| CreateBooking.TakenAsWrittenMissesDoubleBooking | supabase/functions/create-booking/index.ts:88-141 | with a verified code, two or more non-cancelled bookings on an open slot: the as-written decision books one more non-cancelled booking there, while the intended one answers taken |
| CreateBooking.DoubleBookingExample | supabase/functions/create-booking/index.ts:88-141 | two confirmed bookings at 10:00 and a valid code: the as-written decision books a third, the intended one answers taken |
| CreateBooking.ClosedAsWrittenMissesClosedDay | supabase/functions/create-booking/index.ts:110-141 | with a verified code, a free slot with two or more matching closed rows: the as-written decision books it although the screen shows it closed, while the intended one answers closed |
| CreateBooking.ClosedDayExample | supabase/functions/create-booking/index.ts:110-141 | a closed day with a row for 10:00 and a valid code: the as-written decision books 10:00, the intended one answers closed |
| AdminCreateBooking.NameError | supabase/functions/admin-create-booking/index.ts:37-49 | no name error iff the trimmed name has 2..100 characters matching the letter, space, hyphen and apostrophe pattern |
| AdminCreateBooking.PhoneError | supabase/functions/admin-create-booking/index.ts:52-58 | no phone error iff the trimmed phone is "05" and 8 digits |
| AdminCreateBooking.DateError | supabase/functions/admin-create-booking/index.ts:61-71 | no date error iff the date is "dddd-dd-dd" and the date engine accepts it |
| AdminCreateBooking.TimeError | supabase/functions/admin-create-booking/index.ts:74-79 | no time error iff the time matches 00:00..23:59 |
| AdminCreateBooking.ValidateInput | supabase/functions/admin-create-booking/index.ts:33-82 | valid iff all four fields pass; the name, phone, date and time are checked in that order and the first error is reported, the time's error once the first three pass |
| AdminCreateBooking.RulesAgreeWithSchema | supabase/functions/admin-create-booking/index.ts:11-19 | the server's name and phone rules accept exactly what the client schema accepts |
| AdminCreateBooking.TimeRuleIsClock | supabase/functions/admin-create-booking/index.ts:24 | the time rule accepts exactly the strings the screen's clock reading parses |
| AdminCreateBooking.OffGridTimeAccepted | supabase/functions/admin-create-booking/index.ts:24 | "10:20" passes although it is not a slot of the grid |
| AdminCreateBooking.LocalPhoneBranchDead | supabase/functions/admin-create-booking/index.ts:170-172 | once validated, the phone never starts with "+972", so the SMS goes to the trimmed phone unchanged |
| AdminCreateBooking.AdminStatus | supabase/functions/admin-create-booking/index.ts:140-164 | the answer is 200 iff created and 400 iff invalid |
| AdminCreateBooking.AdminDecide | supabase/functions/admin-create-booking/index.ts:139-159 | invalid iff validation fails; created iff it passes and the date is a real one; the booking is confirmed, with trimmed name and phone, and no bookings or closed slots are consulted |
| AdminCreateBooking.HandleAdminCreate | supabase/functions/admin-create-booking/index.ts:134-184 | the result is `AdminDecide`; a created booking is appended with no conflict check; otherwise nothing changes; the confirmation SMS is asked for iff created |
| AdminCreateBooking.AdminCanDoubleBook | supabase/functions/admin-create-booking/index.ts:149-159 | the admin insert can put a second non-cancelled booking on a taken slot |
| SmsWebhook.OrElse | supabase/functions/sms-webhook/index.ts:45-56 | `a || b` over an optional string: a when present and non-empty, else b |
| SmsWebhook.Sender | supabase/functions/sms-webhook/index.ts:32-56 | the sender by the three extraction paths; characterised by `ExtractionOrder` |
| SmsWebhook.Body | supabase/functions/sms-webhook/index.ts:32-56 | the trimmed body by the three extraction paths; characterised by `ExtractionOrder` |
| SmsWebhook.ExtractionOrder | supabase/functions/sms-webhook/index.ts:44-57 | an `sms:received` event with a payload gives the payload's phone and trimmed message; other JSON falls back through `from`, `phone`, `phoneNumber` and `body`, `message`; a form through `from`, `phone` and `body`, `message` |
| SmsWebhook.ToLocalPhone | supabase/functions/sms-webhook/index.ts:79-84 | "+972X" becomes "0X", "972X" becomes "0X", and anything else is unchanged |
| SmsWebhook.InternationalForm | supabase/functions/sms-webhook/index.ts:188-190 | the reply address starts with "+972": a "+972" number is kept, any other loses its first character behind "+972" |
| SmsWebhook.PhoneRoundTrip | supabase/functions/sms-webhook/index.ts:79-84 | a local "0…" number survives the trip to the reply form and back, and a "+972" number survives the trip to local form and back |
| SmsWebhook.Earliest | supabase/functions/sms-webhook/index.ts:92-100 | the chosen booking is an upcoming non-cancelled booking of the phone, from the table |
| SmsWebhook.EarliestIsLeast | supabase/functions/sms-webhook/index.ts:92-118 | nothing is chosen iff the phone has no upcoming booking; otherwise the choice is least by (date, time) among them |
| SmsWebhook.KeyLeTotal | supabase/functions/sms-webhook/index.ts:98-99 | the (date, time) order is total |
| SmsWebhook.KeyLeTransitive | supabase/functions/sms-webhook/index.ts:98-99 | the (date, time) order is transitive |
| SmsWebhook.TooLateToCancel | supabase/functions/sms-webhook/index.ts:122-127 | fewer than three hours before the start, with an unreadable time never too late; used by `StartedIsTooLate` and `WebhookOutcome` |
| SmsWebhook.StartedIsTooLate | supabase/functions/sms-webhook/index.ts:124-128 | a booking that has already started is too late to cancel |
| SmsWebhook.WebhookDecide | supabase/functions/sms-webhook/index.ts:58-161 | the decision at each exit; characterised by `WebhookOutcome` |
| SmsWebhook.WebhookResponse | supabase/functions/sms-webhook/index.ts:61-173 | every exit answers HTTP 200; `success` is set iff the message was not a cancellation, no booking was found, or the booking was cancelled |
| SmsWebhook.WebhookOutcome | supabase/functions/sms-webhook/index.ts:61-153 | a missing sender or body is reported iff one is empty; a named booking is the phone's earliest upcoming one; it is cancelled iff the body is "0", the lookup and delete succeed, and three hours or more remain; "too late" means the gate refused it |
| SmsWebhook.ReplyFor | supabase/functions/sms-webhook/index.ts:110-161 | with the credentials set, a reply is sent iff a "0" was looked up successfully; it goes to the international form of the local phone and is the no-booking, too-late (with the booking's date and time), delete-error or cancelled (with date and time) message; without credentials nothing is sent |
| SmsWebhook.DeleteById | supabase/functions/sms-webhook/index.ts:141-144 | the delete removes the rows with the booking's id and touches nothing else |
| SmsWebhook.HandleSmsWebhook | supabase/functions/sms-webhook/index.ts:26-166 | the result is `WebhookDecide` on the old table; only a cancellation changes the store, removing the chosen booking by id |
| SmsWebhook.CancelRemovesOnlyIt | supabase/functions/sms-webhook/index.ts:141-144 | with unique ids, cancelling removes exactly that booking, keeps every other one, and keeps their order |
| SmsWebhook.GatewayZeroReply | supabase/functions/sms-webhook/index.ts:43-45 | the gateway event carrying "0" from a non-empty sender gives that sender and the body "0" |
| SmsWebhook.ZeroReplyOutcome | supabase/functions/sms-webhook/index.ts:66-161 | a "0" whose phone has an upcoming booking, with the select and delete succeeding, cancels that earliest booking or keeps it as too late |
| SmsWebhook.ReplyFindsOwnBooking | supabase/functions/sms-webhook/index.ts:44-118 | a customer booked under "0…" who answers "0" from the same number in international form reaches a booking of theirs no later than the one they hold |
| SendReminders.Candidates | supabase/functions/send-reminders/index.ts:46-51 | the selection holds only bookings of the table for tomorrow, with status exactly "confirmed" and no reminder sent |
| SendReminders.CandidatesComplete | supabase/functions/send-reminders/index.ts:46-64 | every such booking is selected, and the selection is empty iff there is none |
| SendReminders.RemindersPointwise | supabase/functions/send-reminders/index.ts:71-84 | one reminder is asked for per candidate, in order, with its phone, name, date and time |
| SendReminders.MarkAll | supabase/functions/send-reminders/index.ts:93-96 | flagging a set of ids sets the flag on those rows and leaves every other row as it was |
| SendReminders.SentCount | supabase/functions/send-reminders/index.ts:68-108 | the sent count never exceeds the number of candidates |
| SendReminders.FlaggedIff | supabase/functions/send-reminders/index.ts:86-102 | an id is flagged iff it is a candidate's, its SMS went out and its flag update went through |
| SendReminders.Swept | supabase/functions/send-reminders/index.ts:71-108 | the sweep's table is computed row by row from the old one |
| SendReminders.MarkFlaggedIsSweep | supabase/functions/send-reminders/index.ts:71-108 | with unique ids, flagging the ids the loop flags is exactly the row-by-row sweep |
| SendReminders.ReminderStatus | supabase/functions/send-reminders/index.ts:53-126 | the answer is 500 iff the selection failed, else 200 |
| SendReminders.RemindAll | supabase/functions/send-reminders/index.ts:68-108 | the loop counts sent exactly the candidates whose SMS went out and failed the rest, so sent + failed = total; it asks for every reminder in order; only flagged ids change |
| SendReminders.SweepDay | supabase/functions/send-reminders/index.ts:58-120 | for a given tomorrow: no candidates changes nothing and sends nothing; otherwise the result is (sent, failed, total) as counted, the reminders are asked for in order and the table is the sweep; closed slots and codes are unchanged |
| SendReminders.SendReminders | supabase/functions/send-reminders/index.ts:36-120 | a failed selection or an empty one changes nothing and sends nothing; otherwise the result is (sent, failed, total) as counted, and the table is the sweep |
| SendReminders.SweepLeavesFailures | supabase/functions/send-reminders/index.ts:86-102 | after a sweep, a booking is still a candidate iff it was one and its SMS or its flag update failed; candidates change only in their flag, and other bookings not at all |
| SendReminders.FailuresAreRetried | supabase/functions/send-reminders/index.ts:86-102 | a candidate whose SMS or flag update failed is selected again on a rerun |
| SendReminders.RerunSelectsNothing | supabase/functions/send-reminders/index.ts:46-51 | after a run in which every SMS and every flag update succeeded, a rerun selects nothing |

## Left out

- Rendering, React state, toasts, confirmation dialogs and realtime subscriptions: the model takes each hook's list to be the table itself.
- Concurrency: the store is sequential, so the check-then-insert race between two reservations cannot be expressed; "one booking per slot" is stated for one request at a time.
- Authorisation in `admin-create-booking` (lines 103-132), the CORS preflight, JSON parsing and the `_shared/security.ts` helpers: these are foreign calls and become parameters or are left out.
- Rate-limit recording (`recordRateLimit`): only the limiter's answer is modelled.
- Message texts, Hebrew date formatting and the `reason` column of a closed slot: these are display text.
- `toDateKey` and time zones: days are abstract keys, computed the same way on both sides; the client's local day and the server's UTC day are not told apart.
- Validations.NameIssues: `\p{L}` is approximated by ASCII, Latin-1, Hebrew and Arabic letters, and lengths count characters, not UTF-16 code units.
- AdminCreateBooking.NameError: the same approximation of `\p{L}` and of lengths.
- Validations.LoginIssues: the email rule is a parameter, since zod's email pattern is not modelled.
- Calendar.EngineLooserThanCalendar: the `Date` engine's acceptance is modelled as month 01..12 and day 01..31, and an impossible day fails at the insert.
- Calendar.ParseClock: "24:00", which `setHours` would roll into the next day, is not a clock value here; a time that does not read as "HH:MM" counts as `NaN`.
- Database failures other than those passed as outcomes: any other thrown error is not modelled.
- Ties: the webhook's order by (date, time) is resolved by table order when two bookings have equal keys, and `.limit(1)` returns the first.
- PostgREST filter injection through `booking_time` in the closed query's `.or(...)` string: the time is compared as a value.
- Input fields that are not strings, and customer dates that do not parse: a missing or empty date is the only bad date the customer path models.
- Bookings.UpdateBooking: an empty-string date in a patch cannot be expressed, since a patched date is a day key.
- SendReminders.RemindAll: a thrown `invoke` and an answered error are both an SMS outcome of false, as they count the same.
- SmsWebhook.HandleSmsWebhook: the reply SMS is returned, and the gateway's answer to it is not modelled because the code only logs it.

## Findings

| source | as written | input that shows it | evidently intended | confidence | as-written member | corrected member |
|---|---|---|---|---|---|---|
| supabase/functions/create-booking/index.ts:88-96 | the taken check uses `maybeSingle()` and ignores its error, so two or more matching rows give `data: null` and read as "free" | two non-cancelled bookings at 10:00 on one day (the admin path and `updateBooking` can create them); a third customer booking at 10:00 is accepted | refuse the slot when any non-cancelled booking is there | high, not executed | CreateBooking.TakenAsWrittenMissesDoubleBooking | CreateBooking.DecideIntended |
| supabase/functions/create-booking/index.ts:110-117 | the closed check uses `maybeSingle()` and ignores its error, so a day row plus a time row on one date read as "open" | a closed day that also has a row for 10:00 (the admin grid's unlock button adds one); a customer can book 10:00 on the closed day | refuse the slot when any matching closed row exists | high, not executed | CreateBooking.ClosedAsWrittenMissesClosedDay | CreateBooking.DecideIntended |
