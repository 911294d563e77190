# Barbershop slot availability

A Dafny model of the one piece of logic in the barbershop booking front end:
the booking sheet of a service (`app/_components/service-item.tsx`). The sheet
offers a fixed catalog of 21 half-hour slots, "08:00" to "18:00", and
`getTimeList` filters it in one left-to-right pass. A slot is dropped when the
chosen day is today and the slot is already past. A slot is also dropped when
an existing booking has exactly its hour and minute. Around the filter the
component derives the chosen date-time (`selectedDate`) and the list of
buttons (`timeList`). It resets its state when the sheet closes, and it sends
a booking only when a date-time is chosen.

The browser clock is made explicit as a `Clock`. It holds the day and the
milliseconds into that day that `new Date()` reads, plus the lag in
milliseconds before `isPast` reads the clock again. date-fns `set` keeps the
seconds and milliseconds of the first reading. So a slot on the clock's own
minute counts as past exactly when the second reading comes later than the
first (`Time.PastSlots`). The rest of the time model is abstract: a day is an
integer, a time of day is an hour and a minute, and a booking is a day plus a
time of day.

Modules:
- `Options` (in `time.dfy`): the optional value that stands for `undefined`.
- `Time` (`time.dfy`): `TimeOfDay`, the "HH:MM" parser and printer with their round trip, the clock, `isToday` and `isPast`.
- `Catalog` (`catalog.dfy`): `TIME_LIST` and its shape.
- `Availability` (`availability.dfy`): bookings, the filter as a function (`Available`, `GetTimeList`) and as a loop (`ComputeTimeList`), and its characterisation.
- `Scenarios` (`scenarios.dfy`): worked cases, each stated for every clock reading and booking day it covers.
- `ServiceItem` (`service_item.dfy`): the sheet state, `selectedDate`, `timeList`, the reset and the confirm handler.

Three behaviours of the code to note:
- The full catalog comes back for any day other than today when there are no
  bookings, past days included. Past days are kept out only by the calendar
  widget.
- The past test puts the slot on today's date (`new Date()`), whatever day is
  selected. It only matters when the selected day is today.
- A booking's day is never compared. The bookings are trusted to be those of
  the selected day.

## Model

| member | source | states |
|---|---|---|
| Time.ParseTime | app/_components/service-item.tsx:64-65 | a slot string splits at its colon into an hour and a minute; anything that reads gives a valid time, from a five-character string with a colon in the middle |
| Time.ParseFormat | app/_components/service-item.tsx:64-65 | printing a valid time as zero-padded "HH:MM" and reading it back gives the same time |
| Time.FormatParse | app/_components/service-item.tsx:64-65 | every string that reads as a time is exactly the printed form of that time |
| Time.ParseInjective | app/_components/service-item.tsx:64-65 | two slot strings that read as the same time are the same string |
| Time.IsToday | app/_components/service-item.tsx:74 | `isToday(selectDay)` holds iff the clock's first reading falls inside the selected calendar day |
| Time.IsPastToday | app/_components/service-item.tsx:67-72 | `isPast(set(new Date(), {hours, minutes}))` holds iff (slot minute − clock minute) · 60000 ms is below the lag between the two clock readings: only the minutes and the lag matter, not the seconds |
| Time.PastSlots | app/_components/service-item.tsx:67-76 | a slot before the clock's minute is past; a slot after it is not past when the readings are under a minute apart; on the clock's own minute it is past iff the second reading came later |
| Catalog.CatalogSlot | app/_components/service-item.tsx:38-60 | catalog slot i is a valid time at 480 + 30·i minutes after midnight |
| Catalog.CatalogIsHalfHours | app/_components/service-item.tsx:38-60 | the catalog has 21 entries, and entry i is the zero-padded text of 08:00 plus i half hours |
| Catalog.CatalogShape | app/_components/service-item.tsx:38-60 | entry i reads as hour 8 + i/2 and minute 30·(i%2); the catalog is well formed, strictly increasing and has no duplicates |
| Availability.HasBookingAt | app/_components/service-item.tsx:78-82 | `booking.some(...)` holds iff some booking has the slot's hour and the slot's minute; the booking's day plays no part |
| Availability.Open | app/_components/service-item.tsx:63-88 | the filter callback keeps a slot iff it is not the case that the selected day is the clock's day and the slot's minute is behind the second reading, and no booking has the slot's hour and minute |
| Availability.ScanBookings | app/_components/service-item.tsx:78-82 | the early-exit scan of the bookings answers exactly whether some booking has the slot's hour and minute |
| Availability.HasBookingAtBookedTimes | app/_components/service-item.tsx:78-82 | whether a slot is booked depends only on the set of times of day the bookings occupy |
| Availability.Available | app/_components/service-item.tsx:62-89 | the filter's output is no longer than the catalog (so an empty catalog gives an empty output) and is an order-preserving subsequence of it; an entry is in the output iff it is in the catalog, it is not past on today's date, and no booking has its hour and minute |
| Availability.GetTimeList | app/_components/service-item.tsx:62-89 | `getTimeList` returns a subsequence of `TIME_LIST` that is strictly increasing, holding exactly the offered slots |
| Availability.SubsequenceOfIncreasing | app/_components/service-item.tsx:62-63 | a subsequence of an increasing catalog is increasing and adds no element |
| Availability.FirstIsEarliest | app/_components/service-item.tsx:62-63 | the first entry of an increasing slot list is its earliest |
| Availability.InTail | app/_components/service-item.tsx:62-63 | in an increasing slot list, the tail holds every member except the first |
| Availability.IncreasingDeterminedByMembers | app/_components/service-item.tsx:62-63 | two increasing slot lists with the same members are equal, so the output's order is fixed by its members |
| Availability.AvailableCharacterisation | app/_components/service-item.tsx:62-89 | any order-preserving selection from an increasing catalog holding exactly the offered entries is the filter's output |
| Availability.AvailableAppend | app/_components/service-item.tsx:62-63 | filtering a concatenation is the concatenation of the filtered parts, because the pass looks at one entry at a time |
| Availability.AllOffered | app/_components/service-item.tsx:62-89 | when every entry is offered the pass returns the catalog unchanged |
| Availability.NoneOffered | app/_components/service-item.tsx:62-89 | when no entry is offered the pass returns the empty list |
| Availability.DropsPrefix | app/_components/service-item.tsx:62-89 | when exactly the entries from position k on are offered, the output is the catalog from k on |
| Availability.DropsOne | app/_components/service-item.tsx:62-89 | when every entry but the one at k is offered, the output is the catalog with that one entry removed |
| Availability.OtherDayIgnoresClock | app/_components/service-item.tsx:67-76 | on a day other than today a slot is open iff it is not booked; the clock plays no part |
| Availability.OtherDayNoBookingsIsWholeCatalog | app/_components/service-item.tsx:62-89 | with no bookings on a day other than today, the filter returns its catalog unchanged |
| Availability.OtherDayNoBookingsIsTimeList | app/_components/service-item.tsx:62-89 | with no bookings on a day other than today, `getTimeList` returns all 21 slots of `TIME_LIST` in order |
| Availability.TodayDropsPastSlots | app/_components/service-item.tsx:67-76 | on today's date every slot before the clock's minute is dropped, and a later slot is kept iff it is not booked (readings under a minute apart) |
| Availability.SingleBookingRemovesOnlyItsSlot | app/_components/service-item.tsx:78-86 | with one booking, on a day other than today, a slot is offered iff its time differs from the booking's time |
| Availability.BookedTimesDetermineResult | app/_components/service-item.tsx:78-86 | the output depends on the bookings only through the times they occupy, so their days, order and repetitions are irrelevant |
| Availability.SameOfferDetermineResult | app/_components/service-item.tsx:62-63 | two queries that offer the same catalog entries give the same output |
| Availability.PermutedBookingsSameResult | app/_components/service-item.tsx:78-86 | reordering or duplicating the bookings leaves the output unchanged |
| Availability.ComputeTimeList | app/_components/service-item.tsx:62-89 | the single left-to-right loop, with an early-exit scan of the bookings like `some`, computes exactly the filter's output |
| Scenarios.NineBookingVerdict | app/_components/service-item.tsx:78-86 | with a single 09:00 booking on a day other than today, catalog slot i is offered iff i is not 2 (the "09:00" slot) |
| Scenarios.BookingAtNineRemovesOnlyNine | app/_components/service-item.tsx:78-86 | a 09:00 booking of any date, for a selected day other than today, removes exactly "09:00" from the catalog |
| Scenarios.BookingAtNineKeepsNineThirty | app/_components/service-item.tsx:78-86 | a 09:00 booking removes "09:00" and leaves "09:30" bookable |
| Scenarios.TodayAtTenOhSeven | app/_components/service-item.tsx:67-76 | today at 10:07 with no bookings, the slots 08:00 to 10:00 are gone and 10:30 onward remain, for any seconds and any lag under a minute |
| Scenarios.BookingExclusionExample | app/_components/service-item.tsx:78-86 | for the catalog 08:00, 08:30, 09:00 and a later day, a 09:00 booking leaves 08:00 and 08:30 |
| Scenarios.CombinedExample | app/_components/service-item.tsx:62-89 | today at 09:15 with a 09:30 booking, the catalog 08:00 to 10:00 is cut to 10:00 alone |
| ServiceItem.SelectedDate | app/_components/service-item.tsx:114-120 | the selected date is defined iff a day and a non-empty time are chosen; it is a valid date iff the time text is zero-padded "HH:MM" within the day, and then it is on the chosen day at exactly that time, which prints back as the chosen text |
| ServiceItem.TimeList | app/_components/service-item.tsx:167-173 | no buttons until a day is chosen; then an order-preserving subsequence of the catalog holding exactly the slots offered for that day and its bookings |
| ServiceItem.OnOpenChange | app/_components/service-item.tsx:137-142 | closing the sheet clears the day, the time, the bookings and the open flag, so no date is selected and no buttons remain |
| ServiceItem.HandleCreateBooking | app/_components/service-item.tsx:144-165 | with no selected date nothing is sent and nothing changes; otherwise the selected date is sent for the service, and the sheet is reset iff storage accepts it |
| ServiceItem.RequestNeedsDayAndTime | app/_components/service-item.tsx:144-146 | a request is sent only when both a day and a time are chosen |
| ServiceItem.NothingSentAfterReset | app/_components/service-item.tsx:137-146 | confirming right after the sheet is reset sends nothing and changes nothing |
| ServiceItem.PickedSlotIsOpen | app/_components/service-item.tsx:114-173 | a chosen time that is among the current buttons gives a valid date on the chosen day whose time is open (not booked, not past today), and confirming with storage accepting sends exactly that date |

## Left out

- Rendering (cards, sheet, dialog, calendar styling, toasts, `router.push`): user interface, not logic. This includes the calendar's `disabled` rule that hides days before today.
- The `useEffect` fetch of the day's bookings, and `getBookings`, `createBooking` and `deleteBooking`: database calls. The day's bookings are a field of the sheet state. The outcome of `createBooking` is a boolean parameter of `ServiceItem.HandleCreateBooking`.
- `handleBookingClick` and the sign-in dialog: they depend on the authentication session.
- `handleDateSelect` and `handleTimeSelect`: plain assignments of one state field.
- The `SheetClose` wrapper around the confirm button, which also closes the sheet: it is an effect of the UI library.
- `booking-item.tsx`, `bookings/page.tsx`, `sidebar-sheet.tsx`, `phone-item.tsx`: presentation and database pages outside the booking sheet.
- Time zones, the JavaScript `Date` calendar and locale formatting: days are plain integers and times of day are hour/minute pairs.
- Time.ParseTime: reads only the zero-padded "HH:MM" form with hour below 24 and minute below 60. JavaScript's `Number` also accepts forms like "8" or " 08", and date-fns `set` rolls out-of-range hours into the next day. Neither occurs for catalog strings.
- Availability.Available: requires every catalog entry to read as a time. In JavaScript an unreadable entry becomes an invalid date and is kept; the only catalog the component uses is well formed (`Catalog.CatalogShape`).
- ServiceItem.SelectedDate: gives `InvalidDate` for every non-empty text `Time.ParseTime` rejects. JavaScript differs on unpadded or out-of-range text such as "8:05" (a valid 08:05) or "08:60" (rolled over to 09:00). No button produces such text: the chosen time always comes from `TIME_LIST`.
- ServiceItem.PickedSlotIsOpen: speaks of a time among the buttons of the current state. The source keeps an earlier pick when the day changes, and does not recompute the buttons as the clock advances, so a confirmed time need not still be open.
- Time.IsPastToday: the callback reads the clock afresh for each slot, and `isToday` reads it once more. The model uses one reading plus one later reading for the whole pass, and takes "today" from the first reading, so a pass that straddles midnight is not modelled.
- Availability.Booking: a booking's seconds, id, user and service are not modelled; the filter reads only its hour and minute.
