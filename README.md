# Nordic bath and sauna booking calendar — a Dafny model

This project models the slot-booking logic of the `BookingCalendar` component of the
gîtes du Soulor site. A guest picks a date and clicks one-hour slots on a fixed grid that
runs from 10h to 2h the next morning. The component keeps a local list of bookings, one entry
per booked hour. It refuses clicks on booked hours and toggles the others. "Valider la sélection" turns the
selection into a single "HH:00"–"HH:00" reservation for the store. The component also holds
a confirmation dialog whose "Confirmer la réservation" button would record one local booking
per hour, but nothing in the component opens that dialog (see below).

Modules, leaf first:

- `Wrappers`: the `Option` type.
- `SlotGrid`: the sixteen-slot grid `TimeSlots` and the end-hour rule of the slot labels.
- `HourText`: `String(n)`, the `padStart(2, "0")` padding and "HH:00" times. `ParseHourTime`,
  which reads such a time back, exists only to state what the rendering means.
- `Selection`: the selection as a sequence of hours. It has removal (`filter`), the click
  toggle and the numeric sort (`sort((a, b) => a - b)`), with the lemmas about them.
- `Bookings`: the `Booking` record, the availability test `isSlotBooked` and the entries
  a confirmed booking appends.
- `Reserve`: the start and end times computed by "Valider la sélection".
- `Calendar`: the component's state as the class `BookingCalendar`, with one method per handler.
  `IsSlotSelected` is `isSlotSelected`.

What the code does, as the model states it:

- Availability is read only from the component's own `bookings` list. The reservations loaded
  from the store are never consulted.
- Nothing calls `handleOpenDialog`, and the dialog has no trigger element: its `onOpenChange`
  only ever closes it. So `dialogOpen` never becomes true, `handleBooking` is never reached,
  `bookings` stays empty and `isSlotBooked` is false for every hour. The class still models
  `HandleOpenDialog` and `HandleBooking` as written, and the lemmas about booked hours describe
  what they would do if the dialog were opened.
- Clicking a selected hour removes it. Clicking any other unbooked hour appends it at the end.
  The render then sorts the selection (next bullet), so every handler sees the hours in
  ascending numeric order, not in click order. Clicking an hour twice, with a render after each
  click, gives back the selection exactly (`RenderedClickTwice`). Nothing checks that the hours
  are contiguous, and nothing re-checks availability before committing. Changing the date keeps the selection.
  `CommitDoesNotRecheck` shows that a commit can then record the same day and hour twice.
- The start time is the FIRST element of the selection and the end time is the LAST element
  plus one, with no wrap at midnight. A selection ending at 23h is sent as "24:00", although
  the slot label for 23h ends at 0h. Nothing wraps the end hour at midnight, nothing orders
  the hours by grid position, and nothing checks contiguity.
- The dialog's slot list sorts `selectedSlots` in place by numeric value. That expression is
  part of the element tree the component returns, so it runs on every render, not only when
  the dialog is open. After a sort, 0h and 1h come before 10h. Selecting 22h, 23h and 0h
  therefore gives "00:00" to "24:00" (`MidnightSelectionSorted`). The model makes this sort
  its own method, `SortSelection`, for the caller to apply between handlers.
- `handleBooking` changes the state in the same way whatever the e-mail request returns.

## Model

| member | source | states |
|---|---|---|
| SlotGrid.TimeSlotsShape | src/components/BookingCalendar.tsx:23 | the grid is 16 distinct hours, exactly 10..23, 0 and 1, the i-th being (10 + i) mod 24 |
| SlotGrid.SlotEndHour | src/components/BookingCalendar.tsx:226 | a slot's end hour is its successor on the 24-hour clock (23 ends at 0, 1 at 2), so every grid slot ends within 0..23 |
| SlotGrid.GridIsContiguous | src/components/BookingCalendar.tsx:282 | each grid slot ends where the next one starts, and the last one ends at 2h |
| HourText.Digits | src/components/BookingCalendar.tsx:251 | `String(n)` of a natural number is a non-empty digit string, one digit exactly below ten, two digits from 10 to 99 |
| HourText.DigitsRoundTrip | src/components/BookingCalendar.tsx:251 | reading back the decimal digits of n gives n |
| HourText.NumberString | src/components/BookingCalendar.tsx:251 | `String(n)` reads back as n when n >= 0, and starts with a minus sign otherwise |
| HourText.Pad | src/components/BookingCalendar.tsx:251 | `pad` turns 0..99 into exactly two digits that read back as n, and leaves every longer rendering untouched |
| HourText.HourTime | src/components/BookingCalendar.tsx:252-253 | for an hour in 0..99 the time is five characters: two digits that read back as the hour, then ":00" |
| HourText.HourTimeDigits | src/components/BookingCalendar.tsx:251-253 | an "HH:00" time is a leading zero and one digit below ten, otherwise the tens and units digits |
| HourText.HourTimeExamples | src/components/BookingCalendar.tsx:251-253 | 0, 10, 13 and 24 render as "00:00", "10:00", "13:00" and "24:00" |
| HourText.HourTimeRoundTrip | src/components/BookingCalendar.tsx:252-253 | every hour 0..99 renders as a five-character "HH:00" time that reads back as that hour |
| HourText.HourTimeInjective | src/components/BookingCalendar.tsx:252-253 | two hours in 0..99 give the same time exactly when they are equal |
| Selection.Without | src/components/BookingCalendar.tsx:69 | the filtered selection holds exactly the hours of the old one other than the removed hour, and is unchanged when that hour is absent |
| Selection.WithoutNoDup | src/components/BookingCalendar.tsx:69 | removing an hour keeps the selection free of repeats |
| Selection.WithoutAt | src/components/BookingCalendar.tsx:69 | in a selection without repeats, removing the hour at position i removes exactly that position, the others keeping their order |
| Selection.WithoutAppended | src/components/BookingCalendar.tsx:69-71 | appending an absent hour and filtering it out gives back the selection |
| Selection.Toggle | src/components/BookingCalendar.tsx:68-72 | after a toggle the clicked hour is selected exactly when it was not, and every other hour keeps its membership |
| Selection.ToggleNoDup | src/components/BookingCalendar.tsx:68-72 | toggling keeps the selection free of repeats |
| Selection.ToggleChangesOnlyH | src/components/BookingCalendar.tsx:68-72 | an absent hour is appended at the end; a present hour is removed at its position and nothing else changes |
| Selection.ToggleTwiceAbsent | src/components/BookingCalendar.tsx:68-72 | clicking an absent unbooked hour twice restores the selection exactly |
| Selection.ToggleTwicePresent | src/components/BookingCalendar.tsx:68-72 | clicking a selected hour twice, with no sort in between, moves it to the end of the selection |
| Selection.Insert | src/components/BookingCalendar.tsx:280 | inserting into an ascending list gives an ascending list holding the old hours plus the new one |
| Selection.SortAsc | src/components/BookingCalendar.tsx:280 | the numeric sort gives an ascending permutation of the selection |
| Selection.SortAscNoDup | src/components/BookingCalendar.tsx:280 | sorting keeps the selection free of repeats |
| Selection.SortedUnique | src/components/BookingCalendar.tsx:280 | two ascending lists holding the same hours are equal, so the sorted selection depends only on which hours are selected |
| Selection.MultisetToggle | src/components/BookingCalendar.tsx:68-72 | on a selection without repeats, a toggle takes one copy of a selected hour out and puts one copy of an absent hour in |
| Selection.RenderedClickTwice | src/components/BookingCalendar.tsx:68-72 | from an ascending selection without repeats, two clicks on the same hour, each followed by the render's sort, give back the selection exactly |
| Selection.SortAscEnds | src/components/BookingCalendar.tsx:280 | after sorting, the first hour is the least selected hour and the last is the greatest |
| Bookings.BookedOn | src/components/BookingCalendar.tsx:53-57 | `some` is true exactly when some booking holds that hour on that day |
| Bookings.IsBooked | src/components/BookingCalendar.tsx:50-58 | no hour is booked without a selected date; otherwise an hour is booked exactly when some booking has the selected day and that hour |
| Bookings.BookingId | src/components/BookingCalendar.tsx:86 | for a non-negative clock and hour the id has a single dash, and the digits before and after it read back as the clock and the hour |
| Bookings.BookingIdInjective | src/components/BookingCalendar.tsx:86 | with one clock reading, two non-negative hours give the same id exactly when they are equal |
| Bookings.NewBookingIdsDistinct | src/components/BookingCalendar.tsx:84-90 | with one clock reading, the entries of a commit of a selection without repeats have pairwise distinct ids |
| Bookings.NewBookings | src/components/BookingCalendar.tsx:84-91 | one new booking per selected hour, in selection order, each with that hour, the selected day, the client's name and e-mail and the id "clock-hour" |
| Bookings.CommitBooks | src/components/BookingCalendar.tsx:129 | after appending the new bookings, an hour is booked on a day exactly when it was booked before or it is a committed hour on the committed day |
| Bookings.ClickKeepsUnbooked | src/components/BookingCalendar.tsx:64-73 | a click never brings a booked hour into a selection that held none |
| Bookings.CommitDoesNotRecheck | src/components/BookingCalendar.tsx:82-91 | committing a selection that holds an hour already booked that day leaves two entries for the same day and hour |
| Reserve.MergeSelection | src/components/BookingCalendar.tsx:245-253 | nothing is sent exactly when no date is selected or the selection is empty; otherwise the request carries the selected day |
| Reserve.MergeRoundTrip | src/components/BookingCalendar.tsx:247-253 | the start time reads back as the first selected hour and the end time as the last selected hour plus one |
| Reserve.MergeEndVersusSlotEnd | src/components/BookingCalendar.tsx:248 | for a grid hour last, the end time equals the end of that slot's label exactly when last is not 23 |
| Reserve.MergeEndsAt24 | src/components/BookingCalendar.tsx:248-253 | a selection ending at 23 is sent with end time "24:00" |
| Reserve.MergeSorted | src/components/BookingCalendar.tsx:247-248 | after the sort, the reservation runs from the least selected hour to the greatest plus one, whatever the click order |
| Reserve.MergeIgnoresGaps | src/components/BookingCalendar.tsx:245-253 | the selection 10, 12 is sent as one reservation "10:00" to "13:00": no contiguity check |
| Reserve.MidnightSelectionSorted | src/components/BookingCalendar.tsx:280 | clicking 22, 23, 0 and sorting sends "00:00" to "24:00" |
| Calendar.BookingCalendar.constructor | src/components/BookingCalendar.tsx:26-48 | the component starts with today selected, an empty selection, no bookings, an empty form and the dialog closed |
| Calendar.BookingCalendar.SelectDate | src/components/BookingCalendar.tsx:175 | picking a date sets it and keeps the selection |
| Calendar.BookingCalendar.SetClientName | src/components/BookingCalendar.tsx:296 | typing a name sets it |
| Calendar.BookingCalendar.SetClientEmail | src/components/BookingCalendar.tsx:309 | typing an e-mail sets it |
| Calendar.BookingCalendar.SetDialogOpen | src/components/BookingCalendar.tsx:269 | the dialog's open-change and cancel set its visibility |
| Calendar.BookingCalendar.IsSlotSelected | src/components/BookingCalendar.tsx:60-62 | an hour is selected exactly when it occurs at some position of the selection |
| Calendar.BookingCalendar.HandleSlotClick | src/components/BookingCalendar.tsx:64-73 | a booked hour leaves the selection unchanged and any other hour toggles it: the clicked hour's selected status flips and every other hour's stays; the selection stays free of repeats and free of booked hours |
| Calendar.BookingCalendar.HandleOpenDialog | src/components/BookingCalendar.tsx:75-79 | the dialog opens exactly when the selection is non-empty and is otherwise left as it was |
| Calendar.BookingCalendar.SortSelection | src/components/BookingCalendar.tsx:280 | the selection becomes an ascending permutation of itself |
| Calendar.BookingCalendar.CanBook | src/components/BookingCalendar.tsx:82 | when the commit guard holds there is a day to record and at least one hour to book |
| Calendar.CommitGuardStricter | src/components/BookingCalendar.tsx:82 | whenever the commit guard holds, the guard of "Valider la sélection" holds too and a reservation would be sent |
| Calendar.BookingCalendar.HandleBooking | src/components/BookingCalendar.tsx:81-134 | without date, selection, name and e-mail nothing changes; otherwise the new bookings are appended, every selected hour becomes booked on that day, and the dialog, form and selection are reset, whatever the e-mail outcome |

## Left out

- src/api/reservations_bain_sauna.ts: asynchronous wrappers over the remote store's
  `select` and `insert`. This is foreign I/O with no logic of its own. `MergeSelection` gives
  the arguments the store insert receives; the insert itself and its `alert` are not modelled.
- The e-mail `fetch`, `toast`, `alert` and `console.error`: these are network and UI effects.
  The e-mail outcome is the `EmailOutcome` parameter of `HandleBooking`, which does not affect
  the state.
- `useEffect`/`loadReservations` and the `reservations` state: asynchronous store reads whose
  result nothing reads.
- Dates: `toISOString().split("T")[0]`, `toLocaleDateString` and the past-date `disabled`
  predicate call library and clock functions. A selected date is modelled as its ISO day string.
  `toISOString()` gives the UTC day. A date picked from the calendar is local midnight, so in
  UTC+1 or UTC+2 it becomes the previous ISO day. The initial `new Date()` and the same day
  picked again can therefore map to different ISO days. The model does not capture this.
- HandleBooking: one `clock` reading stands for `Date.now()` in every id of a commit. The source
  reads the clock once per hour, so its ids may carry different readings.
- HandleBooking: the handler awaits the e-mail request before updating the state, and its
  setters use the values captured when it started. Events arriving during that wait are not
  modelled; the commit is one atomic step.
- Calendar.BookingCalendar: the class ignores the UI gating. `HandleBooking` can be called in
  any state that passes its guard, although in the component the commit is only reachable
  through a dialog that nothing opens.
- Calendar.BookingCalendar: the render's sort is not applied automatically. A sequence of
  `HandleSlotClick` calls without `SortSelection` between them reaches click-ordered
  selections that the component never hands to a handler.
- The JSX rendering, label text and styling. Only the end-hour rule of the labels
  (`SlotEndHour`) and the in-place sort (`SortSelection`) are modelled. The model does not
  re-render by itself: the caller applies `SortSelection` between handlers.
- Hours are integers. JavaScript numbers that are not integers never reach these handlers
  from the grid.
