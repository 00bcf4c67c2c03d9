# Meeting-room booking: conflict and availability engine

A Dafny model of the booking logic in the two source trees of the
repository. `src/` is a single-page app with a calendar grid and a collect-all
form validator. `meeting-room-booking/src/` is a multi-view app with a slot
list and a short-circuiting form. Both trees keep an in-memory list of
bookings and decide three things:

- whether a requested range in a room on a date conflicts with a stored booking;
- which half-hour slots of a day are free;
- how the bookings are sorted, filtered and grouped for the overviews.

Modules named `Mrb*` model files of `meeting-room-booking/src/`, and modules
named `Src*` model files of `src/`. Both trees declare the same records, so
they share `Types`. `Times` holds "HH:MM" strings, `Text` holds `trim` and
string order, and `Collections` holds `filter`, stable `sort`, group-by and
`indexOf`. `Seqs` and `Arith` hold general facts the proofs need.

Modelling choices:

- A time is a validated zero-padded "HH:MM" string (`Times.TimeStr`). `Times.Minutes` gives its value as `hours * 60 + minutes`, the arithmetic every file does.
- Dates, ids and titles are opaque strings. Dates are compared in code-unit lexicographic order (`Text.LexLess`), which is what `localeCompare` and the default `sort()` do on the zero-padded ASCII dates.
- Every React handler becomes a pure function from state to state.
- Values the source takes from the clock or from a random source (today's date, new ids) are parameters.
- Each tree's variant of an operation is modelled on its own. Lemmas then relate the variants:
  - `SrcUtils.ConflictChecksAgree`: the two conflict checks decide the same thing.
  - `SrcUtils.DefaultSlotsExtendMockSlots`: the two slot generators produce the same half hours, and one of them also includes the closing hour.
  - `SrcCalendar.GridAlignedHoldIffOverlap` and `SrcCalendar.OffGridBookingMissed`: the calendar's point test and the slot list's overlap test agree on the half-hour grid, and can disagree off it.
  - `SrcForm.InvertedRangeCanAlsoConflict` and `MrbForm.ReportsOnlyFirstFailure`: one validator collects every failure, the other stops at the first.

The central invariant has one version per tree:

- `SrcApp.SubmitPreservesNonOverlapping`: in `src/`, no accepted submission creates two overlapping bookings of one room on one date.
- `MrbApp.AcceptedSubmitKeepsStoreConflictFree`: in `meeting-room-booking/`, the same holds for a form submission followed by the store's create handler.

## Model

| member | source | states |
|---|---|---|
| Types.WithId | meeting-room-booking/src/App.tsx:64-71 | the new booking carries the given id and copies every field of the form data |
| Times.Clock | meeting-room-booking/src/utils/bookingUtils.ts:128 | the zero-padded template gives a time whose hour and minute fields are the values it was built from |
| Times.FromMinutes | meeting-room-booking/src/utils/bookingUtils.ts:124-128 | converting a minute count back to a string is the inverse of `timeToMinutes` |
| Times.ClockOfFields | src/utils/bookingUtils.ts:27-30 | padding the parsed hour and minute of a time gives back the same string |
| Times.MinutesInjective | src/utils/bookingUtils.ts:27-30 | two time strings have the same minute value exactly when they are the same string |
| Times.MinutesOrder | src/utils/bookingUtils.ts:27-30 | the minute value is strictly increasing in (hour, minute) order |
| Times.LexLessIsEarlier | src/components/BookingOverview.tsx:38 | comparing two times character by character orders them exactly as their minute values |
| Text.Trim | src/App.tsx:97 | the trimmed title is empty or starts and ends with a non-whitespace character |
| Text.TrimIsMiddleSlice | src/App.tsx:97 | the trimmed title is a slice of the input with only whitespace before and after it |
| Text.TrimEmptyIffAllWhitespace | src/App.tsx:97 | a title trims to the empty string exactly when every character is whitespace |
| Text.TrimIdempotent | src/App.tsx:97 | trimming twice is trimming once |
| Text.LexLessTotal | src/components/BookingOverview.tsx:36 | two different strings are always ordered one way or the other |
| Text.LexLessTransitive | src/components/BookingOverview.tsx:36 | string order is transitive |
| Collections.Select | meeting-room-booking/src/utils/bookingUtils.ts:70-76 | a filter keeps exactly the bookings that pass and is never longer than its input |
| Collections.SelectConcat | meeting-room-booking/src/utils/bookingUtils.ts:81-83 | filtering distributes over concatenation, so it keeps the original order |
| Collections.SelectCounts | meeting-room-booking/src/utils/bookingUtils.ts:81-83 | filtering keeps every occurrence of a passing booking and none of a failing one |
| Collections.SelectIdempotent | meeting-room-booking/src/App.tsx:80 | filtering twice with the same predicate is filtering once |
| Collections.SelectKeepsPairwise | meeting-room-booking/src/App.tsx:80 | a relation that holds between every earlier and later booking still holds after filtering |
| Collections.NotBeforeTransitive | src/components/BookingOverview.tsx:35-39 | the (date, start) comparator is a strict weak order, so sorting by it is well defined |
| Collections.Sort | src/components/BookingOverview.tsx:34-40 | sorting returns a permutation of the input in which no booking is followed by one that goes strictly before it |
| Collections.SelectKeepsSorted | src/components/BookingOverview.tsx:42-49 | filtering a sorted list leaves it sorted |
| Collections.ChronologicalWhenSorted | src/components/BookingOverview.tsx:34-40 | in a list sorted by date then start, a later booking is on a later date, or on the same date starting no earlier |
| Collections.IndexOf | meeting-room-booking/src/components/BookingForm.tsx:41 | the result is -1 exactly when the value is absent, and otherwise the first position holding it |
| Collections.GroupByKeys | src/components/BookingOverview.tsx:51-63 | the group-by opens one group per distinct key, in order of first occurrence |
| Collections.DistinctKeysInFirstOccurrenceOrder | src/components/BookingOverview.tsx:54-60 | the group keys are listed in the order their first bookings appear, each once |
| Collections.GroupByMembers | src/components/BookingOverview.tsx:54-60 | each group holds exactly the bookings with its key, in list order |
| Collections.GroupSizesSum | src/components/BookingOverview.tsx:51-63 | every booking lands in exactly one group, so group sizes add up to the list length |
| Collections.GroupCountBounds | src/components/BookingOverview.tsx:51-63 | there are never more groups than bookings, and no groups exactly when there are no bookings |
| Collections.SortedDistinct | src/components/BookingOverview.tsx:69 | the distinct values, strictly ascending, with exactly the members of the input |
| Collections.StrictlyIncreasingUnique | src/components/BookingOverview.tsx:69 | a strictly ascending list is determined by its members |
| MrbUtils.DoTimesOverlap | meeting-room-booking/src/utils/bookingUtils.ts:21-27 | ranges that only touch (one ends where the other starts) never overlap |
| MrbUtils.OverlapIffSharedMinute | meeting-room-booking/src/utils/bookingUtils.ts:10-28 | two non-empty ranges overlap exactly when some minute lies in both half-open ranges |
| MrbUtils.OverlapSymmetric | meeting-room-booking/src/utils/bookingUtils.ts:10-28 | swapping the two ranges does not change the answer |
| MrbUtils.FirstOverlapping | meeting-room-booking/src/utils/bookingUtils.ts:46-50 | the scan finds nothing exactly when no candidate overlaps, and otherwise returns a candidate that overlaps |
| MrbUtils.FirstOverlappingIsFirst | meeting-room-booking/src/utils/bookingUtils.ts:46-50 | the scan returns the first overlapping candidate in list order |
| MrbUtils.FindConflictingBooking | meeting-room-booking/src/utils/bookingUtils.ts:34-53 | returns null exactly when no booking has the room and date, an id other than the excluded one, and an overlapping range; otherwise returns such a booking |
| MrbUtils.FindConflictingBookingIsFirst | meeting-room-booking/src/utils/bookingUtils.ts:39-50 | the booking returned is the first conflicting one in list order |
| MrbUtils.ScanOfFilterIsFirstConflict | meeting-room-booking/src/utils/bookingUtils.ts:39-50 | filtering to room, date and exclusion and then scanning for an overlap finds the first conflict of the whole list |
| MrbUtils.IsValidTimeRange | meeting-room-booking/src/utils/bookingUtils.ts:58-65 | a range is valid exactly when the end string sorts after the start string, and never when they are equal |
| MrbUtils.ValidIffNonEmpty | meeting-room-booking/src/utils/bookingUtils.ts:58-65 | a range is valid exactly when it contains at least one minute |
| MrbUtils.GetBookingsForRoomAndDate | meeting-room-booking/src/utils/bookingUtils.ts:70-76 | exactly the bookings of that room on that date |
| MrbUtils.GetBookingsForDate | meeting-room-booking/src/utils/bookingUtils.ts:81-83 | exactly the bookings on that date |
| MrbUtils.DisplayHour | meeting-room-booking/src/utils/bookingUtils.ts:91 | the 12-hour clock hour lies between 1 and 12 and agrees with the hour modulo 12 |
| MrbUtils.FormatTimeDisplay | meeting-room-booking/src/utils/bookingUtils.ts:88-93 | the text ends in "PM" exactly when the hour is 12 or later and in "AM" otherwise; its length is the unpadded hour's plus six |
| MrbUtils.FormatTimeDisplayParts | meeting-room-booking/src/utils/bookingUtils.ts:92 | the display text is the unpadded 12-hour hour, a colon, the two-digit minutes, a space and the period |
| MrbUtils.FormatTimeDisplayInjective | meeting-room-booking/src/utils/bookingUtils.ts:88-93 | on a 24-hour clock two different times never show the same text |
| MrbUtils.GetNextSlot | meeting-room-booking/src/utils/bookingUtils.ts:123-129 | the next slot is exactly thirty minutes later |
| MrbUtils.GetAvailableSlots | meeting-room-booking/src/utils/bookingUtils.ts:98-118 | one record per slot, in order, with the slot copied; a slot is available exactly when it has no booking, and its booking is the first conflict of the half-hour request in that room and date |
| MrbUtils.AvailableIffNoOverlap | meeting-room-booking/src/utils/bookingUtils.ts:104-117 | a slot is available exactly when no booking of that room and date overlaps the half hour it starts |
| SrcUtils.HasTimeOverlap | src/utils/bookingUtils.ts:6-22 | different dates never overlap; on the same date the answer is the half-open overlap of the two ranges |
| SrcUtils.HasTimeOverlapSymmetric | src/utils/bookingUtils.ts:6-22 | swapping the two arguments does not change the answer |
| SrcUtils.SomeOverlap | src/utils/bookingUtils.ts:46 | some booking of the list overlaps the request on its date |
| SrcUtils.HasBookingConflict | src/utils/bookingUtils.ts:35-47 | some booking has the same room, an id other than the excluded one, the same date and an overlapping range |
| SrcUtils.RoomScanIsConflict | src/utils/bookingUtils.ts:40-46 | scanning the room's other bookings with the date-aware overlap test finds a conflict exactly when one exists in the whole list |
| SrcUtils.ConflictChecksAgree | src/utils/bookingUtils.ts:35-47 | this tree's conflict check holds exactly when the other tree's `findConflictingBooking` finds a booking |
| SrcUtils.IsValidTimeRange | src/utils/bookingUtils.ts:52-54 | the same test as the other tree's, and the same as string order on the two times |
| SrcUtils.GenerateTimeSlots | src/utils/bookingUtils.ts:66-81 | the two nested loops push each hour's times and then the closing hour, building exactly the list the three lemmas below describe |
| SrcUtils.PushHour | src/utils/bookingUtils.ts:73-76 | the inner loop pushes the hour's times every `interval` minutes from :00 |
| SrcUtils.TimeSlotsCount | src/utils/bookingUtils.ts:66-81 | the list has (endHour - startHour) times the number of steps per hour, plus one entry |
| SrcUtils.TimeSlotsMembers | src/utils/bookingUtils.ts:66-81 | a time is in the list exactly when it is endHour:00, or its hour is in [startHour, endHour) and its minute is a multiple of the interval |
| SrcUtils.TimeSlotsAscending | src/utils/bookingUtils.ts:66-81 | the list is strictly increasing, so it has no repeats |
| SrcUtils.MinuteSlotsStep | src/utils/bookingUtils.ts:73-76 | one pass of the inner loop moves one time from the pending part to the output |
| SrcUtils.DefaultTimeSlotsEnds | src/utils/bookingUtils.ts:66-69 | the default call gives 21 times, from 08:00 to 18:00 |
| SrcUtils.DefaultSlotsExtendMockSlots | src/utils/bookingUtils.ts:66-81 | the default list is the other tree's 20 half-hour slots followed by "18:00" |
| MrbMockData.HalfHoursFrom | meeting-room-booking/src/data/mockData.ts:50-53 | from hour h the loop pushes two slots per hour, the i-th of them 30 * i minutes after h:00 |
| MrbMockData.GenerateTimeSlots | meeting-room-booking/src/data/mockData.ts:48-55 | exactly 20 slots, the i-th 30 * i minutes after 08:00, so the list runs from 08:00 to 17:30 |
| MrbMockData.SlotsAscendingWithinDay | meeting-room-booking/src/data/mockData.ts:48-55 | the slots are strictly increasing and all lie before 18:00, so "18:00" is not one of them |
| SrcApp.Overlaps | src/App.tsx:33-41 | same room, same date and overlapping half-open ranges |
| SrcApp.OverlapsSymmetric | src/App.tsx:33-41 | swapping the two bookings does not change the answer |
| SrcApp.InitialForm | src/App.tsx:55-63 | the form opens as "New Booking" in the first room, on today, from 10:00 to 11:00 |
| SrcApp.StoredTitle | src/App.tsx:97 | a blank title is stored as "Untitled Meeting"; any other title is stored trimmed |
| SrcApp.AnyOverlap | src/App.tsx:108 | some stored booking overlaps the new one |
| SrcApp.HandleSubmit | src/App.tsx:89-119 | an empty or inverted range is rejected first, then an overlap; either way the store is unchanged. Otherwise the booking is appended, its room and date are selected and the title is reset |
| SrcApp.SubmitAppendsOrKeeps | src/App.tsx:103-114 | a submission either leaves the store as it was, or appends exactly one booking with the new id and keeps the earlier ones in order |
| SrcApp.SubmitPreservesNonOverlapping | src/App.tsx:103-114 | if no two stored bookings overlap before a submission, none do afterwards |
| SrcApp.SubmitPreservesValidRanges | src/App.tsx:103-114 | every stored booking keeps a non-empty range |
| SrcApp.GroupedByDate | src/App.tsx:73-78 | a date has an entry exactly when some booking is on it, and the entry holds exactly that date's bookings in list order |
| SrcApp.GroupedByDateStep | src/App.tsx:74-76 | one step of the reduce keeps the map equal to the per-date filters of the bookings seen so far |
| SrcApp.RoomSchedule | src/App.tsx:82-84 | one room's bookings, each as often as in the list, ascending by start minutes |
| SrcApp.GroupedByRoom | src/App.tsx:80-87 | one entry per room id, holding that room's schedule |
| SrcApp.GroupedByRoomEntries | src/App.tsx:80-87 | each entry holds exactly the room's bookings, as a permutation of the room's filter, sorted by start time |
| SrcCalendar.DayBookings | src/components/BookingCalendar.tsx:24-28 | exactly the room's bookings on the date, each as often as in the list, ascending by start minutes |
| SrcCalendar.HoldingFrom | src/components/BookingCalendar.tsx:33-40 | the first position from i on whose booking contains the slot's starting minute |
| SrcCalendar.FirstHolding | src/components/BookingCalendar.tsx:30-43 | nothing is found exactly when no booking contains the slot's starting minute; otherwise a booking that does |
| SrcCalendar.FirstHoldingIsFirst | src/components/BookingCalendar.tsx:33-40 | the booking found is the first one in list order that contains the slot |
| SrcCalendar.IsTimeSlotBooked | src/components/BookingCalendar.tsx:30-43 | the early-return loop returns the first booking with start <= slot < end, or null |
| SrcCalendar.Cells | src/components/BookingCalendar.tsx:94-97 | one row per slot except the last, each labelled with its slot and the next one |
| SrcCalendar.CellFor | src/components/BookingCalendar.tsx:94-97 | a row shows the first booking holding its slot, and is marked as a start exactly when that booking's start string equals the slot |
| SrcCalendar.CellBookedIffHeld | src/components/BookingCalendar.tsx:94-96 | a row is booked exactly when some booking of the room and date has start <= slot < end, so a booking ending at the slot does not mark it |
| SrcCalendar.GridAlignedHoldIffOverlap | src/components/BookingCalendar.tsx:37 | on the half-hour grid, the starting-minute test agrees with the overlap test on the cell's half hour |
| SrcCalendar.OffGridBookingMissed | src/components/BookingCalendar.tsx:37 | off the grid they differ: a 09:15-09:45 booking overlaps the 09:00 cell but does not hold it |
| SrcCalendar.ShowsSummary | src/components/BookingCalendar.tsx:126 | the summary list is shown exactly when the room has a booking on that date |
| SrcForm.InitialState | src/components/BookingForm.tsx:21-29 | the form opens with no errors, on the selected room (else the first room, else none), untitled, on today, from 09:00 to 10:00 |
| SrcForm.ValidateForm | src/components/BookingForm.tsx:45-66 | each of the five checks runs independently, and its key is recorded exactly when it fails |
| SrcForm.Collect | src/components/BookingForm.tsx:46-66 | a key is recorded exactly when its check failed |
| SrcForm.ValidIffAllChecksPass | src/components/BookingForm.tsx:45-70 | the form is valid exactly when the title is not blank, the room and date are set, the range is non-empty and no booking conflicts |
| SrcForm.InvertedRequestConflicts | src/components/BookingForm.tsx:60-66 | an inverted range can still overlap a stored booking under the half-open test |
| SrcForm.InvertedRangeCanAlsoConflict | src/components/BookingForm.tsx:60-66 | such a request is reported under both the time key and the conflict key |
| SrcForm.HandleSubmit | src/components/BookingForm.tsx:72-78 | the errors become those of validation, and the unchanged data is handed on exactly when there are none |
| SrcForm.HandleChange | src/components/BookingForm.tsx:33-43 | only the edited field changes, and only the error stored under that field's name is removed |
| SrcForm.EditClearsOwnField | src/components/BookingForm.tsx:33-43 | editing the title, room or date clears that field's error and leaves every other error as it was |
| SrcForm.TimeAndConflictErrorsSurviveEdits | src/components/BookingForm.tsx:33-43 | no edit clears the time or conflict error, since neither is keyed by a field name |
| SrcForm.TimeOptions | src/components/BookingForm.tsx:31 | both time selects offer the 21 half hours from 08:00 to 18:00, ascending |
| MrbForm.IncrementTime | meeting-room-booking/src/components/BookingForm.tsx:209-217 | as written: the hour of the sum is capped at 18 while the minutes of the sum are kept |
| MrbForm.IncrementTimeCapped | meeting-room-booking/src/components/BookingForm.tsx:209-217 | the corrected version: the sum, but never later than 18:00 |
| MrbForm.IncrementVersionsAgreeWithinDay | meeting-room-booking/src/components/BookingForm.tsx:209-217 | the two versions agree whenever the sum does not pass 18:00 |
| MrbForm.IncrementTimeOvershootsLastSlot | meeting-room-booking/src/components/BookingForm.tsx:209-217 | as written, 17:30 plus an hour is "18:30": past the end of the day and not an offered end time |
| MrbForm.GridIsSlots | meeting-room-booking/src/components/BookingForm.tsx:37 | the half-hour grid the operations require of their slot list holds of the generated slots and of no other list |
| MrbForm.GridIndex | meeting-room-booking/src/components/BookingForm.tsx:41 | on the grid, a time's slot index is determined by its minute value |
| MrbForm.EndTimeOptions | meeting-room-booking/src/components/BookingForm.tsx:40-44 | when the start is not a slot, every slot but the first is offered; otherwise the list ends in "18:00" |
| MrbForm.EndOptionsAfterStart | meeting-room-booking/src/components/BookingForm.tsx:40-44 | for a start slot, the options are exactly the later slots and 18:00, and each makes a valid range with the start |
| MrbForm.PastDayEndNotOffered | meeting-room-booking/src/components/BookingForm.tsx:40-44 | no end option of a start slot lies past 18:00 |
| MrbForm.LaterSlotIsOffered | meeting-room-booking/src/components/BookingForm.tsx:43 | every slot after the start's index is offered as an end |
| MrbForm.HandleChange | meeting-room-booking/src/components/BookingForm.tsx:46-65 | the banner is cleared and the changed field is stored; a new start moves the end only to one hour later, capped at 18:00 |
| MrbForm.HandleChangeAsWritten | meeting-room-booking/src/components/BookingForm.tsx:46-65 | `handleChange` with the end moved by `incrementTime` as written: it agrees with `HandleChange` except for a new start after 17:00, and even then differs only in the end time |
| MrbForm.AsWrittenLastStartOvershoots | meeting-room-booking/src/components/BookingForm.tsx:54-59 | as written, choosing the start 17:30 moves the end to "18:30" whatever the end was, and "18:30" is not an offered end |
| MrbForm.StartChangeKeepsLaterEnd | meeting-room-booking/src/components/BookingForm.tsx:54-59 | a new start slot keeps an end slot that is still later than it |
| MrbForm.StartChangeResetsDayEnd | meeting-room-booking/src/components/BookingForm.tsx:54-59 | an end of 18:00 has index -1, so every new start slot resets it to one hour after the start |
| MrbForm.StartChangeEndIsOffered | meeting-room-booking/src/components/BookingForm.tsx:54-59 | after choosing a start slot, the end is one of the options offered for it, so the range is valid |
| MrbForm.OfferedIsValid | meeting-room-booking/src/components/BookingForm.tsx:40-44 | every end option of a start slot makes a valid range with it |
| MrbForm.HourLaterIsOffered | meeting-room-booking/src/components/BookingForm.tsx:43 | one hour after a start slot, capped at 18:00, is always an offered end |
| MrbForm.InitialFormData | meeting-room-booking/src/components/BookingForm.tsx:25-33 | the supplied room (else the first room), the supplied date (else today), and the supplied start with an end one hour later (else 09:00 to 10:00) |
| MrbForm.InitialFormDataAsWritten | meeting-room-booking/src/components/BookingForm.tsx:25-33 | the initial form with `incrementTime` as written: it agrees with `InitialFormData` except for a supplied start after 17:00, and even then differs only in the end time |
| MrbForm.AsWrittenFormSubmitsPastDayEnd | meeting-room-booking/src/components/BookingForm.tsx:25-94 | as written, the form opened on 17:30 in a room free that day, once titled, submits 17:30 to "18:30": past 18:00 and not an offered end |
| MrbForm.HandleSubmit | meeting-room-booking/src/components/BookingForm.tsx:67-94 | a blank title is reported first, then an invalid range; data handed on is the form data unchanged |
| MrbForm.SubmitAcceptsIffChecksPass | meeting-room-booking/src/components/BookingForm.tsx:67-94 | the data is handed on exactly when the title is not blank, the range is non-empty and no booking of the room and date overlaps it |
| MrbForm.ConflictNamesFirstConflict | meeting-room-booking/src/components/BookingForm.tsx:83-91 | a conflict is reported with the first conflicting booking in list order |
| MrbForm.ReportsOnlyFirstFailure | meeting-room-booking/src/components/BookingForm.tsx:70-91 | an inverted range that also overlaps a stored booking is reported only for its time order |
| MrbTimeSlotView.Run | meeting-room-booking/src/components/TimeSlotView.tsx:45-50 | the longest prefix held by the booking: every record in it carries the id and the next one does not |
| MrbTimeSlotView.RunUnique | meeting-room-booking/src/components/TimeSlotView.tsx:45-50 | the run length is the only prefix length held by the id that cannot be extended |
| MrbTimeSlotView.Step | meeting-room-booking/src/components/TimeSlotView.tsx:41-62 | each entry stands for at least one record and at most the rest, so the loop moves forward |
| MrbTimeSlotView.Render | meeting-room-booking/src/components/TimeSlotView.tsx:37-64 | never more entries than records; a non-empty list starts with the entry for its first record |
| MrbTimeSlotView.RenderExpandsToIds | meeting-room-booking/src/components/TimeSlotView.tsx:37-64 | expanding every entry into as many slots as it spans gives back the records' booking ids, so every record is covered once, in order |
| MrbTimeSlotView.RenderRunsMaximal | meeting-room-booking/src/components/TimeSlotView.tsx:45-49 | two neighbouring entries never belong to the same booking |
| MrbTimeSlotView.RenderCopiesStartSlot | meeting-room-booking/src/components/TimeSlotView.tsx:52-62 | each entry copies the record it starts at, and has a span, at least one, exactly when that record is booked |
| MrbTimeSlotView.RenderSlots | meeting-room-booking/src/components/TimeSlotView.tsx:28-67 | the nested while loops produce exactly the entries `Render` describes |
| MrbTimeSlotView.NextEntry | meeting-room-booking/src/components/TimeSlotView.tsx:39-62 | one pass of the outer loop draws the entry for the current record and skips the records it spans |
| MrbTimeSlotView.SpanFrom | meeting-room-booking/src/components/TimeSlotView.tsx:43-50 | the inner loop counts the record and the run of following records with the same booking id |
| MrbTimeSlotView.MockSlotsFit | meeting-room-booking/src/components/TimeSlotView.tsx:21 | every generated slot has a successor thirty minutes later |
| MrbTimeSlotView.Click | meeting-room-booking/src/components/TimeSlotView.tsx:119 | a click reports the entry's slot exactly when the entry is free |
| MrbTimeSlotView.ClickOffersOnlyFreeSlots | meeting-room-booking/src/components/TimeSlotView.tsx:21-25 | a click on a drawn entry opens the form exactly when no booking of that room and date overlaps the half hour starting there |
| MrbOverview.InitialState | meeting-room-booking/src/components/BookingOverview.tsx:18-22 | the overview opens on the date tab, on today, with the first room (or none) selected |
| MrbOverview.FilteredBookings | meeting-room-booking/src/components/BookingOverview.tsx:24-30 | the date tab keeps exactly the day's bookings and the room tab exactly the room's, in list order |
| MrbOverview.SortedBookings | meeting-room-booking/src/components/BookingOverview.tsx:47-53 | a permutation of the tab's bookings, sorted by date then start time |
| MrbOverview.BookingsByRoom | meeting-room-booking/src/components/BookingOverview.tsx:57 | there are no sections on the room tab |
| MrbOverview.TotalCountsMatches | meeting-room-booking/src/components/BookingOverview.tsx:124 | the total counts every booking the tab lets through, and the empty state shows exactly when none does |
| MrbOverview.SectionsPartitionDay | meeting-room-booking/src/components/BookingOverview.tsx:56-65 | on the date tab the room sections partition the sorted bookings: each holds exactly its room's bookings in start-time order, rooms are distinct, and sizes add up to the total |
| MrbOverview.SameDayByStart | meeting-room-booking/src/components/BookingOverview.tsx:47-53 | any filtered part of one date's sorted bookings is in start-time order |
| SrcOverview.SortedBookings | src/components/BookingOverview.tsx:34-40 | a permutation of all bookings, sorted by date then start time |
| SrcOverview.FilteredBookings | src/components/BookingOverview.tsx:42-49 | the "all" filter keeps every booking; any other value keeps exactly the bookings whose room or date (by mode) equals it; the result stays sorted |
| SrcOverview.GroupsPartitionFiltered | src/components/BookingOverview.tsx:51-63 | each group holds exactly the filtered bookings with its key, in sorted order; keys are distinct; group sizes add up to the filtered count |
| SrcOverview.DateGroupsAscending | src/components/BookingOverview.tsx:34-63 | grouped by date, the groups come out in ascending date order |
| SrcOverview.SpecificFilterOneGroup | src/components/BookingOverview.tsx:42-63 | a specific filter value leaves at most one group, keyed by that value |
| SrcOverview.Dates | src/components/BookingOverview.tsx:69 | the dates that occur in the bookings |
| SrcOverview.FilterOptions | src/components/BookingOverview.tsx:65-72 | grouping by room offers the room ids in room order; grouping by date offers the distinct booking dates, ascending |
| SrcOverview.DateOptionsUnique | src/components/BookingOverview.tsx:69 | the date options are the only ascending, repeat-free list of the booked dates |
| SrcOverview.SetGroupBy | src/components/BookingOverview.tsx:82-85 | changing the grouping sets it and resets the filter to "all" |
| SrcOverview.SetFilter | src/components/BookingOverview.tsx:94 | changing the filter keeps the grouping |
| SrcOverview.SwitchingGroupingShowsAll | src/components/BookingOverview.tsx:82-85 | after switching the grouping every booking is shown again, spread over the groups |
| SrcOverview.StatsAgree | src/components/BookingOverview.tsx:107-123 | there are never more groups than bookings, and "No bookings found" shows exactly when no booking passes the filter |
| SrcOverview.RoomNamedAllShowsEverything | src/components/BookingOverview.tsx:43 | a room whose id is "all" cannot be selected on its own: choosing it shows every booking |
| MrbApp.InitialState | meeting-room-booking/src/App.tsx:14-25 | the app starts with the seed bookings on the room list, with no room, on today, and an empty form context |
| MrbApp.Navigate | meeting-room-booking/src/App.tsx:28-34 | sets the view and clears the form context unless the target is the form |
| MrbApp.SelectRoom | meeting-room-booking/src/App.tsx:37-40 | remembers the room and opens the calendar |
| MrbApp.ChangeDate | meeting-room-booking/src/App.tsx:58-60 | changes only the selected date |
| MrbApp.SlotClick | meeting-room-booking/src/App.tsx:43-55 | without a room nothing changes; with one, the form opens on the room, the selected date and the clicked time |
| MrbApp.CreateBooking | meeting-room-booking/src/App.tsx:63-76 | appends exactly one booking copied from the form data under the new id, keeps the earlier ones, clears the context and shows the overview |
| MrbApp.DeleteBooking | meeting-room-booking/src/App.tsx:79-81 | keeps exactly the bookings without the id, and changes nothing else |
| MrbApp.CancelBooking | meeting-room-booking/src/App.tsx:84-91 | clears the context and returns to the calendar, or to the room list when no room is selected |
| MrbApp.DeleteUnknownIdKeepsStore | meeting-room-booking/src/App.tsx:79-81 | deleting an id nobody carries leaves the state as it was |
| MrbApp.DeleteIdempotent | meeting-room-booking/src/App.tsx:79-81 | deleting twice is deleting once, and afterwards no booking carries the id |
| MrbApp.DeleteUndoesCreate | meeting-room-booking/src/App.tsx:63-81 | creating a booking under a fresh id and deleting that id gives back the earlier store |
| MrbApp.StoreKeepsUniqueIds | meeting-room-booking/src/App.tsx:63-81 | creating under a fresh id, and any deletion, keep every id distinct |
| MrbApp.AcceptedSubmitKeepsStoreConflictFree | meeting-room-booking/src/App.tsx:63-73 | when the form accepts the data against the current store, creating the booking keeps the store free of clashes |
| MrbApp.DeleteKeepsStoreConflictFree | meeting-room-booking/src/App.tsx:79-81 | deleting keeps the store free of clashes |
| MrbApp.CreateDoesNotValidate | meeting-room-booking/src/App.tsx:63-73 | the create handler appends even a booking that clashes with a stored one |
| MrbApp.SlotClickOpensFormOnSlot | meeting-room-booking/src/App.tsx:43-55 | clicking a slot of the selected room opens the form on that room, date and time, one hour long |
| MrbApp.AsWrittenSlotClickStoresPastDayEnd | meeting-room-booking/src/App.tsx:43-76 | as written, clicking the free 17:30 slot, giving a title and submitting appends a booking that ends at "18:30", after the end of the day |
| MrbApp.SlotClickThenCancel | meeting-room-booking/src/App.tsx:84-91 | opening the form from a slot and cancelling returns to the same calendar with nothing else changed |

## Left out

- `formatTime` (src/utils/bookingUtils.ts:59-61) returns its argument unchanged. The model uses the time strings directly.
- Dates and ids come from the clock and from random sources, so they are parameters. This covers `today`, `shiftDay`, `new Date()` defaults, `makeId` and `generateId`. Lemmas that need a new id to be fresh say so in a precondition.
- Calendar text is rendering and depends on the locale: `getNextDays`, every `formatDate`, `getRoomName` and the hour labels.
- Pixel geometry uses floating point: `renderBookingBlocks` in src/App.tsx.
- The JSX, the style objects, `Navigation`, both `RoomList` components and the `renderView` switch of meeting-room-booking/src/App.tsx are presentation only.
- Times that do not parse (the source would compute NaN) are outside `Times.TimeStr`. The type admits hours up to 99, so it covers every time the slot lists and `incrementTime` produce.
- MrbUtils.GetNextSlot: requires the next slot to stay below hour 100, since a time has two hour digits. Every slot list in the source ends by 18:00.
- MrbUtils.GetAvailableSlots: requires every slot to have such a successor, for the same reason.
- `localeCompare` is modelled as code-unit lexicographic order. Its locale collation is out of scope, and all the strings it compares are zero-padded ASCII dates and times.
- Sort stability is not stated as a property. The insertion sort is stable like `Array.prototype.sort`, but no lemma relies on the order of equal keys.
- MrbOverview.BookingsByRoom: sections follow first-occurrence order. `Object.entries` lists integer-like keys (a room id such as "7") first, in ascending order, and that exception is not modelled.
- `SrcApp.GroupedByDate` is a map, so the render-time ordering of its entries (src/App.tsx:300-306) is not modelled. The same holds for its per-date `sort`, which sorts the stored arrays in place.
- Two src/App.tsx pieces are not modelled: `bookingsForSelection` (src/App.tsx:68-71), which is `MrbUtils.GetBookingsForRoomAndDate` in all but name, and `handleFormChange`, which sets one form field.
- MrbForm.InitialFormData: computes the end with the corrected `IncrementTimeCapped`. The as-written `incrementTime` gives "18:30" for a start of 17:30; `MrbForm.InitialFormDataAsWritten` models that, and Findings records it.
- MrbForm.HandleChange: moves the end with the corrected `IncrementTimeCapped`. `MrbForm.HandleChangeAsWritten` models the code as written.
- SrcUtils.GenerateTimeSlots: requires `intervalMinutes > 0` and `endHour < 100`. The inner loop of src/utils/bookingUtils.ts:72-73 never ends when the interval is zero or negative and `startHour < endHour`, and an end hour of 100 or more would print three hour digits. Neither case is reachable: both callers pass (8, 18, 30), at src/components/BookingCalendar.tsx:22 and src/components/BookingForm.tsx:31. The source does not guard the interval, so a future caller passing 0 would hang the page; the model does not cover that non-terminating run.
- `SrcForm.Errors` is a set of keys. The component's record holds `Message(k)` under each key `k`, so the key set determines it.
- Room capacity is carried in `Types.Room`. It is never checked by the source either.
- The seed rooms and bookings of both trees are data, used only as concrete values in counterexample lemmas.

## Findings

| source | as written | input that shows it | evidently intended | confidence | as-written member | corrected member |
|---|---|---|---|---|---|---|
| meeting-room-booking/src/components/BookingForm.tsx:209-217 | `incrementTime` caps the hour at 18 but keeps the minutes of the sum | the free 17:30 slot opens the form with the end "18:30", as does choosing the start "17:30". That end is past the working day and not among the offered end options, which end at "18:00", yet the submit handler accepts it | cap the whole time at 18:00, so the default end is always an offered option | not executed | MrbForm.AsWrittenFormSubmitsPastDayEnd | MrbForm.StartChangeEndIsOffered |
