/**
 * The conflict and availability helpers of meeting-room-booking/src/utils/bookingUtils.ts.
 * Ranges are half-open: a booking from 09:00 to 10:00 and one from 10:00 to
 * 11:00 only touch and do not overlap.
 */
module MrbUtils {
  import Text
  import opened Times
  import opened Types
  import opened Collections

  /** Minute `m` lies in the half-open range [start, end). */
  predicate Covers(start: TimeStr, end: TimeStr, m: int) {
    Minutes(start) <= m < Minutes(end)
  }

  /** `doTimesOverlap`: neither range ends before the other starts. */
  function DoTimesOverlap(start1: TimeStr, end1: TimeStr, start2: TimeStr, end2: TimeStr): (r: bool)
    ensures Minutes(end1) == Minutes(start2) ==> !r
    ensures Minutes(end2) == Minutes(start1) ==> !r
  {
    !(Minutes(end1) <= Minutes(start2) || Minutes(end2) <= Minutes(start1))
  }

  /** Two non-empty ranges overlap exactly when some minute lies in both. */
  lemma OverlapIffSharedMinute(start1: TimeStr, end1: TimeStr, start2: TimeStr, end2: TimeStr)
    requires Minutes(start1) < Minutes(end1) && Minutes(start2) < Minutes(end2)
    ensures DoTimesOverlap(start1, end1, start2, end2)
        <==> exists m :: Covers(start1, end1, m) && Covers(start2, end2, m)
  {
    if DoTimesOverlap(start1, end1, start2, end2) {
      var m := if Minutes(start1) < Minutes(start2) then Minutes(start2) else Minutes(start1);
      assert Covers(start1, end1, m) && Covers(start2, end2, m);
    }
  }

  lemma OverlapSymmetric(start1: TimeStr, end1: TimeStr, start2: TimeStr, end2: TimeStr)
    ensures DoTimesOverlap(start1, end1, start2, end2) == DoTimesOverlap(start2, end2, start1, end1)
  {
  }

  /** The `for ... of` scan: the first booking of the list whose range overlaps [start, end). */
  function FirstOverlapping(start: TimeStr, end: TimeStr, candidates: seq<Booking>): (r: Option<Booking>)
    ensures r.None? <==> forall i :: 0 <= i < |candidates| ==>
      !DoTimesOverlap(start, end, candidates[i].startTime, candidates[i].endTime)
    ensures r.Some? ==> r.value in candidates && DoTimesOverlap(start, end, r.value.startTime, r.value.endTime)
  {
    if |candidates| == 0 then None
    else if DoTimesOverlap(start, end, candidates[0].startTime, candidates[0].endTime) then Some(candidates[0])
    else
      var r := FirstOverlapping(start, end, candidates[1..]);
      assert forall i :: 1 <= i < |candidates| ==> candidates[i] == candidates[1..][i - 1];
      r
  }

  /** The scan stops at the first overlapping booking: any earlier one would have been returned. */
  lemma {:induction false} FirstOverlappingIsFirst(start: TimeStr, end: TimeStr, candidates: seq<Booking>, k: nat)
    requires k < |candidates| && DoTimesOverlap(start, end, candidates[k].startTime, candidates[k].endTime)
    requires forall j :: 0 <= j < k ==> !DoTimesOverlap(start, end, candidates[j].startTime, candidates[j].endTime)
    ensures FirstOverlapping(start, end, candidates) == Some(candidates[k])
  {
    if k > 0 {
      var rest := candidates[1..];
      assert forall j :: 0 <= j < k - 1 ==> rest[j] == candidates[j + 1];
      FirstOverlappingIsFirst(start, end, rest, k - 1);
    }
  }

  /** `b` is a conflict for the request: same room, same date, not excluded, overlapping. */
  predicate ConflictsWith(request: BookingFormData, b: Booking, exclude: Option<string>) {
    && b.roomId == request.roomId
    && b.date == request.date
    && NotExcluded(b, exclude)
    && DoTimesOverlap(request.startTime, request.endTime, b.startTime, b.endTime)
  }

  /** The same-room, same-date, not-excluded bookings, in list order. */
  function ConflictScope(request: BookingFormData, existing: seq<Booking>, exclude: Option<string>): seq<Booking> {
    Select(existing, OthersInRoomOnDate(request.roomId, request.date, exclude))
  }

  /** The first booking of `s`, in list order, that conflicts with the request. */
  function FirstConflict(request: BookingFormData, s: seq<Booking>, exclude: Option<string>): (r: Option<Booking>)
    ensures r.None? <==> forall i :: 0 <= i < |s| ==> !ConflictsWith(request, s[i], exclude)
    ensures r.Some? ==> r.value in s && ConflictsWith(request, r.value, exclude)
  {
    if |s| == 0 then None
    else if ConflictsWith(request, s[0], exclude) then Some(s[0])
    else
      var r := FirstConflict(request, s[1..], exclude);
      assert forall i :: 1 <= i < |s| ==> s[i] == s[1..][i - 1];
      r
  }

  /** No booking before the one returned conflicts: the first conflict in list order is the one reported. */
  lemma {:induction false} FirstConflictIsFirst(request: BookingFormData, s: seq<Booking>, exclude: Option<string>, k: nat)
    requires k < |s| && ConflictsWith(request, s[k], exclude)
    requires forall j :: 0 <= j < k ==> !ConflictsWith(request, s[j], exclude)
    ensures FirstConflict(request, s, exclude) == Some(s[k])
  {
    if k > 0 {
      var rest := s[1..];
      assert forall j :: 0 <= j < k - 1 ==> rest[j] == s[j + 1];
      FirstConflictIsFirst(request, rest, exclude, k - 1);
    }
  }

  /**
   * `findConflictingBooking`: a booking of `existing` that conflicts with the
   * request, or none exactly when nothing conflicts; which one is fixed by
   * `FindConflictingBookingIsFirst`.
   */
  function FindConflictingBooking(request: BookingFormData, existing: seq<Booking>, exclude: Option<string>): (r: Option<Booking>)
    ensures r.None? <==> forall i :: 0 <= i < |existing| ==> !ConflictsWith(request, existing[i], exclude)
    ensures r.Some? ==> r.value in existing && ConflictsWith(request, r.value, exclude)
  {
    ScanOfFilterIsFirstConflict(request, existing, exclude);
    FirstOverlapping(request.startTime, request.endTime, ConflictScope(request, existing, exclude))
  }

  /** The booking reported is the first conflicting one in list order. */
  lemma FindConflictingBookingIsFirst(request: BookingFormData, existing: seq<Booking>, exclude: Option<string>, k: nat)
    requires k < |existing| && ConflictsWith(request, existing[k], exclude)
    requires forall j :: 0 <= j < k ==> !ConflictsWith(request, existing[j], exclude)
    ensures FindConflictingBooking(request, existing, exclude) == Some(existing[k])
  {
    ScanOfFilterIsFirstConflict(request, existing, exclude);
    FirstConflictIsFirst(request, existing, exclude, k);
  }

  /** Filtering to the room and date first and then scanning for an overlap finds the first conflict. */
  lemma {:induction false} ScanOfFilterIsFirstConflict(request: BookingFormData, s: seq<Booking>, exclude: Option<string>)
    ensures FirstOverlapping(request.startTime, request.endTime, ConflictScope(request, s, exclude))
         == FirstConflict(request, s, exclude)
  {
    if |s| > 0 {
      var c := OthersInRoomOnDate(request.roomId, request.date, exclude);
      var rest := ConflictScope(request, s[1..], exclude);
      ScanOfFilterIsFirstConflict(request, s[1..], exclude);
      if Matches(s[0], c) {
        var scope := [s[0]] + rest;
        assert ConflictScope(request, s, exclude) == scope;
        assert scope[0] == s[0] && scope[1..] == rest;
      } else {
        assert ConflictScope(request, s, exclude) == rest;
      }
    }
  }

  /** `isValidTimeRange`: the end is strictly later than the start. */
  function IsValidTimeRange(startTime: TimeStr, endTime: TimeStr): (r: bool)
    ensures r <==> Text.LexLess(startTime, endTime)
    ensures startTime == endTime ==> !r
  {
    LexLessIsEarlier(startTime, endTime);
    Minutes(endTime) > Minutes(startTime)
  }

  /** A range is valid exactly when it contains at least one minute. */
  lemma ValidIffNonEmpty(startTime: TimeStr, endTime: TimeStr)
    ensures IsValidTimeRange(startTime, endTime) <==> exists m :: Covers(startTime, endTime, m)
  {
    if IsValidTimeRange(startTime, endTime) {
      assert Covers(startTime, endTime, Minutes(startTime));
    }
  }

  /** `getBookingsForRoomAndDate`. */
  function GetBookingsForRoomAndDate(roomId: string, date: string, bookings: seq<Booking>): (r: seq<Booking>)
    ensures forall b :: b in r <==> b in bookings && b.roomId == roomId && b.date == date
  {
    Select(bookings, InRoomOnDate(roomId, date))
  }

  /** `getBookingsForDate`. */
  function GetBookingsForDate(date: string, bookings: seq<Booking>): (r: seq<Booking>)
    ensures forall b :: b in r <==> b in bookings && b.date == date
  {
    Select(bookings, KeyIs(DateField, date))
  }

  /** `hours % 12 || 12`: the 12-hour clock hour. */
  function DisplayHour(h: nat): (d: nat)
    ensures 1 <= d <= 12 && d % 12 == h % 12
  {
    if h % 12 == 0 then 12 else h % 12
  }

  function Period(h: nat): string {
    if h >= 12 then "PM" else "AM"
  }

  /** `formatTimeDisplay`: "9:00 AM", "12:30 PM", "1:05 PM". */
  function FormatTimeDisplay(t: TimeStr): (s: string)
    ensures |s| == |Unpadded(DisplayHour(Hour(t)))| + 6
    ensures s[|s| - 2..] == "PM" <==> Hour(t) >= 12
    ensures s[|s| - 2..] == "AM" <==> Hour(t) < 12
  {
    Unpadded(DisplayHour(Hour(t))) + ":" + Pad2(Minute(t)) + " " + Period(Hour(t))
  }

  lemma UnpaddedInjective(a: nat, b: nat)
    requires a < 100 && b < 100 && Unpadded(a) == Unpadded(b)
    ensures a == b
  {
    if a >= 10 {
      assert Pad2(a) == Pad2(b);
    }
  }

  /** Below 24, the 12-hour clock hour and the half of the day give back the hour. */
  lemma DisplayHourInjective(x: nat, y: nat)
    requires x < 24 && y < 24
    requires DisplayHour(x) == DisplayHour(y) && Period(x) == Period(y)
    ensures x == y
  {
    assert x >= 12 <==> y >= 12 by {
      assert "PM" != "AM" by { assert "PM"[0] != "AM"[0]; }
    }
  }

  /** Where the three fields sit in the display string. */
  lemma FormatTimeDisplayParts(t: TimeStr)
    ensures var s, u := FormatTimeDisplay(t), Unpadded(DisplayHour(Hour(t)));
      && s[..|u|] == u && s[|u| + 1..|u| + 3] == Pad2(Minute(t)) && s[|u| + 4..] == Period(Hour(t))
  {
  }

  /**
   * On a 24-hour clock the display string determines the time: two different
   * times never show the same text.
   */
  lemma FormatTimeDisplayInjective(a: TimeStr, b: TimeStr)
    requires Hour(a) < 24 && Hour(b) < 24
    requires FormatTimeDisplay(a) == FormatTimeDisplay(b)
    ensures a == b
  {
    FormatTimeDisplayParts(a);
    FormatTimeDisplayParts(b);
    var ua, ub := Unpadded(DisplayHour(Hour(a))), Unpadded(DisplayHour(Hour(b)));
    assert |ua| == |ub|;
    UnpaddedInjective(DisplayHour(Hour(a)), DisplayHour(Hour(b)));
    var pa, pb := Pad2(Minute(a)), Pad2(Minute(b));
    assert pa == pb;
    assert Minute(a) == Minute(b);
    assert Period(Hour(a)) == Period(Hour(b));
    DisplayHourInjective(Hour(a), Hour(b));
    MinutesInjective(a, b);
  }

  /** `getNextSlot`: the time thirty minutes later. */
  function GetNextSlot(time: TimeStr): (next: TimeStr)
    requires Minutes(time) + 30 < 6000
    ensures Minutes(next) == Minutes(time) + 30
  {
    var total := Hour(time) * 60 + Minute(time) + 30;
    Clock(total / 60, total % 60)
  }

  datatype SlotAvailability = SlotAvailability(slot: TimeStr, isAvailable: bool, booking: Option<Booking>)

  /** Every slot leaves room for its thirty-minute successor in the "HH:MM" format. */
  predicate SlotsFit(slots: seq<TimeStr>) {
    forall i :: 0 <= i < |slots| ==> Minutes(slots[i]) + 30 < 6000
  }

  /** The request "book [slot, next slot) in this room on this date". */
  function CellRequest(roomId: string, date: string, slot: TimeStr): BookingFormData
    requires Minutes(slot) + 30 < 6000
  {
    BookingFormData(roomId, "", date, slot, GetNextSlot(slot))
  }

  function SlotRecord(roomBookings: seq<Booking>, slot: TimeStr): SlotAvailability
    requires Minutes(slot) + 30 < 6000
  {
    var conflicting := FirstOverlapping(slot, GetNextSlot(slot), roomBookings);
    SlotAvailability(slot, conflicting.None?, conflicting)
  }

  /**
   * `getAvailableSlots`: one record per slot, in order. A slot is unavailable
   * exactly when some booking of the room on that date overlaps the half hour
   * it starts, and the booking attached is the first such one in list order.
   */
  function GetAvailableSlots(roomId: string, date: string, bookings: seq<Booking>, allTimeSlots: seq<TimeStr>)
    : (r: seq<SlotAvailability>)
    requires SlotsFit(allTimeSlots)
    ensures |r| == |allTimeSlots|
    ensures forall i :: 0 <= i < |r| ==> r[i].slot == allTimeSlots[i] && (r[i].isAvailable <==> r[i].booking.None?)
    ensures forall i :: 0 <= i < |r| ==>
      r[i].booking == FindConflictingBooking(CellRequest(roomId, date, allTimeSlots[i]), bookings, None)
  {
    var roomBookings := GetBookingsForRoomAndDate(roomId, date, bookings);
    assert roomBookings == ConflictScope(CellRequest(roomId, date, Clock(0, 0)), bookings, None) by {
      SameCriterionSameSelect(bookings, InRoomOnDate(roomId, date), OthersInRoomOnDate(roomId, date, None));
    }
    seq(|allTimeSlots|, i requires 0 <= i < |allTimeSlots| => SlotRecord(roomBookings, allTimeSlots[i]))
  }

  lemma {:induction false} SameCriterionSameSelect(s: seq<Booking>, c1: Criterion, c2: Criterion)
    requires forall b :: Matches(b, c1) == Matches(b, c2)
    ensures Select(s, c1) == Select(s, c2)
  {
    if |s| > 0 {
      SameCriterionSameSelect(s[1..], c1, c2);
    }
  }

  /** A slot is free exactly when no booking of that room and date overlaps its half hour. */
  lemma AvailableIffNoOverlap(roomId: string, date: string, bookings: seq<Booking>, allTimeSlots: seq<TimeStr>, i: nat)
    requires SlotsFit(allTimeSlots) && i < |allTimeSlots|
    ensures GetAvailableSlots(roomId, date, bookings, allTimeSlots)[i].isAvailable
        <==> forall b :: b in bookings && b.roomId == roomId && b.date == date ==>
               !DoTimesOverlap(allTimeSlots[i], GetNextSlot(allTimeSlots[i]), b.startTime, b.endTime)
  {
    var request := CellRequest(roomId, date, allTimeSlots[i]);
    var r := FindConflictingBooking(request, bookings, None);
    forall b | b in bookings && b.roomId == roomId && b.date == date
      ensures r.None? ==> !DoTimesOverlap(allTimeSlots[i], GetNextSlot(allTimeSlots[i]), b.startTime, b.endTime)
    {
      var k :| 0 <= k < |bookings| && bookings[k] == b;
      OverlapSymmetric(allTimeSlots[i], GetNextSlot(allTimeSlots[i]), b.startTime, b.endTime);
    }
    if r.Some? {
      OverlapSymmetric(allTimeSlots[i], GetNextSlot(allTimeSlots[i]), r.value.startTime, r.value.endTime);
    }
  }
}
