/**
 * The helpers of src/utils/bookingUtils.ts. Their conflict rule is stated
 * differently from the one in meeting-room-booking/ (the date test lives in
 * the overlap check, the filter only looks at the room) and is proved to
 * decide the same thing.
 */
module SrcUtils {
  import Text
  import opened Times
  import opened Types
  import opened Collections
  import MrbUtils
  import MrbMockData
  import opened Arith
  import opened Seqs

  /** The fields `hasTimeOverlap` reads from either of its arguments. */
  datatype Span = Span(date: string, startTime: TimeStr, endTime: TimeStr)

  function SpanOf(b: Booking): Span {
    Span(b.date, b.startTime, b.endTime)
  }

  function RequestSpan(f: BookingFormData): Span {
    Span(f.date, f.startTime, f.endTime)
  }

  /**
   * `hasTimeOverlap`: different dates never overlap; on the same date the
   * half-open ranges overlap exactly as `doTimesOverlap` says.
   */
  function HasTimeOverlap(a: Span, b: Span): (r: bool)
    ensures a.date != b.date ==> !r
    ensures r <==> a.date == b.date && MrbUtils.DoTimesOverlap(a.startTime, a.endTime, b.startTime, b.endTime)
  {
    if a.date != b.date then false
    else
      var start1, end1 := Minutes(a.startTime), Minutes(a.endTime);
      var start2, end2 := Minutes(b.startTime), Minutes(b.endTime);
      start1 < end2 && end1 > start2
  }

  lemma HasTimeOverlapSymmetric(a: Span, b: Span)
    ensures HasTimeOverlap(a, b) == HasTimeOverlap(b, a)
  {
  }

  /** `roomBookings.some(b => hasTimeOverlap(newBooking, b))`. */
  function SomeOverlap(request: Span, s: seq<Booking>): (r: bool)
    ensures r <==> exists i :: 0 <= i < |s| && HasTimeOverlap(request, SpanOf(s[i]))
  {
    if |s| == 0 then false
    else if HasTimeOverlap(request, SpanOf(s[0])) then true
    else
      var r := SomeOverlap(request, s[1..]);
      assert forall i :: 1 <= i < |s| ==> s[i] == s[1..][i - 1];
      r
  }

  /**
   * `hasBookingConflict`: some booking of the same room, other than the
   * excluded one, overlaps the request on the same date.
   */
  function HasBookingConflict(request: BookingFormData, existing: seq<Booking>, exclude: Option<string>): (r: bool)
    ensures r <==> exists i :: 0 <= i < |existing| && MrbUtils.ConflictsWith(request, existing[i], exclude)
  {
    RoomScanIsConflict(request, existing, exclude);
    SomeOverlap(RequestSpan(request), Select(existing, OthersInRoom(request.roomId, exclude)))
  }

  /** The two trees' conflict checks agree on every request, list and exclusion. */
  lemma ConflictChecksAgree(request: BookingFormData, existing: seq<Booking>, exclude: Option<string>)
    ensures HasBookingConflict(request, existing, exclude)
        <==> MrbUtils.FindConflictingBooking(request, existing, exclude).Some?
  {
  }

  lemma RoomScanIsConflict(request: BookingFormData, existing: seq<Booking>, exclude: Option<string>)
    ensures SomeOverlap(RequestSpan(request), Select(existing, OthersInRoom(request.roomId, exclude)))
        <==> exists i :: 0 <= i < |existing| && MrbUtils.ConflictsWith(request, existing[i], exclude)
  {
    var roomBookings := Select(existing, OthersInRoom(request.roomId, exclude));
    if SomeOverlap(RequestSpan(request), roomBookings) {
      var i :| 0 <= i < |roomBookings| && HasTimeOverlap(RequestSpan(request), SpanOf(roomBookings[i]));
      assert roomBookings[i] in existing;
      var k :| 0 <= k < |existing| && existing[k] == roomBookings[i];
      assert MrbUtils.ConflictsWith(request, existing[k], exclude);
    } else {
      forall k | 0 <= k < |existing|
        ensures !MrbUtils.ConflictsWith(request, existing[k], exclude)
      {
        assert existing[k] in existing;
      }
    }
  }

  /** `isValidTimeRange`: the same test as the other tree's, and the same as string order. */
  function IsValidTimeRange(startTime: TimeStr, endTime: TimeStr): (r: bool)
    ensures r == MrbUtils.IsValidTimeRange(startTime, endTime)
    ensures r <==> Text.LexLess(startTime, endTime)
  {
    Minutes(startTime) < Minutes(endTime)
  }

  /** The times the inner loop pushes for hour `h`, from minute `m` on in steps of `iv`. */
  function MinuteSlots(h: nat, m: nat, iv: nat): seq<TimeStr>
    requires h < 100 && iv > 0
    decreases 60 - m
  {
    if m >= 60 then [] else [Clock(h, m)] + MinuteSlots(h, m + iv, iv)
  }

  /** The times both loops push for hours `h` up to (excluding) `end`. */
  function HoursFrom(h: nat, end: nat, iv: nat): seq<TimeStr>
    requires end < 100 && iv > 0
    decreases end - h
  {
    if h >= end then [] else MinuteSlots(h, 0, iv) + HoursFrom(h + 1, end, iv)
  }

  /** The list `generateTimeSlots` returns: the loop output and then the closing hour. */
  function TimeSlots(startHour: nat, endHour: nat, intervalMinutes: nat): seq<TimeStr>
    requires endHour < 100 && intervalMinutes > 0
  {
    HoursFrom(startHour, endHour, intervalMinutes) + [Clock(endHour, 0)]
  }

  /**
   * `generateTimeSlots`, with its two nested loops: for each hour from
   * `startHour` below `endHour`, every `intervalMinutes`-th minute below 60,
   * then `endHour`:00. The loops build exactly `TimeSlots`; the lemmas below
   * give its size, its contents and its order.
   */
  method GenerateTimeSlots(startHour: nat, endHour: nat, intervalMinutes: nat) returns (slots: seq<TimeStr>)
    requires endHour < 100 && intervalMinutes > 0
    ensures slots == TimeSlots(startHour, endHour, intervalMinutes)
  {
    var iv := intervalMinutes;
    slots := [];
    var hour := startHour;
    while hour < endHour
      invariant slots + HoursFrom(hour, endHour, iv) == HoursFrom(startHour, endHour, iv)
      decreases endHour - hour
    {
      var pushed := PushHour(hour, iv);
      HoursFromStep(slots, hour, startHour, endHour, iv);
      slots := slots + pushed;
      hour := hour + 1;
    }
    assert HoursFrom(hour, endHour, iv) == [];
    slots := slots + [Clock(endHour, 0)];
  }

  /** The inner loop of `generateTimeSlots`: the times of one hour, every `iv` minutes from :00. */
  method PushHour(hour: nat, iv: nat) returns (slots: seq<TimeStr>)
    requires hour < 100 && iv > 0
    ensures slots == MinuteSlots(hour, 0, iv)
  {
    slots := [];
    var minute: nat := 0;
    while minute < 60
      invariant slots + MinuteSlots(hour, minute, iv) == MinuteSlots(hour, 0, iv)
      decreases 60 - minute
    {
      MinuteSlotsStep(slots, hour, minute, iv);
      slots := slots + [Clock(hour, minute)];
      minute := minute + iv;
    }
    assert MinuteSlots(hour, minute, iv) == [];
  }

  /** One pass of the outer loop moves the hour's times from the pending part to the output. */
  lemma HoursFromStep(slots: seq<TimeStr>, h: nat, start: nat, end: nat, iv: nat)
    requires end < 100 && iv > 0 && h < end
    requires slots + HoursFrom(h, end, iv) == HoursFrom(start, end, iv)
    ensures (slots + MinuteSlots(h, 0, iv)) + HoursFrom(h + 1, end, iv) == HoursFrom(start, end, iv)
  {
    ConcatAssoc(slots, MinuteSlots(h, 0, iv), HoursFrom(h + 1, end, iv));
  }

  /** One pass of the inner loop moves one time from the pending part to the output. */
  lemma MinuteSlotsStep(slots: seq<TimeStr>, h: nat, m: nat, iv: nat)
    requires h < 100 && iv > 0 && m < 60
    requires slots + MinuteSlots(h, m, iv) == MinuteSlots(h, 0, iv)
    ensures (slots + [Clock(h, m)]) + MinuteSlots(h, m + iv, iv) == MinuteSlots(h, 0, iv)
  {
    ConcatAssoc(slots, [Clock(h, m)], MinuteSlots(h, m + iv, iv));
  }

  lemma TimeSlotsCount(startHour: nat, endHour: nat, iv: nat)
    requires endHour < 100 && iv > 0
    ensures |TimeSlots(startHour, endHour, iv)| == (if startHour < endHour then (endHour - startHour) * PerHour(iv) else 0) + 1
  {
    HoursFromCount(startHour, endHour, iv);
    PerHourCountsSteps(iv);
    if startHour < endHour {
      RepeatedAddIsProduct(endHour - startHour, PerHour(iv));
    }
  }

  lemma TimeSlotsMembers(startHour: nat, endHour: nat, iv: nat)
    requires endHour < 100 && iv > 0
    ensures forall t :: t in TimeSlots(startHour, endHour, iv) <==>
      t == Clock(endHour, 0) || (startHour <= Hour(t) < endHour && Minute(t) % iv == 0)
  {
    HoursFromMembers(startHour, endHour, iv);
  }

  lemma TimeSlotsAscending(startHour: nat, endHour: nat, iv: nat)
    requires endHour < 100 && iv > 0
    ensures Ascending(TimeSlots(startHour, endHour, iv))
  {
    var body, last := HoursFrom(startHour, endHour, iv), Clock(endHour, 0);
    HoursFromAscending(startHour, endHour, iv);
    HoursFromMembers(startHour, endHour, iv);
    forall x | x in body
      ensures Minutes(x) < Minutes(last)
    {
      MinutesOrder(x, last);
    }
    AscendingSnoc(body, last);
  }

  /** `t` lies on the grid of hour `h` that starts at minute `m` and steps by `iv`. */
  predicate OnGrid(t: TimeStr, h: nat, m: nat, iv: nat)
    requires iv > 0
  {
    Hour(t) == h && m <= Minute(t) && (Minute(t) - m) % iv == 0
  }

  lemma OnGridStep(t: TimeStr, h: nat, m: nat, iv: nat)
    requires iv > 0
    ensures OnGrid(t, h, m, iv) <==> (Hour(t) == h && Minute(t) == m) || OnGrid(t, h, m + iv, iv)
  {
    var x := Minute(t) - m;
    if Hour(t) == h && m <= Minute(t) && x % iv == 0 && x != 0 {
      MultipleAtLeast(x, iv);
      ModStep(x, iv);
    }
    if OnGrid(t, h, m + iv, iv) {
      ModStep(x, iv);
    }
    if Minute(t) == m {
      assert x % iv == 0 by { DivSmall(0, iv); DivModUnique(0, iv, 0, 0); }
    }
  }

  lemma {:induction false} MinuteSlotsMember(h: nat, m: nat, iv: nat, t: TimeStr)
    requires h < 100 && iv > 0
    ensures t in MinuteSlots(h, m, iv) <==> OnGrid(t, h, m, iv)
    decreases 60 - m
  {
    if m < 60 {
      MinuteSlotsMember(h, m + iv, iv, t);
      OnGridStep(t, h, m, iv);
      if Hour(t) == h && Minute(t) == m {
        ClockOfFields(t);
      }
    }
  }

  lemma MinuteSlotsMembers(h: nat, m: nat, iv: nat)
    requires h < 100 && iv > 0
    ensures forall t :: t in MinuteSlots(h, m, iv) <==> OnGrid(t, h, m, iv)
  {
    forall t: TimeStr
      ensures t in MinuteSlots(h, m, iv) <==> OnGrid(t, h, m, iv)
    {
      MinuteSlotsMember(h, m, iv, t);
    }
  }

  /** The times of one hour are the times of that hour whose minute is a multiple of `iv`. */
  lemma HourSlotsMembers(h: nat, iv: nat)
    requires h < 100 && iv > 0
    ensures forall t :: t in MinuteSlots(h, 0, iv) <==> Hour(t) == h && Minute(t) % iv == 0
  {
    forall t: TimeStr
      ensures t in MinuteSlots(h, 0, iv) <==> Hour(t) == h && Minute(t) % iv == 0
    {
      MinuteSlotsMember(h, 0, iv, t);
    }
  }

  lemma {:induction false} MinuteSlotsCount(h: nat, m: nat, iv: nat)
    requires h < 100 && iv > 0
    ensures |MinuteSlots(h, m, iv)| == StepsFrom(m, iv)
    decreases 60 - m
  {
    if m < 60 {
      MinuteSlotsCount(h, m + iv, iv);
    }
  }

  lemma {:induction false} MinuteSlotsAscending(h: nat, m: nat, iv: nat)
    requires h < 100 && iv > 0
    ensures Ascending(MinuteSlots(h, m, iv))
    decreases 60 - m
  {
    if m < 60 {
      var rest := MinuteSlots(h, m + iv, iv);
      MinuteSlotsAscending(h, m + iv, iv);
      var first := Clock(h, m);
      forall y | y in rest
        ensures Minutes(first) < Minutes(y)
      {
        MinuteSlotsMember(h, m + iv, iv, y);
        MinutesOrder(first, y);
      }
      AscendingCons(first, rest);
    }
  }

  lemma {:induction false} HoursFromCount(h: nat, end: nat, iv: nat)
    requires end < 100 && iv > 0
    ensures |HoursFrom(h, end, iv)| == if h < end then RepeatedAdd(end - h, StepsFrom(0, iv)) else 0
    decreases end - h
  {
    if h < end {
      HoursFromCount(h + 1, end, iv);
      MinuteSlotsCount(h, 0, iv);
    }
  }

  lemma {:induction false} HoursFromMembers(h: nat, end: nat, iv: nat)
    requires end < 100 && iv > 0
    ensures forall t :: t in HoursFrom(h, end, iv) <==> h <= Hour(t) < end && Minute(t) % iv == 0
    decreases end - h
  {
    if h < end {
      HoursFromMembers(h + 1, end, iv);
      HourSlotsMembers(h, iv);
    }
  }

  lemma {:induction false} HoursFromAscending(h: nat, end: nat, iv: nat)
    requires end < 100 && iv > 0
    ensures Ascending(HoursFrom(h, end, iv))
    decreases end - h
  {
    if h < end {
      HoursFromAscending(h + 1, end, iv);
      MinuteSlotsAscending(h, 0, iv);
      MinuteSlotsMembers(h, 0, iv);
      HoursFromMembers(h + 1, end, iv);
      AscendingConcat(MinuteSlots(h, 0, iv), HoursFrom(h + 1, end, iv));
    }
  }

  /** The default call `generateTimeSlots()` both src components make. */
  function DefaultTimeSlots(): seq<TimeStr> {
    TimeSlots(8, 18, 30)
  }

  /** The default list runs from 08:00 to 18:00. */
  lemma DefaultTimeSlotsEnds()
    ensures |DefaultTimeSlots()| == 21
    ensures DefaultTimeSlots()[0] == Clock(8, 0) && DefaultTimeSlots()[20] == Clock(18, 0)
  {
    DefaultSlotsExtendMockSlots();
    var mock := MrbMockData.GenerateTimeSlots();
    MinutesInjective(mock[0], Clock(8, 0));
    assert DefaultTimeSlots()[0] == mock[0];
  }

  /**
   * The two trees generate the same half-hour slots from 08:00; the src list
   * additionally ends with the closing "18:00".
   */
  lemma DefaultSlotsExtendMockSlots()
    ensures DefaultTimeSlots() == MrbMockData.GenerateTimeSlots() + [Clock(18, 0)]
  {
    HoursFromIsHalfHours(8);
  }

  lemma {:induction false} HoursFromIsHalfHours(h: nat)
    requires h <= 18
    ensures HoursFrom(h, 18, 30) == MrbMockData.HalfHoursFrom(h)
    decreases 18 - h
  {
    if h < 18 {
      HoursFromIsHalfHours(h + 1);
      assert MinuteSlots(h, 60, 30) == [];
      assert MinuteSlots(h, 0, 30) == [Clock(h, 0), Clock(h, 30)];
    }
  }
}
