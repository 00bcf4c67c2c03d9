/**
 * The booking form of meeting-room-booking/src/components/BookingForm.tsx.
 * Its submit handler stops at the first failing check (blank title, then
 * time order, then conflict); its start-time handler moves the end time
 * forward so that the selected range stays valid.
 */
module MrbForm {
  import opened Text
  import opened Times
  import opened Types
  import opened Collections
  import MrbUtils
  import MrbMockData
  import SrcForm
  import Arith

  /** The end of the working day, 18:00, in minutes. */
  const DayEnd := 1080

  /**
   * `incrementTime` as written: the hour of `time + minutes` is capped at 18
   * but the minutes are kept, so 17:30 + 60 minutes gives "18:30", past the
   * end of the day.
   */
  function IncrementTime(time: TimeStr, minutes: nat): (r: TimeStr)
    ensures Hour(r) == if (Minutes(time) + minutes) / 60 < 18 then (Minutes(time) + minutes) / 60 else 18
    ensures Minute(r) == (Minutes(time) + minutes) % 60
  {
    var total := Hour(time) * 60 + Minute(time) + minutes;
    var newHours := total / 60;
    var newMins := total % 60;
    Clock(if newHours < 18 then newHours else 18, newMins)
  }

  /** The evident intent of `incrementTime`: add the minutes, but never go past 18:00. */
  function IncrementTimeCapped(time: TimeStr, minutes: nat): (r: TimeStr)
    ensures Minutes(r) == if Minutes(time) + minutes < DayEnd then Minutes(time) + minutes else DayEnd
  {
    var total := Minutes(time) + minutes;
    FromMinutes(if total < DayEnd then total else DayEnd)
  }

  /** Up to 18:00 both versions agree; they part only once the sum passes the end of the day. */
  lemma IncrementVersionsAgreeWithinDay(time: TimeStr, minutes: nat)
    requires Minutes(time) + minutes <= DayEnd
    ensures IncrementTime(time, minutes) == IncrementTimeCapped(time, minutes)
  {
    var a, b := IncrementTime(time, minutes), IncrementTimeCapped(time, minutes);
    Arith.HourMinuteSplit(Minutes(time) + minutes);
    assert Minutes(a) == Minutes(b);
    MinutesInjective(a, b);
  }

  /** The 20 start slots of `generateTimeSlots`, 08:00 to 17:30. */
  function Slots(): seq<TimeStr> {
    MrbMockData.GenerateTimeSlots()
  }

  /**
   * A list of twenty times, the i-th of them 8 hours and 30 * i minutes after
   * midnight. The operations below take the component's memoised slot list
   * as a parameter; this predicate is what they need of it, and it holds of
   * `Slots()` and of no other list.
   */
  predicate HalfHourGrid(slots: seq<TimeStr>) {
    |slots| == 20 && forall i :: 0 <= i < 20 ==> Minutes(slots[i]) == 480 + 30 * i
  }

  lemma SlotsOnGrid()
    ensures HalfHourGrid(Slots())
  {
  }

  /** The grid determines the list: `Slots()` is the only list on it. */
  lemma GridIsSlots(slots: seq<TimeStr>)
    ensures HalfHourGrid(slots) <==> slots == Slots()
  {
    var r := Slots();
    SlotsOnGrid();
    if HalfHourGrid(slots) {
      forall i | 0 <= i < 20
        ensures slots[i] == r[i]
      {
        MinutesInjective(slots[i], r[i]);
      }
      assert slots == r;
    } else {
      assert slots != r;
    }
  }

  /** On the grid, a slot's index is determined by its minute value. */
  lemma GridIndex(slots: seq<TimeStr>, t: TimeStr)
    requires HalfHourGrid(slots)
    ensures IndexOf(slots, t) >= 0 ==> Minutes(t) == 480 + 30 * IndexOf(slots, t)
    ensures forall k :: 0 <= k < 20 && Minutes(t) == 480 + 30 * k ==> IndexOf(slots, t) == k
  {
    forall k | 0 <= k < 20 && Minutes(t) == 480 + 30 * k
      ensures IndexOf(slots, t) == k
    {
      MinutesInjective(slots[k], t);
      var i := IndexOf(slots, t);
      assert slots[i] == t;
    }
  }

  /**
   * `endTimeOptions`: the slots after the start followed by "18:00" when the
   * start is a slot, and every slot but the first otherwise.
   */
  function EndTimeOptions(slots: seq<TimeStr>, startTime: TimeStr): (r: seq<TimeStr>)
    ensures startTime !in slots && |slots| > 0 ==> [slots[0]] + r == slots
    ensures startTime in slots ==> |r| > 0 && r[|r| - 1] == Clock(18, 0)
  {
    var startIndex := IndexOf(slots, startTime);
    if startIndex == -1 then (if |slots| == 0 then [] else slots[1..])
    else slots[startIndex + 1..] + [Clock(18, 0)]
  }

  /**
   * For a start that is a slot, the end options are exactly the later slots
   * and 18:00, so every option makes a valid range with the start.
   */
  lemma EndOptionsAfterStart(slots: seq<TimeStr>, startTime: TimeStr)
    requires HalfHourGrid(slots) && startTime in slots
    ensures forall e :: e in EndTimeOptions(slots, startTime) <==>
      (e in slots && Minutes(startTime) < Minutes(e)) || e == Clock(18, 0)
    ensures forall e :: e in EndTimeOptions(slots, startTime) ==> MrbUtils.IsValidTimeRange(startTime, e)
  {
    var i := IndexOf(slots, startTime);
    GridIndex(slots, startTime);
    var opts := EndTimeOptions(slots, startTime);
    assert opts == slots[i + 1..] + [Clock(18, 0)];
    forall e
      ensures e in opts <==> (e in slots && Minutes(startTime) < Minutes(e)) || e == Clock(18, 0)
    {
      if e in slots {
        var k := IndexOf(slots, e);
        GridIndex(slots, e);
        if k > i {
          assert e == opts[k - i - 1];
        }
      }
      if e in slots[i + 1..] {
        var j :| i + 1 <= j < 20 && slots[j] == e;
      }
    }
    forall e | e in opts
      ensures MrbUtils.IsValidTimeRange(startTime, e)
    {
      LexLessIsEarlier(startTime, e);
    }
  }

  /** The value a form field is changed to. */
  datatype Change =
    | SetRoomId(roomId: string)
    | SetTitle(title: string)
    | SetDate(date: string)
    | SetStartTime(startTime: TimeStr)
    | SetEndTime(endTime: TimeStr)

  /** The form state: the data and the error banner. */
  datatype FormState = FormState(data: BookingFormData, error: string)

  /** The data with the one changed field stored. */
  function Apply(data: BookingFormData, c: Change): BookingFormData {
    match c
    case SetRoomId(v) => data.(roomId := v)
    case SetTitle(v) => data.(title := v)
    case SetDate(v) => data.(date := v)
    case SetStartTime(t) => data.(startTime := t)
    case SetEndTime(t) => data.(endTime := t)
  }

  /**
   * `handleChange`: store the new value and clear the banner; a new start
   * time also moves the end to one hour later (capped at 18:00) whenever the
   * old end's slot index is not after the new start's, counting "not a slot"
   * as index -1.
   */
  function HandleChange(slots: seq<TimeStr>, st: FormState, c: Change): (r: FormState)
    ensures r.error == ""
    ensures !c.SetStartTime? ==> r.data == Apply(st.data, c)
    ensures c.SetStartTime? ==> r.data.(endTime := st.data.endTime) == Apply(st.data, c)
    ensures c.SetStartTime? && r.data.endTime != st.data.endTime ==>
      Minutes(r.data.endTime) == if Minutes(c.startTime) + 60 < DayEnd then Minutes(c.startTime) + 60 else DayEnd
  {
    var data := Apply(st.data, c);
    match c
    case SetStartTime(t) =>
      if ResetsEnd(slots, st.data.endTime, t) then FormState(data.(endTime := IncrementTimeCapped(t, 60)), "")
      else FormState(data, "")
    case _ => FormState(data, "")
  }

  /**
   * `handleChange` moves the end exactly when the old end's slot index is not
   * after the new start's, counting "not a slot" as index -1.
   */
  predicate ResetsEnd(slots: seq<TimeStr>, endTime: TimeStr, startTime: TimeStr) {
    IndexOf(slots, endTime) <= IndexOf(slots, startTime)
  }

  /**
   * `handleChange` as written, moving the end with `incrementTime`. It is
   * `HandleChange` except after a start later than 17:00, where the moved end
   * keeps the minutes of the sum.
   */
  function HandleChangeAsWritten(slots: seq<TimeStr>, st: FormState, c: Change): (r: FormState)
    ensures !c.SetStartTime? || Minutes(c.startTime) + 60 <= DayEnd ==> r == HandleChange(slots, st, c)
    ensures r.data.(endTime := HandleChange(slots, st, c).data.endTime) == HandleChange(slots, st, c).data
    ensures r.error == ""
  {
    var data := Apply(st.data, c);
    match c
    case SetStartTime(t) =>
      if ResetsEnd(slots, st.data.endTime, t) then
        if Minutes(t) + 60 <= DayEnd then
          IncrementVersionsAgreeWithinDay(t, 60);
          FormState(data.(endTime := IncrementTime(t, 60)), "")
        else FormState(data.(endTime := IncrementTime(t, 60)), "")
      else FormState(data, "")
    case _ => FormState(data, "")
  }

  /**
   * As written, choosing the last start slot 17:30 always moves the end to
   * "18:30", whatever the end was: 17:30 has the highest slot index, so the
   * old end's index is never after it.
   */
  lemma AsWrittenLastStartOvershoots(slots: seq<TimeStr>, st: FormState)
    requires HalfHourGrid(slots)
    ensures HandleChangeAsWritten(slots, st, SetStartTime(Clock(17, 30))).data.endTime == Clock(18, 30)
    ensures Clock(18, 30) !in EndTimeOptions(slots, Clock(17, 30))
  {
    var t := Clock(17, 30);
    assert Minutes(t) == 480 + 30 * 19;
    GridIndex(slots, t);
    assert ResetsEnd(slots, st.data.endTime, t);
    assert HandleChangeAsWritten(slots, st, SetStartTime(t)).data == Apply(st.data, SetStartTime(t)).(endTime := IncrementTime(t, 60));
    IncrementTimeOvershootsLastSlot(slots);
  }

  /** A new start slot keeps an end slot that is still later than it. */
  lemma StartChangeKeepsLaterEnd(slots: seq<TimeStr>, st: FormState, t: TimeStr)
    requires HalfHourGrid(slots) && t in slots && st.data.endTime in slots
    requires Minutes(t) < Minutes(st.data.endTime)
    ensures HandleChange(slots, st, SetStartTime(t)).data.endTime == st.data.endTime
  {
    GridIndex(slots, t);
    GridIndex(slots, st.data.endTime);
  }

  /**
   * An end of 18:00 is not a slot, so any new start slot resets it to one
   * hour after the start, even though 18:00 was still a valid end.
   */
  lemma StartChangeResetsDayEnd(slots: seq<TimeStr>, st: FormState, t: TimeStr)
    requires HalfHourGrid(slots) && t in slots && st.data.endTime == Clock(18, 0)
    ensures HandleChange(slots, st, SetStartTime(t)).data.endTime == IncrementTimeCapped(t, 60)
  {
    GridIndex(slots, st.data.endTime);
  }

  /** A slot whose index is after the start's is offered as an end. */
  lemma LaterSlotIsOffered(slots: seq<TimeStr>, t: TimeStr, k: nat)
    requires t in slots && IndexOf(slots, t) < k < |slots|
    ensures slots[k] in EndTimeOptions(slots, t)
  {
    var i := IndexOf(slots, t);
    var opts := EndTimeOptions(slots, t);
    assert opts == slots[i + 1..] + [Clock(18, 0)];
    assert opts[k - i - 1] == slots[k];
  }

  /**
   * After choosing a slot as the start, the end is one of the end options
   * offered for it, so the selected range is valid.
   */
  lemma StartChangeEndIsOffered(slots: seq<TimeStr>, st: FormState, t: TimeStr)
    requires HalfHourGrid(slots) && t in slots
    ensures HandleChange(slots, st, SetStartTime(t)).data.endTime in EndTimeOptions(slots, t)
    ensures MrbUtils.IsValidTimeRange(t, HandleChange(slots, st, SetStartTime(t)).data.endTime)
  {
    var e := HandleChange(slots, st, SetStartTime(t)).data.endTime;
    var k := IndexOf(slots, st.data.endTime);
    if k > IndexOf(slots, t) {
      assert e == slots[k];
      LaterSlotIsOffered(slots, t, k);
    } else {
      assert e == IncrementTimeCapped(t, 60);
      HourLaterIsOffered(slots, t);
    }
    OfferedIsValid(slots, t, e);
  }

  /** Every end option of a start slot makes a valid range with it. */
  lemma OfferedIsValid(slots: seq<TimeStr>, t: TimeStr, e: TimeStr)
    requires HalfHourGrid(slots) && t in slots && e in EndTimeOptions(slots, t)
    ensures MrbUtils.IsValidTimeRange(t, e)
  {
    EndOptionsAfterStart(slots, t);
  }

  /** One hour after a start slot, capped at 18:00, is an end option for it. */
  lemma HourLaterIsOffered(slots: seq<TimeStr>, t: TimeStr)
    requires HalfHourGrid(slots) && t in slots
    ensures IncrementTimeCapped(t, 60) in EndTimeOptions(slots, t)
  {
    var si := IndexOf(slots, t);
    GridIndex(slots, t);
    var e := IncrementTimeCapped(t, 60);
    var opts := EndTimeOptions(slots, t);
    if si + 2 < 20 {
      assert Minutes(slots[si + 2]) == Minutes(t) + 60 == Minutes(e);
      MinutesInjective(slots[si + 2], e);
      LaterSlotIsOffered(slots, t, si + 2);
    } else {
      assert Minutes(e) == DayEnd == Minutes(Clock(18, 0));
      MinutesInjective(e, Clock(18, 0));
      assert opts[|opts| - 1] in opts;
    }
  }

  /**
   * What `incrementTime` as written does to the last start slot: "17:30"
   * plus one hour is "18:30", which is later than the end of the day and is
   * not among the end options offered for that start.
   */
  lemma IncrementTimeOvershootsLastSlot(slots: seq<TimeStr>)
    requires HalfHourGrid(slots)
    ensures IncrementTime(Clock(17, 30), 60) == Clock(18, 30)
    ensures Minutes(IncrementTime(Clock(17, 30), 60)) > DayEnd
    ensures IncrementTime(Clock(17, 30), 60) !in EndTimeOptions(slots, Clock(17, 30))
  {
    var r := IncrementTime(Clock(17, 30), 60);
    MinutesInjective(r, Clock(18, 30));
    MinutesInjective(slots[19], Clock(17, 30));
    PastDayEndNotOffered(slots, Clock(17, 30), r);
  }

  /** No end option of a start slot lies past the end of the day. */
  lemma PastDayEndNotOffered(slots: seq<TimeStr>, startTime: TimeStr, e: TimeStr)
    requires HalfHourGrid(slots) && startTime in slots && Minutes(e) > DayEnd
    ensures e !in EndTimeOptions(slots, startTime)
  {
    EndOptionsAfterStart(slots, startTime);
    if e in slots {
      GridIndex(slots, e);
    }
  }

  /**
   * The initial form: the supplied room (else the first room), the supplied
   * date (else today), the supplied start (else 09:00), and an end one hour
   * after the supplied start (else 10:00).
   */
  function InitialFormData(initialRoomId: string, rooms: seq<Room>, initialDate: string, today: string,
                           initialStartTime: Option<TimeStr>): (d: BookingFormData)
    ensures d.roomId == if initialRoomId != "" then initialRoomId else if |rooms| > 0 then rooms[0].id else ""
    ensures d.title == ""
    ensures d.date == if initialDate != "" then initialDate else today
    ensures initialStartTime.None? ==> Minutes(d.startTime) == 540 && Minutes(d.endTime) == 600
    ensures initialStartTime.Some? ==>
      d.startTime == initialStartTime.value && d.endTime == IncrementTimeCapped(initialStartTime.value, 60)
  {
    var roomId := if initialRoomId != "" then initialRoomId else if |rooms| > 0 then rooms[0].id else "";
    var date := if initialDate != "" then initialDate else today;
    match initialStartTime
    case None => BookingFormData(roomId, "", date, Clock(9, 0), Clock(10, 0))
    case Some(t) => BookingFormData(roomId, "", date, t, IncrementTimeCapped(t, 60))
  }

  /**
   * The initial form as written: a supplied start's end is `incrementTime`
   * of it. It is `InitialFormData` except for a start later than 17:00.
   */
  function InitialFormDataAsWritten(initialRoomId: string, rooms: seq<Room>, initialDate: string, today: string,
                                    initialStartTime: Option<TimeStr>): (d: BookingFormData)
    ensures initialStartTime.None? || Minutes(initialStartTime.value) + 60 <= DayEnd ==>
      d == InitialFormData(initialRoomId, rooms, initialDate, today, initialStartTime)
    ensures d.(endTime := InitialFormData(initialRoomId, rooms, initialDate, today, initialStartTime).endTime)
      == InitialFormData(initialRoomId, rooms, initialDate, today, initialStartTime)
  {
    var roomId := if initialRoomId != "" then initialRoomId else if |rooms| > 0 then rooms[0].id else "";
    var date := if initialDate != "" then initialDate else today;
    match initialStartTime
    case None => BookingFormData(roomId, "", date, Clock(9, 0), Clock(10, 0))
    case Some(t) =>
      if Minutes(t) + 60 <= DayEnd then
        IncrementVersionsAgreeWithinDay(t, 60);
        BookingFormData(roomId, "", date, t, IncrementTime(t, 60))
      else BookingFormData(roomId, "", date, t, IncrementTime(t, 60))
  }

  /**
   * The form as written books past the end of the day: opened on the 17:30
   * slot of a room with nothing booked that day, given a title and submitted,
   * it hands on a booking from 17:30 to "18:30", an end the form does not
   * offer.
   */
  lemma AsWrittenFormSubmitsPastDayEnd(roomId: string, rooms: seq<Room>, date: string, today: string,
                                       title: string, bookings: seq<Booking>)
    requires roomId != "" && date != "" && !AllWhitespace(title)
    requires forall i :: 0 <= i < |bookings| ==> bookings[i].roomId != roomId || bookings[i].date != date
    ensures var st := HandleChangeAsWritten(Slots(), FormState(InitialFormDataAsWritten(roomId, rooms, date, today, Some(Clock(17, 30))), ""), SetTitle(title));
      && st.data == BookingFormData(roomId, title, date, Clock(17, 30), Clock(18, 30))
      && Minutes(st.data.endTime) > DayEnd
      && st.data.endTime !in EndTimeOptions(Slots(), st.data.startTime)
      && HandleSubmit(st.data, bookings) == Submitted(st.data)
  {
    var d := BookingFormData(roomId, title, date, Clock(17, 30), Clock(18, 30));
    var d0 := InitialFormDataAsWritten(roomId, rooms, date, today, Some(Clock(17, 30)));
    assert d0 == d.(title := "") by {
      IncrementTimeOvershootsLastSlot(Slots());
    }
    assert HandleChangeAsWritten(Slots(), FormState(d0, ""), SetTitle(title)).data == d;
    SlotsOnGrid();
    IncrementTimeOvershootsLastSlot(Slots());
    SubmitAcceptsIffChecksPass(d, bookings);
  }

  const TitleMissing := "Please enter a meeting title."
  const TimeOrder := "End time must be after start time."

  /** `Time conflict: "<title>" is already booked from <start> to <end>.` */
  function ConflictMessage(b: Booking): string {
    "Time conflict: \"" + b.title + "\" is already booked from "
      + MrbUtils.FormatTimeDisplay(b.startTime) + " to " + MrbUtils.FormatTimeDisplay(b.endTime) + "."
  }

  /** What a submit does: hand the data to `onSubmit`, or show a message. */
  datatype SubmitOutcome = Submitted(data: BookingFormData) | Rejected(message: string)

  /**
   * `handleSubmit`: a blank title is reported first, then an empty or
   * inverted range, then the first conflicting booking; only a form that
   * passes all three is handed on, unchanged.
   */
  function HandleSubmit(data: BookingFormData, bookings: seq<Booking>): (r: SubmitOutcome)
    ensures AllWhitespace(data.title) ==> r == Rejected(TitleMissing)
    ensures !AllWhitespace(data.title) && !MrbUtils.IsValidTimeRange(data.startTime, data.endTime) ==> r == Rejected(TimeOrder)
    ensures r.Submitted? ==> r.data == data
  {
    TrimEmptyIffAllWhitespace(data.title);
    if Trim(data.title) == [] then Rejected(TitleMissing)
    else if !MrbUtils.IsValidTimeRange(data.startTime, data.endTime) then Rejected(TimeOrder)
    else
      match MrbUtils.FindConflictingBooking(data, bookings, None)
      case Some(c) => Rejected(ConflictMessage(c))
      case None => Submitted(data)
  }

  /** The form is handed on exactly when it has a title, a non-empty range and no conflict. */
  lemma SubmitAcceptsIffChecksPass(data: BookingFormData, bookings: seq<Booking>)
    ensures HandleSubmit(data, bookings).Submitted? <==>
      && !AllWhitespace(data.title)
      && Minutes(data.startTime) < Minutes(data.endTime)
      && forall i :: 0 <= i < |bookings| ==> !MrbUtils.ConflictsWith(data, bookings[i], None)
  {
    TrimEmptyIffAllWhitespace(data.title);
    LexLessIsEarlier(data.startTime, data.endTime);
  }

  /** A conflict is reported with the first conflicting booking in list order. */
  lemma ConflictNamesFirstConflict(data: BookingFormData, bookings: seq<Booking>, k: nat)
    requires !AllWhitespace(data.title) && Minutes(data.startTime) < Minutes(data.endTime)
    requires k < |bookings| && MrbUtils.ConflictsWith(data, bookings[k], None)
    requires forall j :: 0 <= j < k ==> !MrbUtils.ConflictsWith(data, bookings[j], None)
    ensures HandleSubmit(data, bookings) == Rejected(ConflictMessage(bookings[k]))
  {
    TrimEmptyIffAllWhitespace(data.title);
    LexLessIsEarlier(data.startTime, data.endTime);
    MrbUtils.FindConflictingBookingIsFirst(data, bookings, None, k);
  }

  /**
   * The checks stop at the first failure: the inverted request that also
   * overlaps a stored booking is reported only for its time order, where the
   * validator of src/components/BookingForm.tsx records both
   * (`SrcForm.InvertedRangeCanAlsoConflict`).
   */
  lemma ReportsOnlyFirstFailure()
    ensures HandleSubmit(SrcForm.InvertedRequest(), [SrcForm.StoredMorning()]) == Rejected(TimeOrder)
    ensures MrbUtils.ConflictsWith(SrcForm.InvertedRequest(), SrcForm.StoredMorning(), None)
  {
    SrcForm.InvertedRequestConflicts();
    var d := SrcForm.InvertedRequest();
    assert !IsWhitespace(d.title[0]);
    LexLessIsEarlier(d.startTime, d.endTime);
  }
}
