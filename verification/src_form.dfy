/**
 * The booking form of src/components/BookingForm.tsx. Its validator runs
 * every check and records one message per failing check under a fixed key;
 * the form submits only when no key was recorded.
 */
module SrcForm {
  import opened Text
  import opened Times
  import opened Types
  import MrbUtils
  import SrcUtils

  /** The keys `validateForm` records messages under. */
  datatype ErrorKey = TitleKey | RoomIdKey | DateKey | TimeKey | ConflictKey

  /** The property name each key has in the component's error record. */
  function KeyName(k: ErrorKey): string {
    match k
    case TitleKey => "title"
    case RoomIdKey => "roomId"
    case DateKey => "date"
    case TimeKey => "time"
    case ConflictKey => "conflict"
  }

  /**
   * The keys of the component's error record. The record only ever holds
   * `Message(k)` under key `k`, so the set of keys determines it.
   */
  type Errors = set<ErrorKey>

  const TitleRequired := "Title is required"
  const RoomRequired := "Please select a room"
  const DateRequired := "Date is required"
  const TimeOrder := "End time must be after start time"
  const SlotTaken := "This time slot conflicts with an existing booking"

  /** The form state: the data and the error keys of the last validation. */
  datatype FormState = FormState(data: BookingFormData, errors: Errors)

  /** `useState` initial form: the selected room (else the first room), no title, 09:00 to 10:00. */
  function InitialState(selectedRoomId: string, rooms: seq<Room>, today: string): (st: FormState)
    ensures st.errors == {}
    ensures selectedRoomId != "" ==> st.data.roomId == selectedRoomId
    ensures selectedRoomId == "" && |rooms| > 0 ==> st.data.roomId == rooms[0].id
    ensures selectedRoomId == "" && |rooms| == 0 ==> st.data.roomId == ""
    ensures st.data.title == "" && st.data.date == today
    ensures Minutes(st.data.startTime) == 540 && Minutes(st.data.endTime) == 600
  {
    var roomId := if selectedRoomId != "" then selectedRoomId else if |rooms| > 0 then rooms[0].id else "";
    FormState(BookingFormData(roomId, "", today, Clock(9, 0), Clock(10, 0)), {})
  }

  /** The message the component stores under each key. */
  function Message(k: ErrorKey): string {
    match k
    case TitleKey => TitleRequired
    case RoomIdKey => RoomRequired
    case DateKey => DateRequired
    case TimeKey => TimeOrder
    case ConflictKey => SlotTaken
  }

  /**
   * `validateForm`'s error record: every check runs, independently of the
   * others, and each failing check leaves its message under its key.
   */
  function ValidateForm(data: BookingFormData, bookings: seq<Booking>): (errors: Errors)
    ensures TitleKey in errors <==> AllWhitespace(data.title)
    ensures RoomIdKey in errors <==> data.roomId == ""
    ensures DateKey in errors <==> data.date == ""
    ensures TimeKey in errors <==> Minutes(data.endTime) <= Minutes(data.startTime)
    ensures ConflictKey in errors <==> SrcUtils.HasBookingConflict(data, bookings, None)
  {
    TrimEmptyIffAllWhitespace(data.title);
    Collect(Trim(data.title) == [], data.roomId == "", data.date == "",
            !SrcUtils.IsValidTimeRange(data.startTime, data.endTime),
            SrcUtils.HasBookingConflict(data, bookings, None))
  }

  /** The keys of the failing checks, added one after the other in the validator's order. */
  function Collect(title: bool, roomId: bool, date: bool, time: bool, conflict: bool): (errors: Errors)
    ensures TitleKey in errors <==> title
    ensures RoomIdKey in errors <==> roomId
    ensures DateKey in errors <==> date
    ensures TimeKey in errors <==> time
    ensures ConflictKey in errors <==> conflict
  {
    var e0: Errors := {};
    var e1 := if title then e0 + {TitleKey} else e0;
    var e2 := if roomId then e1 + {RoomIdKey} else e1;
    var e3 := if date then e2 + {DateKey} else e2;
    var e4 := if time then e3 + {TimeKey} else e3;
    if conflict then e4 + {ConflictKey} else e4
  }

  /** `Object.keys(newErrors).length === 0`. */
  predicate Valid(data: BookingFormData, bookings: seq<Booking>) {
    |ValidateForm(data, bookings)| == 0
  }

  /** The form validates exactly when every one of the five checks passes. */
  lemma ValidIffAllChecksPass(data: BookingFormData, bookings: seq<Booking>)
    ensures Valid(data, bookings) <==>
      && !AllWhitespace(data.title)
      && data.roomId != ""
      && data.date != ""
      && Minutes(data.startTime) < Minutes(data.endTime)
      && forall i :: 0 <= i < |bookings| ==> !MrbUtils.ConflictsWith(data, bookings[i], None)
  {
    var errors := ValidateForm(data, bookings);
    if |errors| == 0 {
      assert errors == {};
    } else {
      var k :| k in errors;
    }
  }

  /** A request in room "atlas" from 09:30 back to 09:15: an inverted range. */
  function InvertedRequest(): BookingFormData {
    BookingFormData("atlas", "Review", "2026-02-04", Clock(9, 30), Clock(9, 15))
  }

  /** A stored booking of "atlas" on the same date, 09:00 to 10:00. */
  function StoredMorning(): Booking {
    Booking("b1", "atlas", "Sync", "2026-02-04", Clock(9, 0), Clock(10, 0))
  }

  lemma InvertedRequestConflicts()
    ensures Minutes(InvertedRequest().endTime) < Minutes(InvertedRequest().startTime)
    ensures MrbUtils.ConflictsWith(InvertedRequest(), StoredMorning(), None)
  {
    assert Minutes(InvertedRequest().startTime) == 570 && Minutes(InvertedRequest().endTime) == 555;
    assert Minutes(StoredMorning().startTime) == 540 && Minutes(StoredMorning().endTime) == 600;
  }

  /**
   * Collecting every failure: an inverted range that also overlaps a stored
   * booking is reported under both the time key and the conflict key.
   */
  lemma InvertedRangeCanAlsoConflict()
    ensures TimeKey in ValidateForm(InvertedRequest(), [StoredMorning()])
    ensures ConflictKey in ValidateForm(InvertedRequest(), [StoredMorning()])
  {
    InvertedRequestConflicts();
    assert MrbUtils.ConflictsWith(InvertedRequest(), [StoredMorning()][0], None);
  }

  /** The result of a submit: the new form state and what was handed to `onSubmit`, if anything. */
  datatype SubmitResult = SubmitResult(state: FormState, submitted: Option<BookingFormData>)

  /** `handleSubmit`: validate, store the errors, and pass the data on only when there are none. */
  function HandleSubmit(st: FormState, bookings: seq<Booking>): (r: SubmitResult)
    ensures r.state.data == st.data
    ensures r.state.errors == ValidateForm(st.data, bookings)
    ensures r.submitted.Some? <==> |r.state.errors| == 0
    ensures r.submitted.Some? ==> r.submitted.value == st.data
  {
    var errors := ValidateForm(st.data, bookings);
    var next := st.(errors := errors);
    if |errors| == 0 then SubmitResult(next, Some(st.data)) else SubmitResult(next, None)
  }

  /** A change of one form field, carrying its new value. */
  datatype Change =
    | SetRoomId(roomId: string)
    | SetTitle(title: string)
    | SetDate(date: string)
    | SetStartTime(startTime: TimeStr)
    | SetEndTime(endTime: TimeStr)

  /** The field name the change is made under. */
  function FieldName(c: Change): string {
    match c
    case SetRoomId(_) => "roomId"
    case SetTitle(_) => "title"
    case SetDate(_) => "date"
    case SetStartTime(_) => "startTime"
    case SetEndTime(_) => "endTime"
  }

  function Apply(data: BookingFormData, c: Change): BookingFormData {
    match c
    case SetRoomId(v) => data.(roomId := v)
    case SetTitle(v) => data.(title := v)
    case SetDate(v) => data.(date := v)
    case SetStartTime(t) => data.(startTime := t)
    case SetEndTime(t) => data.(endTime := t)
  }

  /**
   * `handleChange`: update the one field and delete the error stored under
   * that field's name, if any.
   */
  function HandleChange(st: FormState, c: Change): (r: FormState)
    ensures r.data == Apply(st.data, c)
    ensures forall k :: k in r.errors <==> k in st.errors && KeyName(k) != FieldName(c)
  {
    var data := Apply(st.data, c);
    FormState(data, set k | k in st.errors && KeyName(k) != FieldName(c))
  }

  /** Editing the title, room or date clears exactly that field's message. */
  lemma EditClearsOwnField(st: FormState, c: Change)
    requires c.SetTitle? || c.SetRoomId? || c.SetDate?
    ensures var k := if c.SetTitle? then TitleKey else if c.SetRoomId? then RoomIdKey else DateKey;
      && k !in HandleChange(st, c).errors
      && forall k' :: k' != k ==> (k' in HandleChange(st, c).errors <==> k' in st.errors)
  {
    var k := if c.SetTitle? then TitleKey else if c.SetRoomId? then RoomIdKey else DateKey;
    forall k' | k' != k
      ensures KeyName(k') != FieldName(c)
    {
      assert KeyName(k') != KeyName(k) by { DistinctKeyNames(k', k); }
    }
  }

  lemma DistinctKeyNames(a: ErrorKey, b: ErrorKey)
    requires a != b
    ensures KeyName(a) != KeyName(b)
  {
  }

  /**
   * The time and conflict messages are keyed by no field name, so no edit
   * clears them: they stay until the next validation.
   */
  lemma TimeAndConflictErrorsSurviveEdits(st: FormState, c: Change)
    ensures TimeKey in st.errors ==> TimeKey in HandleChange(st, c).errors
    ensures ConflictKey in st.errors ==> ConflictKey in HandleChange(st, c).errors
  {
  }

  /** Both time selects offer `generateTimeSlots(8, 18, 30)`: 08:00 to 18:00 every half hour. */
  function TimeOptions(): (r: seq<TimeStr>)
    ensures |r| == 21
    ensures Ascending(r)
    ensures r[0] == Clock(8, 0) && r[20] == Clock(18, 0)
    ensures forall t :: t in r <==> t == Clock(18, 0) || (8 <= Hour(t) < 18 && Minute(t) % 30 == 0)
  {
    SrcUtils.TimeSlotsMembers(8, 18, 30);
    SrcUtils.TimeSlotsAscending(8, 18, 30);
    SrcUtils.DefaultTimeSlotsEnds();
    SrcUtils.DefaultTimeSlots()
  }
}
