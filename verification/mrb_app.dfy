/**
 * The top-level state of meeting-room-booking/src/App.tsx as a state
 * machine: the booking store, the current view, the selected room and date,
 * and the context the booking form is opened with. Each handler is a pure
 * function from state to state.
 */
module MrbApp {
  import Text
  import opened Seqs
  import opened Times
  import opened Types
  import opened Collections
  import MrbUtils
  import MrbForm

  /** `bookingFormContext`: the optional room, date and start time the form opens with. */
  datatype FormContext = FormContext(roomId: Option<string>, date: Option<string>, startTime: Option<TimeStr>)

  /** The cleared context `{}`. */
  const NoContext := FormContext(None, None, None)

  datatype AppState = AppState(
    bookings: seq<Booking>,
    view: ViewType,
    selectedRoom: Option<Room>,
    selectedDate: string,
    context: FormContext)

  /** The start-up state: the seed bookings, the room list, no room, today, no context. */
  function InitialState(seed: seq<Booking>, today: string): (st: AppState)
    ensures st.bookings == seed && st.view == RoomsView && st.selectedRoom.None?
    ensures st.selectedDate == today && st.context == NoContext
  {
    AppState(seed, RoomsView, None, today, NoContext)
  }

  /** `handleNavigate`: switch view; leaving for anything but the form clears the context. */
  function Navigate(st: AppState, view: ViewType): (r: AppState)
    ensures r.view == view
    ensures view != BookingFormView ==> r.context == NoContext
    ensures view == BookingFormView ==> r.context == st.context
    ensures r.bookings == st.bookings && r.selectedRoom == st.selectedRoom && r.selectedDate == st.selectedDate
  {
    var next := st.(view := view);
    if view != BookingFormView then next.(context := NoContext) else next
  }

  /** `handleSelectRoom`: remember the room and open its calendar. */
  function SelectRoom(st: AppState, room: Room): (r: AppState)
    ensures r.selectedRoom == Some(room) && r.view == CalendarView
    ensures r.bookings == st.bookings && r.selectedDate == st.selectedDate && r.context == st.context
  {
    st.(selectedRoom := Some(room), view := CalendarView)
  }

  /** `handleDateChange`. */
  function ChangeDate(st: AppState, date: string): (r: AppState)
    ensures r.selectedDate == date
    ensures r.bookings == st.bookings && r.view == st.view && r.selectedRoom == st.selectedRoom && r.context == st.context
  {
    st.(selectedDate := date)
  }

  /**
   * `handleSlotClick`: with a room selected, open the form on that room,
   * the selected date and the clicked start time; without one, do nothing.
   */
  function SlotClick(st: AppState, startTime: TimeStr): (r: AppState)
    ensures st.selectedRoom.None? ==> r == st
    ensures st.selectedRoom.Some? ==>
      r.view == BookingFormView && r.context == FormContext(Some(st.selectedRoom.value.id), Some(st.selectedDate), Some(startTime))
    ensures r.bookings == st.bookings && r.selectedRoom == st.selectedRoom && r.selectedDate == st.selectedDate
  {
    match st.selectedRoom
    case None => st
    case Some(room) =>
      st.(context := FormContext(Some(room.id), Some(st.selectedDate), Some(startTime)), view := BookingFormView)
  }

  /**
   * `handleCreateBooking`: append the form data under a fresh id, with no
   * validation of its own, clear the context and show the overview. The id
   * generator is outside the model: the id is a parameter.
   */
  function CreateBooking(st: AppState, data: BookingFormData, newId: string): (r: AppState)
    ensures |r.bookings| == |st.bookings| + 1
    ensures r.bookings[..|st.bookings|] == st.bookings
    ensures r.bookings[|st.bookings|] == WithId(data, newId)
    ensures r.context == NoContext && r.view == OverviewView
    ensures r.selectedRoom == st.selectedRoom && r.selectedDate == st.selectedDate
  {
    st.(bookings := st.bookings + [WithId(data, newId)], context := NoContext, view := OverviewView)
  }

  /** `handleDeleteBooking`: drop every booking carrying the id, keeping the rest in order. */
  function DeleteBooking(st: AppState, id: string): (r: AppState)
    ensures forall b :: b in r.bookings <==> b in st.bookings && b.id != id
    ensures |r.bookings| <= |st.bookings|
    ensures r.view == st.view && r.selectedRoom == st.selectedRoom && r.selectedDate == st.selectedDate
    ensures r.context == st.context
  {
    st.(bookings := Select(st.bookings, IdIsNot(id)))
  }

  /** `handleCancelBooking`: clear the context and go back to the calendar, or to the rooms without a room. */
  function CancelBooking(st: AppState): (r: AppState)
    ensures r.context == NoContext
    ensures r.view == if st.selectedRoom.Some? then CalendarView else RoomsView
    ensures r.bookings == st.bookings && r.selectedRoom == st.selectedRoom && r.selectedDate == st.selectedDate
  {
    var next := st.(context := NoContext);
    if st.selectedRoom.Some? then next.(view := CalendarView) else next.(view := RoomsView)
  }

  /** The ids in the store. */
  predicate HasId(bookings: seq<Booking>, id: string) {
    exists i :: 0 <= i < |bookings| && bookings[i].id == id
  }

  /** Deleting an id nobody carries leaves the store exactly as it was. */
  lemma DeleteUnknownIdKeepsStore(st: AppState, id: string)
    requires !HasId(st.bookings, id)
    ensures DeleteBooking(st, id) == st
  {
    SelectAllMatch(st.bookings, IdIsNot(id));
  }

  /** Deleting twice is deleting once; afterwards no booking carries the id. */
  lemma DeleteIdempotent(st: AppState, id: string)
    ensures DeleteBooking(DeleteBooking(st, id), id) == DeleteBooking(st, id)
    ensures !HasId(DeleteBooking(st, id).bookings, id)
  {
    SelectIdempotent(st.bookings, IdIsNot(id));
  }

  /** Creating a booking and then deleting its fresh id gives back the earlier store. */
  lemma DeleteUndoesCreate(st: AppState, data: BookingFormData, newId: string)
    requires !HasId(st.bookings, newId)
    ensures DeleteBooking(CreateBooking(st, data, newId), newId).bookings == st.bookings
  {
    SelectConcat(st.bookings, [WithId(data, newId)], IdIsNot(newId));
    SelectSingleton(WithId(data, newId), IdIsNot(newId));
    SelectAllMatch(st.bookings, IdIsNot(newId));
  }

  /** Every booking carries a different id. */
  predicate UniqueIds(bookings: seq<Booking>) {
    Pairwise(bookings, DistinctIds)
  }

  predicate DistinctIds(a: Booking, b: Booking) {
    a.id != b.id
  }

  /** A fresh id on creation and any deletion keep the ids unique. */
  lemma StoreKeepsUniqueIds(st: AppState, data: BookingFormData, newId: string, id: string)
    requires UniqueIds(st.bookings)
    ensures !HasId(st.bookings, newId) ==> UniqueIds(CreateBooking(st, data, newId).bookings)
    ensures UniqueIds(DeleteBooking(st, id).bookings)
  {
    if !HasId(st.bookings, newId) {
      PairwiseSnoc(st.bookings, WithId(data, newId), DistinctIds);
    }
    SelectKeepsPairwise(st.bookings, IdIsNot(id), DistinctIds);
  }

  /** Two bookings of the same room and date whose ranges overlap. */
  predicate Clash(a: Booking, b: Booking) {
    a.roomId == b.roomId && a.date == b.date
    && MrbUtils.DoTimesOverlap(a.startTime, a.endTime, b.startTime, b.endTime)
  }

  predicate Compatible(a: Booking, b: Booking) {
    !Clash(a, b)
  }

  /** No two bookings of the same room and date overlap. */
  predicate ConflictFree(bookings: seq<Booking>) {
    Pairwise(bookings, Compatible)
  }

  /**
   * The form's submit path feeding the store: when the form accepts the
   * data against the current bookings, creating the booking keeps the store
   * conflict-free.
   */
  lemma AcceptedSubmitKeepsStoreConflictFree(st: AppState, data: BookingFormData, newId: string)
    requires ConflictFree(st.bookings)
    requires MrbForm.HandleSubmit(data, st.bookings).Submitted?
    ensures ConflictFree(CreateBooking(st, data, newId).bookings)
  {
    MrbForm.SubmitAcceptsIffChecksPass(data, st.bookings);
    var b := WithId(data, newId);
    forall i | 0 <= i < |st.bookings|
      ensures Compatible(st.bookings[i], b)
    {
      assert !MrbUtils.ConflictsWith(data, st.bookings[i], None);
      MrbUtils.OverlapSymmetric(st.bookings[i].startTime, st.bookings[i].endTime, data.startTime, data.endTime);
    }
    PairwiseSnoc(st.bookings, b, Compatible);
  }

  /** Deleting keeps the store conflict-free. */
  lemma DeleteKeepsStoreConflictFree(st: AppState, id: string)
    requires ConflictFree(st.bookings)
    ensures ConflictFree(DeleteBooking(st, id).bookings)
  {
    SelectKeepsPairwise(st.bookings, IdIsNot(id), Compatible);
  }

  /** The store accepts whatever it is handed: it appends even a booking that clashes with one already stored. */
  lemma CreateDoesNotValidate()
    ensures var st := InitialState([Booking("b1", "atlas", "Sync", "2026-02-04", Clock(9, 0), Clock(10, 0))], "2026-02-04");
      var r := CreateBooking(st, BookingFormData("atlas", "Review", "2026-02-04", Clock(9, 30), Clock(10, 30)), "b2");
      |r.bookings| == 2 && !ConflictFree(r.bookings)
  {
    var r := CreateBooking(InitialState([Booking("b1", "atlas", "Sync", "2026-02-04", Clock(9, 0), Clock(10, 0))], "2026-02-04"),
                           BookingFormData("atlas", "Review", "2026-02-04", Clock(9, 30), Clock(10, 30)), "b2");
    assert Minutes(Clock(9, 0)) == 540 && Minutes(Clock(10, 0)) == 600 && Minutes(Clock(9, 30)) == 570 && Minutes(Clock(10, 30)) == 630;
    assert r.bookings[0].startTime == Clock(9, 0) && r.bookings[1].startTime == Clock(9, 30);
  }

  /** `initialRoomId || ...`: an absent context value reaches the form as the empty string. */
  function OrEmpty(v: Option<string>): string {
    if v.Some? then v.value else ""
  }

  /** The booking form opened from the current context. */
  function OpenForm(st: AppState, rooms: seq<Room>, today: string): BookingFormData {
    MrbForm.InitialFormData(OrEmpty(st.context.roomId), rooms, OrEmpty(st.context.date), today, st.context.startTime)
  }

  /**
   * Clicking a free slot of the selected room opens the form on that room,
   * the selected date and the clicked slot, one hour long.
   */
  lemma SlotClickOpensFormOnSlot(st: AppState, rooms: seq<Room>, today: string, t: TimeStr)
    requires st.selectedRoom.Some? && st.selectedRoom.value.id != "" && st.selectedDate != ""
    requires Minutes(t) + 60 <= MrbForm.DayEnd
    ensures var d := OpenForm(SlotClick(st, t), rooms, today);
      && d.roomId == st.selectedRoom.value.id && d.date == st.selectedDate
      && d.startTime == t && Minutes(d.endTime) == Minutes(t) + 60
  {
    var clicked := SlotClick(st, t);
    assert clicked.context == FormContext(Some(st.selectedRoom.value.id), Some(st.selectedDate), Some(t));
    var d := MrbForm.InitialFormData(st.selectedRoom.value.id, rooms, st.selectedDate, today, Some(t));
    assert OpenForm(clicked, rooms, today) == d;
  }

  /**
   * With `incrementTime` as written, clicking the free 17:30 slot of the
   * selected room, giving a title and submitting stores a booking that ends
   * at "18:30", after the end of the day.
   */
  lemma AsWrittenSlotClickStoresPastDayEnd(st: AppState, rooms: seq<Room>, today: string, title: string, newId: string)
    requires st.selectedRoom.Some? && st.selectedRoom.value.id != "" && st.selectedDate != ""
    requires !Text.AllWhitespace(title)
    requires forall i :: 0 <= i < |st.bookings| ==>
      st.bookings[i].roomId != st.selectedRoom.value.id || st.bookings[i].date != st.selectedDate
    ensures var clicked := SlotClick(st, Clock(17, 30));
      var d0 := MrbForm.InitialFormDataAsWritten(OrEmpty(clicked.context.roomId), rooms, OrEmpty(clicked.context.date), today, clicked.context.startTime);
      var d := MrbForm.HandleChangeAsWritten(MrbForm.Slots(), MrbForm.FormState(d0, ""), MrbForm.SetTitle(title)).data;
      && MrbForm.HandleSubmit(d, clicked.bookings) == MrbForm.Submitted(d)
      && CreateBooking(clicked, d, newId).bookings == st.bookings + [Booking(newId, st.selectedRoom.value.id, title, st.selectedDate, Clock(17, 30), Clock(18, 30))]
      && Minutes(Clock(18, 30)) > MrbForm.DayEnd
  {
    var clicked := SlotClick(st, Clock(17, 30));
    assert clicked.context == FormContext(Some(st.selectedRoom.value.id), Some(st.selectedDate), Some(Clock(17, 30)));
    MrbForm.AsWrittenFormSubmitsPastDayEnd(st.selectedRoom.value.id, rooms, st.selectedDate, today, title, st.bookings);
  }

  /** Opening the form from a slot and cancelling goes back to the same calendar with nothing else changed. */
  lemma SlotClickThenCancel(st: AppState, t: TimeStr)
    requires st.selectedRoom.Some? && st.view == CalendarView && st.context == NoContext
    ensures CancelBooking(SlotClick(st, t)) == st
  {
  }
}
