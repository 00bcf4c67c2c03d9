/**
 * The booking store of src/App.tsx: its own inline overlap test, the submit
 * handler that validates and then appends, and the two grouped views. The
 * central invariant is that an accepted submission never creates an overlap
 * between two bookings of the same room on the same date.
 */
module SrcApp {
  import opened Seqs
  import opened Text
  import opened Times
  import opened Types
  import opened Collections
  import MrbUtils

  /** `overlaps`: same room, same date and overlapping half-open ranges. */
  function Overlaps(a: Booking, b: Booking): (r: bool)
    ensures r <==> a.roomId == b.roomId && a.date == b.date
                   && MrbUtils.DoTimesOverlap(a.startTime, a.endTime, b.startTime, b.endTime)
  {
    var sameRoomAndDate := a.roomId == b.roomId && a.date == b.date;
    if !sameRoomAndDate then false
    else
      var startA, endA := Minutes(a.startTime), Minutes(a.endTime);
      var startB, endB := Minutes(b.startTime), Minutes(b.endTime);
      startA < endB && endA > startB
  }

  lemma OverlapsSymmetric(a: Booking, b: Booking)
    ensures Overlaps(a, b) == Overlaps(b, a)
  {
  }

  /** The editable fields of the booking form. */
  datatype Form = Form(title: string, roomId: string, date: string, startTime: TimeStr, endTime: TimeStr)

  /** The state `App` keeps: the store, the selection, the form and the two banners. */
  datatype AppState = AppState(
    bookings: seq<Booking>,
    selectedRoomId: string,
    selectedDate: string,
    form: Form,
    error: string,
    success: string)

  const DefaultTitle := "New Booking"
  const UntitledTitle := "Untitled Meeting"
  const RangeError := "End time must be after start time."
  const ConflictError := "This room already has a booking in that time range."
  const CreatedMessage := "Booking created and scheduled."

  /** The initial form: the given first room and date, "New Booking" from 10:00 to 11:00. */
  function InitialForm(firstRoomId: string, today: string): (f: Form)
    ensures f.title == DefaultTitle && f.roomId == firstRoomId && f.date == today
    ensures Minutes(f.startTime) == 600 && Minutes(f.endTime) == 660
  {
    Form(DefaultTitle, firstRoomId, today, Clock(10, 0), Clock(11, 0))
  }

  /** `form.title.trim() || 'Untitled Meeting'`. */
  function StoredTitle(title: string): (r: string)
    ensures r != []
    ensures AllWhitespace(title) ==> r == UntitledTitle
    ensures !AllWhitespace(title) ==> r == Trim(title) && !IsWhitespace(r[0]) && !IsWhitespace(r[|r| - 1])
  {
    TrimEmptyIffAllWhitespace(title);
    var t := Trim(title);
    if t == [] then UntitledTitle else t
  }

  /** The booking a submission would create, with the id the caller generated. */
  function Candidate(st: AppState, newId: string): Booking {
    Booking(newId, st.form.roomId, StoredTitle(st.form.title), st.form.date, st.form.startTime, st.form.endTime)
  }

  /** `bookings.some(b => overlaps(b, newBooking))`. */
  function AnyOverlap(bookings: seq<Booking>, nb: Booking): (r: bool)
    ensures r <==> exists i :: 0 <= i < |bookings| && Overlaps(bookings[i], nb)
  {
    if |bookings| == 0 then false
    else if Overlaps(bookings[0], nb) then true
    else
      var r := AnyOverlap(bookings[1..], nb);
      assert forall i :: 1 <= i < |bookings| ==> bookings[i] == bookings[1..][i - 1];
      r
  }

  /**
   * `handleSubmit`: clear both banners, reject an empty or inverted range,
   * then reject an overlap with any stored booking, and otherwise append the
   * new booking, select its room and date and reset the title.
   */
  function HandleSubmit(st: AppState, newId: string): (r: AppState)
    ensures var nb := Candidate(st, newId);
      && (Minutes(nb.endTime) <= Minutes(nb.startTime) ==>
            r == st.(error := RangeError, success := ""))
      && (Minutes(nb.startTime) < Minutes(nb.endTime) && (exists i :: 0 <= i < |st.bookings| && Overlaps(st.bookings[i], nb)) ==>
            r == st.(error := ConflictError, success := ""))
      && (r.error == "" <==> Minutes(nb.startTime) < Minutes(nb.endTime)
                             && forall i :: 0 <= i < |st.bookings| ==> !Overlaps(st.bookings[i], nb))
      && (r.error == "" ==>
            && r.bookings == st.bookings + [nb]
            && r.selectedRoomId == nb.roomId && r.selectedDate == nb.date
            && r.form == st.form.(title := DefaultTitle)
            && r.success == CreatedMessage)
  {
    var cleared := st.(error := "", success := "");
    var nb := Candidate(st, newId);
    if Minutes(nb.endTime) <= Minutes(nb.startTime) then
      cleared.(error := RangeError)
    else if AnyOverlap(st.bookings, nb) then
      cleared.(error := ConflictError)
    else
      cleared.(
        bookings := st.bookings + [nb],
        selectedRoomId := nb.roomId,
        selectedDate := nb.date,
        form := st.form.(title := DefaultTitle),
        success := CreatedMessage)
  }

  /** A rejected submission leaves the store as it was; an accepted one appends exactly one booking. */
  lemma SubmitAppendsOrKeeps(st: AppState, newId: string)
    ensures var r := HandleSubmit(st, newId);
      || r.bookings == st.bookings
      || (|r.bookings| == |st.bookings| + 1 && r.bookings[..|st.bookings|] == st.bookings
          && r.bookings[|st.bookings|].id == newId)
  {
    var r := HandleSubmit(st, newId);
    if r.error == "" {
      assert r.bookings[..|st.bookings|] == st.bookings;
    }
  }

  /** No two bookings of the store overlap (same room, same date, shared minutes). */
  predicate NonOverlapping(bookings: seq<Booking>) {
    forall i, j :: 0 <= i < j < |bookings| ==> !Overlaps(bookings[i], bookings[j])
  }

  /** Accepted submissions keep the store free of overlaps. */
  lemma SubmitPreservesNonOverlapping(st: AppState, newId: string)
    requires NonOverlapping(st.bookings)
    ensures NonOverlapping(HandleSubmit(st, newId).bookings)
  {
    var r := HandleSubmit(st, newId);
    var nb := Candidate(st, newId);
    if r.error == "" {
      var bs := r.bookings;
      forall i, j | 0 <= i < j < |bs|
        ensures !Overlaps(bs[i], bs[j])
      {
        if j == |st.bookings| {
          assert bs[i] == st.bookings[i] && bs[j] == nb;
        } else {
          assert bs[i] == st.bookings[i] && bs[j] == st.bookings[j];
        }
      }
    }
  }

  /** Every booking in the store has a non-empty range. */
  predicate ValidRanges(bookings: seq<Booking>) {
    forall i :: 0 <= i < |bookings| ==> Minutes(bookings[i].startTime) < Minutes(bookings[i].endTime)
  }

  lemma SubmitPreservesValidRanges(st: AppState, newId: string)
    requires ValidRanges(st.bookings)
    ensures ValidRanges(HandleSubmit(st, newId).bookings)
  {
    var r := HandleSubmit(st, newId);
    if r.error == "" {
      assert forall i :: 0 <= i < |st.bookings| ==> r.bookings[i] == st.bookings[i];
    }
  }

  /**
   * `groupedByDate`: the reduce that appends each booking to the entry of its
   * date, creating the entry on first sight.
   */
  function GroupedByDate(bookings: seq<Booking>): (r: map<string, seq<Booking>>)
    ensures forall d :: d in r <==> Select(bookings, KeyIs(DateField, d)) != []
    ensures forall d :: d in r ==> r[d] == Select(bookings, KeyIs(DateField, d))
  {
    if |bookings| == 0 then map[]
    else
      var prefix := bookings[..|bookings| - 1];
      var b := bookings[|bookings| - 1];
      var acc := GroupedByDate(prefix);
      var r := acc[b.date := if b.date in acc then acc[b.date] + [b] else [b]];
      SplitLast(bookings);
      GroupedByDateStep(prefix, b, acc);
      r
  }

  /** One step of the reduce keeps the map equal to the per-date filters of the bookings seen so far. */
  lemma GroupedByDateStep(prefix: seq<Booking>, b: Booking, acc: map<string, seq<Booking>>)
    requires forall d :: d in acc <==> Select(prefix, KeyIs(DateField, d)) != []
    requires forall d :: d in acc ==> acc[d] == Select(prefix, KeyIs(DateField, d))
    ensures var r := acc[b.date := if b.date in acc then acc[b.date] + [b] else [b]];
      && (forall d :: d in r <==> Select(prefix + [b], KeyIs(DateField, d)) != [])
      && (forall d :: d in r ==> r[d] == Select(prefix + [b], KeyIs(DateField, d)))
  {
    forall d
      ensures Select(prefix + [b], KeyIs(DateField, d))
        == Select(prefix, KeyIs(DateField, d)) + if b.date == d then [b] else []
    {
      SelectSnoc(prefix, b, KeyIs(DateField, d));
    }
  }

  /** `sameRoom.sort((a, b) => toMinutes(a.startTime) - toMinutes(b.startTime))` for one room. */
  function RoomSchedule(bookings: seq<Booking>, roomId: string): (r: seq<Booking>)
    ensures Sorted(r, ByStartMinutes)
    ensures multiset(r) == multiset(Select(bookings, KeyIs(RoomField, roomId)))
    ensures forall b :: b in r <==> b in bookings && b.roomId == roomId
  {
    var r := Sort(Select(bookings, KeyIs(RoomField, roomId)), ByStartMinutes);
    assert forall b :: b in r <==> b in multiset(r);
    r
  }

  /**
   * `groupedByRoom`: one entry per room id, holding exactly that room's
   * bookings in ascending order of start time. The reduce assigns each room's
   * entry once per occurrence of the room, always with the same value, so the
   * result is this map.
   */
  function GroupedByRoom(rooms: seq<Room>, bookings: seq<Booking>): (r: map<string, seq<Booking>>)
    ensures forall id :: id in r <==> exists i :: 0 <= i < |rooms| && rooms[i].id == id
    ensures forall id :: id in r ==> r[id] == RoomSchedule(bookings, id)
  {
    map id | id in (set i | 0 <= i < |rooms| :: rooms[i].id) :: RoomSchedule(bookings, id)
  }

  /** Each entry holds exactly the room's bookings, each as often as in the list, in ascending order of start time. */
  lemma GroupedByRoomEntries(rooms: seq<Room>, bookings: seq<Booking>, id: string)
    requires id in GroupedByRoom(rooms, bookings)
    ensures Sorted(GroupedByRoom(rooms, bookings)[id], ByStartMinutes)
    ensures forall b :: b in GroupedByRoom(rooms, bookings)[id] <==> b in bookings && b.roomId == id
    ensures multiset(GroupedByRoom(rooms, bookings)[id]) == multiset(Select(bookings, KeyIs(RoomField, id)))
  {
  }
}
