/**
 * The overview of meeting-room-booking/src/components/BookingOverview.tsx:
 * the bookings of one date or of one room, sorted by date then start time,
 * and, when viewing a date, grouped into one section per room.
 */
module MrbOverview {
  import opened Text
  import opened Times
  import opened Types
  import opened Collections
  import MrbUtils

  datatype ViewMode = ByDate | ByRoom

  /** The component's state: the tab and the two filter inputs. */
  datatype OverviewState = OverviewState(viewMode: ViewMode, selectedDate: string, selectedRoomId: string)

  /** Opens on the date tab, on today, with the first room (or none) selected. */
  function InitialState(rooms: seq<Room>, today: string): (st: OverviewState)
    ensures st.viewMode == ByDate && st.selectedDate == today
    ensures st.selectedRoomId == if |rooms| > 0 then rooms[0].id else ""
  {
    OverviewState(ByDate, today, if |rooms| > 0 then rooms[0].id else "")
  }

  /** The filter the current tab applies. */
  function TabFilter(st: OverviewState): Criterion {
    match st.viewMode
    case ByDate => KeyIs(DateField, st.selectedDate)
    case ByRoom => KeyIs(RoomField, st.selectedRoomId)
  }

  /** `filteredBookings`: the bookings of the selected date, or of the selected room. */
  function FilteredBookings(st: OverviewState, bookings: seq<Booking>): (r: seq<Booking>)
    ensures st.viewMode == ByDate ==> forall b :: b in r <==> b in bookings && b.date == st.selectedDate
    ensures st.viewMode == ByRoom ==> forall b :: b in r <==> b in bookings && b.roomId == st.selectedRoomId
    ensures r == Select(bookings, TabFilter(st))
  {
    match st.viewMode
    case ByDate => MrbUtils.GetBookingsForDate(st.selectedDate, bookings)
    case ByRoom => Select(bookings, KeyIs(RoomField, st.selectedRoomId))
  }

  /** `sortedBookings`: the filtered bookings by date, then by start time. */
  function SortedBookings(st: OverviewState, bookings: seq<Booking>): (r: seq<Booking>)
    ensures Sorted(r, ByDateThenStart)
    ensures multiset(r) == multiset(Select(bookings, TabFilter(st)))
  {
    Sort(FilteredBookings(st, bookings), ByDateThenStart)
  }

  /** `bookingsByRoom`: no sections on the room tab; one section per room, in order of appearance, on the date tab. */
  function BookingsByRoom(st: OverviewState, bookings: seq<Booking>): (gs: seq<Group>)
    ensures st.viewMode == ByRoom ==> gs == []
  {
    if st.viewMode != ByDate then [] else GroupBy(SortedBookings(st, bookings), RoomField)
  }

  /** The "Total bookings" figure, which is also what decides the empty state. */
  function Total(st: OverviewState, bookings: seq<Booking>): nat {
    |SortedBookings(st, bookings)|
  }

  /**
   * The total counts every booking the tab's filter lets through, and the
   * empty state shows exactly when none does.
   */
  lemma TotalCountsMatches(st: OverviewState, bookings: seq<Booking>)
    ensures Total(st, bookings) == |Select(bookings, TabFilter(st))|
    ensures Total(st, bookings) == 0 <==> forall i :: 0 <= i < |bookings| ==> !Matches(bookings[i], TabFilter(st))
  {
    var sel := Select(bookings, TabFilter(st));
    var sorted := SortedBookings(st, bookings);
    assert |sorted| == |multiset(sorted)| == |multiset(sel)| == |sel|;
    if |sel| > 0 {
      assert sel[0] in sel;
    } else {
      forall i | 0 <= i < |bookings|
        ensures !Matches(bookings[i], TabFilter(st))
      {
        assert bookings[i] in bookings;
      }
    }
  }

  /**
   * On the date tab the room sections partition the day's sorted bookings:
   * every section holds exactly the bookings of its room, in start-time
   * order, the rooms are distinct, and the section sizes add up to the total.
   */
  lemma SectionsPartitionDay(st: OverviewState, bookings: seq<Booking>)
    requires st.viewMode == ByDate
    ensures var gs, sorted := BookingsByRoom(st, bookings), SortedBookings(st, bookings);
      && TotalMembers(gs) == Total(st, bookings)
      && (forall i :: 0 <= i < |gs| ==> gs[i].members == Select(sorted, KeyIs(RoomField, gs[i].key)))
      && (forall i :: 0 <= i < |gs| ==> Sorted(gs[i].members, ByStartMinutes))
      && (forall i, j :: 0 <= i < j < |gs| ==> gs[i].key != gs[j].key)
  {
    var sorted := SortedBookings(st, bookings);
    var gs := GroupBy(sorted, RoomField);
    GroupSizesSum(sorted, RoomField);
    GroupByMembers(sorted, RoomField);
    GroupByKeys(sorted, RoomField);
    forall i | 0 <= i < |gs|
      ensures Sorted(gs[i].members, ByStartMinutes)
    {
      SameDayByStart(st, bookings, KeyIs(RoomField, gs[i].key));
    }
    forall i, j | 0 <= i < j < |gs|
      ensures gs[i].key != gs[j].key
    {
      DistinctKeysAreDistinct(sorted, RoomField, i, j);
    }
  }

  /** A filtered part of one date's sorted bookings is in start-time order. */
  lemma SameDayByStart(st: OverviewState, bookings: seq<Booking>, c: Criterion)
    requires st.viewMode == ByDate
    ensures Sorted(Select(SortedBookings(st, bookings), c), ByStartMinutes)
  {
    var sorted := SortedBookings(st, bookings);
    SelectKeepsSorted(sorted, c, ByDateThenStart);
    var r := Select(sorted, c);
    forall i, j | 0 <= i < j < |r|
      ensures !Before(r[j], r[i], ByStartMinutes)
    {
      assert r[i] in sorted && r[j] in sorted;
      SameMembers(sorted, FilteredBookings(st, bookings));
      LexLessIsEarlier(r[j].startTime, r[i].startTime);
    }
  }
}
