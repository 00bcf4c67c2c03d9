/**
 * The overview of src/components/BookingOverview.tsx: every booking sorted
 * by date then start time, optionally narrowed to one room or one date, and
 * grouped by room or by date in order of first appearance.
 */
module SrcOverview {
  import opened Seqs
  import opened Text
  import opened Times
  import opened Types
  import opened Collections

  /** The two grouping modes of the group selector. */
  datatype Grouping = GroupRoom | GroupDate

  /** The filter value that selects everything. */
  const AllFilter := "all"

  /** The component's state: the grouping mode and the filter select's value. */
  datatype OverviewState = OverviewState(groupBy: Grouping, selectedFilter: string)

  /** The field a grouping mode keys on. */
  function GroupField(g: Grouping): Field {
    match g
    case GroupRoom => RoomField
    case GroupDate => DateField
  }

  /** Opens grouped by room, unfiltered. */
  const Initial := OverviewState(GroupRoom, AllFilter)

  /** `sortedBookings`: a copy of all bookings ordered by date, then by start time. */
  function SortedBookings(bookings: seq<Booking>): (r: seq<Booking>)
    ensures Sorted(r, ByDateThenStart)
    ensures multiset(r) == multiset(bookings)
  {
    Sort(bookings, ByDateThenStart)
  }

  /**
   * `filteredBookings`: all sorted bookings for the "all" filter, otherwise
   * those whose room (grouping by room) or date (grouping by date) equals
   * the filter value.
   */
  function FilteredBookings(st: OverviewState, bookings: seq<Booking>): (r: seq<Booking>)
    ensures Sorted(r, ByDateThenStart)
    ensures st.selectedFilter == AllFilter ==> multiset(r) == multiset(bookings)
    ensures st.selectedFilter != AllFilter ==>
      forall b :: b in r <==> b in bookings && KeyOf(b, GroupField(st.groupBy)) == st.selectedFilter
  {
    var sorted := SortedBookings(bookings);
    SameMembers(sorted, bookings);
    if st.selectedFilter == AllFilter then sorted
    else
      SelectKeepsSorted(sorted, KeyIs(GroupField(st.groupBy), st.selectedFilter), ByDateThenStart);
      Select(sorted, KeyIs(GroupField(st.groupBy), st.selectedFilter))
  }

  /** `groupedBookings`: the filtered bookings grouped by the current field, in order of first appearance. */
  function GroupedBookings(st: OverviewState, bookings: seq<Booking>): seq<Group> {
    GroupBy(FilteredBookings(st, bookings), GroupField(st.groupBy))
  }

  /**
   * The groups partition the filtered list: each holds exactly the bookings
   * with its key, in sorted order; the keys are distinct; and the group
   * sizes add up to the number of filtered bookings.
   */
  lemma GroupsPartitionFiltered(st: OverviewState, bookings: seq<Booking>)
    ensures var gs, r, f := GroupedBookings(st, bookings), FilteredBookings(st, bookings), GroupField(st.groupBy);
      && TotalMembers(gs) == |r|
      && (forall i :: 0 <= i < |gs| ==> gs[i].members == Select(r, KeyIs(f, gs[i].key)))
      && (forall i :: 0 <= i < |gs| ==> Sorted(gs[i].members, ByDateThenStart))
      && (forall i, j :: 0 <= i < j < |gs| ==> gs[i].key != gs[j].key)
  {
    var r, f := FilteredBookings(st, bookings), GroupField(st.groupBy);
    var gs := GroupBy(r, f);
    GroupSizesSum(r, f);
    GroupByMembers(r, f);
    GroupByKeys(r, f);
    forall i | 0 <= i < |gs|
      ensures Sorted(gs[i].members, ByDateThenStart)
    {
      SelectKeepsSorted(r, KeyIs(f, gs[i].key), ByDateThenStart);
    }
    forall i, j | 0 <= i < j < |gs|
      ensures gs[i].key != gs[j].key
    {
      DistinctKeysAreDistinct(r, f, i, j);
    }
  }

  /** Grouped by date, the date sections come out in ascending date order. */
  lemma DateGroupsAscending(st: OverviewState, bookings: seq<Booking>)
    requires st.groupBy == GroupDate
    ensures var gs := GroupedBookings(st, bookings);
      forall i, j :: 0 <= i < j < |gs| ==> LexLess(gs[i].key, gs[j].key)
  {
    var r := FilteredBookings(st, bookings);
    var gs := GroupBy(r, DateField);
    var ks := DistinctKeys(r, DateField);
    GroupByKeys(r, DateField);
    DistinctKeysInFirstOccurrenceOrder(r, DateField);
    forall i, j | 0 <= i < j < |gs|
      ensures LexLess(gs[i].key, gs[j].key)
    {
      assert gs[i].key == ks[i] && gs[j].key == ks[j];
      assert ks[i] in ks && ks[j] in ks;
      var p, q := FirstWithKey(r, DateField, ks[i]), FirstWithKey(r, DateField, ks[j]);
      ChronologicalWhenSorted(r, p, q);
      DistinctKeysAreDistinct(r, DateField, i, j);
    }
  }

  /** A specific filter value leaves at most one group, and that group is keyed by the value. */
  lemma SpecificFilterOneGroup(st: OverviewState, bookings: seq<Booking>)
    requires st.selectedFilter != AllFilter
    ensures var gs := GroupedBookings(st, bookings);
      |gs| <= 1 && forall i :: 0 <= i < |gs| ==> gs[i].key == st.selectedFilter
  {
    var r, f := FilteredBookings(st, bookings), GroupField(st.groupBy);
    var gs := GroupBy(r, f);
    var ks := DistinctKeys(r, f);
    GroupByKeys(r, f);
    forall i | 0 <= i < |gs|
      ensures gs[i].key == st.selectedFilter
    {
      assert gs[i].key == ks[i] && ks[i] in ks;
      var p := FirstWithKey(r, f, ks[i]);
      assert r[p] in r;
    }
    if |gs| > 1 {
      DistinctKeysAreDistinct(r, f, 0, 1);
    }
  }

  /** The dates of the bookings, in list order. */
  function Dates(bookings: seq<Booking>): (ds: seq<string>)
    ensures forall d :: d in ds <==> exists b :: b in bookings && b.date == d
  {
    if |bookings| == 0 then []
    else
      SplitFirst(bookings);
      [bookings[0].date] + Dates(bookings[1..])
  }

  /**
   * `filterOptions`: the room ids in room order when grouping by room; the
   * distinct booking dates in ascending order when grouping by date.
   */
  function FilterOptions(g: Grouping, rooms: seq<Room>, bookings: seq<Booking>): (r: seq<string>)
    ensures g == GroupRoom ==> |r| == |rooms| && forall i :: 0 <= i < |r| ==> r[i] == rooms[i].id
    ensures g == GroupDate ==> StrictlyIncreasing(r) && forall d :: d in r <==> exists b :: b in bookings && b.date == d
  {
    match g
    case GroupRoom => seq(|rooms|, i requires 0 <= i < |rooms| => rooms[i].id)
    case GroupDate => SortedDistinct(Dates(bookings))
  }

  /**
   * The date options are the one ascending list without repeats of the
   * dates that have bookings: any such list equals them.
   */
  lemma DateOptionsUnique(rooms: seq<Room>, bookings: seq<Booking>, ds: seq<string>)
    requires StrictlyIncreasing(ds)
    requires forall d :: d in ds <==> exists b :: b in bookings && b.date == d
    ensures FilterOptions(GroupDate, rooms, bookings) == ds
  {
    StrictlyIncreasingUnique(FilterOptions(GroupDate, rooms, bookings), ds);
  }

  /** The group selector's `onChange`: set the mode and reset the filter to "all". */
  function SetGroupBy(st: OverviewState, g: Grouping): (r: OverviewState)
    ensures r.groupBy == g && r.selectedFilter == AllFilter
  {
    OverviewState(g, AllFilter)
  }

  /** The filter selector's `onChange`. */
  function SetFilter(st: OverviewState, value: string): (r: OverviewState)
    ensures r.groupBy == st.groupBy && r.selectedFilter == value
  {
    st.(selectedFilter := value)
  }

  /** Switching the grouping, whatever the filter was, shows every booking again. */
  lemma SwitchingGroupingShowsAll(st: OverviewState, g: Grouping, bookings: seq<Booking>)
    ensures multiset(FilteredBookings(SetGroupBy(st, g), bookings)) == multiset(bookings)
    ensures TotalMembers(GroupedBookings(SetGroupBy(st, g), bookings)) == |bookings|
  {
    var r := FilteredBookings(SetGroupBy(st, g), bookings);
    assert |r| == |multiset(r)| == |multiset(bookings)| == |bookings|;
    GroupSizesSum(r, GroupField(g));
  }

  /** The "Total Bookings" figure. */
  function TotalBookings(st: OverviewState, bookings: seq<Booking>): nat {
    |FilteredBookings(st, bookings)|
  }

  /** The "Rooms with Bookings" / "Days with Bookings" figure. */
  function GroupCount(st: OverviewState, bookings: seq<Booking>): nat {
    |GroupedBookings(st, bookings)|
  }

  /** The "No bookings found" state. */
  predicate ShowsEmptyState(st: OverviewState, bookings: seq<Booking>) {
    GroupCount(st, bookings) == 0
  }

  /**
   * The two figures agree: there are never more groups than bookings, and
   * the empty state shows exactly when no booking passes the filter.
   */
  lemma StatsAgree(st: OverviewState, bookings: seq<Booking>)
    ensures GroupCount(st, bookings) <= TotalBookings(st, bookings)
    ensures ShowsEmptyState(st, bookings) <==> TotalBookings(st, bookings) == 0
    ensures ShowsEmptyState(st, bookings) <==>
      if st.selectedFilter == AllFilter then |bookings| == 0
      else forall b :: b in bookings ==> KeyOf(b, GroupField(st.groupBy)) != st.selectedFilter
  {
    var r := FilteredBookings(st, bookings);
    GroupCountBounds(r, GroupField(st.groupBy));
    if |r| > 0 {
      assert r[0] in r;
    }
    if st.selectedFilter == AllFilter {
      assert |r| == |multiset(r)| == |multiset(bookings)| == |bookings|;
    }
  }

  /**
   * A room whose id is "all" cannot be picked on its own: its filter option
   * carries the same value as "All Rooms", so choosing it also shows the
   * bookings of every other room.
   */
  lemma RoomNamedAllShowsEverything()
    ensures var st := SetFilter(Initial, FilterOptions(GroupRoom, [Room("all", "All Hands", 40)], [])[0]);
      var other := Booking("b1", "atlas", "Sync", "2026-02-04", Clock(9, 0), Clock(10, 0));
      other in FilteredBookings(st, [other])
  {
    var other := Booking("b1", "atlas", "Sync", "2026-02-04", Clock(9, 0), Clock(10, 0));
    assert other in multiset([other]);
  }
}
