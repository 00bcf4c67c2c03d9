/**
 * The list operations the booking views apply to `Booking[]`: `filter` with
 * the source's predicates, the stable `sort` with its two comparators, the
 * order-preserving group-by that both overviews build with `reduce`/`Map`,
 * `indexOf`, and the sorted distinct dates of a `Set`.
 */
module Collections {
  import opened Seqs
  import opened Text
  import opened Times
  import opened Types

  // ---------------------------------------------------------------- filter

  /** The two fields the views filter and group by. */
  datatype Field = RoomField | DateField

  function KeyOf(b: Booking, f: Field): string {
    match f
    case RoomField => b.roomId
    case DateField => b.date
  }

  /** `b.id !== excludeBookingId`, where an absent id excludes nothing. */
  predicate NotExcluded(b: Booking, exclude: Option<string>) {
    exclude.None? || b.id != exclude.value
  }

  /** The predicates the source passes to `Array.prototype.filter`. */
  datatype Criterion =
    | KeyIs(field: Field, value: string)
    | InRoomOnDate(roomId: string, date: string)
    | OthersInRoomOnDate(roomId: string, date: string, exclude: Option<string>)
    | OthersInRoom(roomId: string, exclude: Option<string>)
    | IdIsNot(id: string)

  predicate Matches(b: Booking, c: Criterion) {
    match c
    case KeyIs(f, v) => KeyOf(b, f) == v
    case InRoomOnDate(r, d) => b.roomId == r && b.date == d
    case OthersInRoomOnDate(r, d, ex) => b.roomId == r && b.date == d && NotExcluded(b, ex)
    case OthersInRoom(r, ex) => b.roomId == r && NotExcluded(b, ex)
    case IdIsNot(id) => b.id != id
  }

  /** `s.filter(b => Matches(b, c))`. */
  function Select(s: seq<Booking>, c: Criterion): (r: seq<Booking>)
    ensures |r| <= |s|
    ensures forall b :: b in r <==> b in s && Matches(b, c)
  {
    if |s| == 0 then []
    else
      SplitFirst(s);
      (if Matches(s[0], c) then [s[0]] else []) + Select(s[1..], c)
  }

  /** Filtering keeps the original order: it distributes over concatenation. */
  lemma {:induction false} SelectConcat(a: seq<Booking>, b: seq<Booking>, c: Criterion)
    ensures Select(a + b, c) == Select(a, c) + Select(b, c)
  {
    if |a| == 0 {
      assert a + b == b;
    } else {
      var head := if Matches(a[0], c) then [a[0]] else [];
      TailOfConcat(a, b);
      SelectConcat(a[1..], b, c);
      ConcatAssoc(head, Select(a[1..], c), Select(b, c));
    }
  }

  /** Filtering keeps any relation that holds between every earlier and later element. */
  lemma {:induction false} SelectKeepsPairwise(s: seq<Booking>, c: Criterion, p: (Booking, Booking) -> bool)
    requires Pairwise(s, p)
    ensures Pairwise(Select(s, c), p)
  {
    if |s| > 0 {
      SplitFirst(s);
      PairwiseCons(s[0], s[1..], p);
      SelectKeepsPairwise(s[1..], c, p);
      if Matches(s[0], c) {
        PairwiseCons(s[0], Select(s[1..], c), p);
      }
    }
  }

  /** Filtering keeps every occurrence of a passing booking and none of a failing one. */
  lemma {:induction false} SelectCounts(s: seq<Booking>, c: Criterion)
    ensures forall b :: multiset(Select(s, c))[b] == if Matches(b, c) then multiset(s)[b] else 0
  {
    if |s| > 0 {
      SelectCounts(s[1..], c);
      SplitFirst(s);
      assert multiset(s) == multiset{s[0]} + multiset(s[1..]);
    }
  }

  lemma SelectSingleton(x: Booking, c: Criterion)
    ensures Select([x], c) == if Matches(x, c) then [x] else []
  {
    assert [x][1..] == [];
  }

  /** A list whose every element passes the filter is returned unchanged. */
  lemma {:induction false} SelectAllMatch(s: seq<Booking>, c: Criterion)
    requires forall i :: 0 <= i < |s| ==> Matches(s[i], c)
    ensures Select(s, c) == s
  {
    if |s| > 0 {
      SelectAllMatch(s[1..], c);
      SplitFirst(s);
    }
  }

  /** Filtering twice with the same predicate is filtering once. */
  lemma SelectIdempotent(s: seq<Booking>, c: Criterion)
    ensures Select(Select(s, c), c) == Select(s, c)
  {
    var r := Select(s, c);
    forall i | 0 <= i < |r|
      ensures Matches(r[i], c)
    {
      assert r[i] in r;
    }
    SelectAllMatch(r, c);
  }

  /** Filtering a permutation gives a permutation of the filtered list. */
  lemma SelectPermutation(s: seq<Booking>, t: seq<Booking>, c: Criterion)
    requires multiset(s) == multiset(t)
    ensures multiset(Select(s, c)) == multiset(Select(t, c))
  {
    SelectCounts(s, c);
    SelectCounts(t, c);
    var a, b := multiset(Select(s, c)), multiset(Select(t, c));
    forall x
      ensures a[x] == b[x]
    {
    }
  }

  // ------------------------------------------------------------------ sort

  /**
   * The two comparators handed to `sort`: by start minutes
   * (`timeToMinutes(a.startTime) - timeToMinutes(b.startTime)`), and by date
   * then start time, each compared with `localeCompare`.
   */
  datatype SortOrder = ByStartMinutes | ByDateThenStart

  /** The comparator is negative: `a` goes strictly before `b`. */
  predicate Before(a: Booking, b: Booking, o: SortOrder) {
    match o
    case ByStartMinutes => Minutes(a.startTime) < Minutes(b.startTime)
    case ByDateThenStart => LexLess(a.date, b.date) || (a.date == b.date && LexLess(a.startTime, b.startTime))
  }

  lemma BeforeAsymmetric(a: Booking, b: Booking, o: SortOrder)
    requires Before(a, b, o)
    ensures !Before(b, a, o)
  {
    if o.ByDateThenStart? {
      if LexLess(a.date, b.date) {
        LexLessAsymmetric(a.date, b.date);
        LexLessIrreflexive(a.date);
      } else {
        LexLessAsymmetric(a.startTime, b.startTime);
        LexLessIrreflexive(a.date);
      }
    }
  }

  /** Not-after is transitive, so the comparator is a strict weak order. */
  lemma NotBeforeTransitive(a: Booking, b: Booking, c: Booking, o: SortOrder)
    requires !Before(a, b, o) && !Before(b, c, o)
    ensures !Before(a, c, o)
  {
    if o.ByDateThenStart? && Before(a, c, o) {
      if a.date != b.date {
        LexLessTotal(a.date, b.date);
      }
      if b.date != c.date {
        LexLessTotal(b.date, c.date);
      }
      if a.date == c.date {
        if a.date == b.date {
          if a.startTime != b.startTime {
            LexLessTotal(a.startTime, b.startTime);
          }
          if b.startTime != c.startTime {
            LexLessTotal(b.startTime, c.startTime);
          }
          if LexLess(b.startTime, a.startTime) && LexLess(c.startTime, b.startTime) {
            LexLessTransitive(c.startTime, b.startTime, a.startTime);
          }
          LexLessAsymmetric(a.startTime, c.startTime);
          LexLessIrreflexive(a.startTime);
        } else {
          LexLessAsymmetric(a.date, b.date);
        }
      } else {
        if LexLess(b.date, a.date) && LexLess(c.date, b.date) {
          LexLessTransitive(c.date, b.date, a.date);
        }
        LexLessAsymmetric(a.date, c.date);
        LexLessIrreflexive(a.date);
      }
    }
  }

  /** No element is followed by one that goes strictly before it. */
  predicate Sorted(s: seq<Booking>, o: SortOrder) {
    forall i, j :: 0 <= i < j < |s| ==> !Before(s[j], s[i], o)
  }

  /** No element of `s` goes strictly before `y`. */
  predicate NoneBefore(s: seq<Booking>, y: Booking, o: SortOrder) {
    forall k :: 0 <= k < |s| ==> !Before(s[k], y, o)
  }

  /** A sorted list stays sorted with an element in front that nothing in it goes before. */
  lemma SortedCons(y: Booking, s: seq<Booking>, o: SortOrder)
    requires Sorted(s, o) && NoneBefore(s, y, o)
    ensures Sorted([y] + s, o)
  {
    forall i, j | 0 <= i < j < |[y] + s|
      ensures !Before(([y] + s)[j], ([y] + s)[i], o)
    {
      assert ([y] + s)[j] == s[j - 1];
      if i > 0 {
        assert ([y] + s)[i] == s[i - 1];
      }
    }
  }

  /** Inserts `x` before the first element that does not go strictly before it. */
  function Insert(x: Booking, r: seq<Booking>, o: SortOrder): (q: seq<Booking>)
    ensures multiset(q) == multiset(r) + multiset{x}
    ensures |q| == |r| + 1
  {
    if |r| == 0 then [x]
    else if Before(r[0], x, o) then
      SplitFirst(r);
      [r[0]] + Insert(x, r[1..], o)
    else
      [x] + r
  }

  /** Inserting an element that nothing bounds from below keeps the bound. */
  lemma {:induction false} InsertKeepsBound(x: Booking, r: seq<Booking>, y: Booking, o: SortOrder)
    requires NoneBefore(r, y, o) && !Before(x, y, o)
    ensures NoneBefore(Insert(x, r, o), y, o)
  {
    if |r| > 0 && Before(r[0], x, o) {
      var rest := Insert(x, r[1..], o);
      assert NoneBefore(r[1..], y, o) by {
        forall k | 0 <= k < |r[1..]|
          ensures !Before(r[1..][k], y, o)
        {
          assert r[1..][k] == r[k + 1];
        }
      }
      InsertKeepsBound(x, r[1..], y, o);
      var q := [r[0]] + rest;
      forall k | 0 <= k < |q|
        ensures !Before(q[k], y, o)
      {
        if k > 0 {
          assert q[k] == rest[k - 1];
        }
      }
    } else if |r| > 0 {
      var q := [x] + r;
      forall k | 0 <= k < |q|
        ensures !Before(q[k], y, o)
      {
        if k > 0 {
          assert q[k] == r[k - 1];
        }
      }
    }
  }

  /** Insertion into a sorted list leaves it sorted. */
  lemma {:induction false} InsertSorted(x: Booking, r: seq<Booking>, o: SortOrder)
    requires Sorted(r, o)
    ensures Sorted(Insert(x, r, o), o)
  {
    if |r| > 0 {
      if Before(r[0], x, o) {
        var tail := r[1..];
        assert Sorted(tail, o) by {
          forall i, j | 0 <= i < j < |tail|
            ensures !Before(tail[j], tail[i], o)
          {
            assert tail[i] == r[i + 1] && tail[j] == r[j + 1];
          }
        }
        assert NoneBefore(tail, r[0], o) by {
          forall k | 0 <= k < |tail|
            ensures !Before(tail[k], r[0], o)
          {
            assert tail[k] == r[k + 1];
          }
        }
        InsertSorted(x, tail, o);
        BeforeAsymmetric(r[0], x, o);
        InsertKeepsBound(x, tail, r[0], o);
        SortedCons(r[0], Insert(x, tail, o), o);
      } else {
        forall k | 0 <= k < |r|
          ensures !Before(r[k], x, o)
        {
          if k > 0 {
            NotBeforeTransitive(r[k], r[0], x, o);
          }
        }
        SortedCons(x, r, o);
      }
    }
  }

  /** `[...s].sort(comparator)`: a stable insertion sort. */
  function Sort(s: seq<Booking>, o: SortOrder): (r: seq<Booking>)
    ensures Sorted(r, o)
    ensures multiset(r) == multiset(s)
    ensures |r| == |s|
  {
    if |s| == 0 then []
    else
      SplitFirst(s);
      var rest := Sort(s[1..], o);
      InsertSorted(s[0], rest, o);
      Insert(s[0], rest, o)
  }

  /** A permutation has the same members. */
  lemma SameMembers(a: seq<Booking>, b: seq<Booking>)
    requires multiset(a) == multiset(b)
    ensures forall x :: x in a <==> x in b
  {
    forall x
      ensures x in a <==> x in b
    {
      assert x in a <==> x in multiset(a);
      assert x in b <==> x in multiset(b);
    }
  }

  /** Filtering a sorted list leaves it sorted. */
  lemma {:induction false} SelectKeepsSorted(s: seq<Booking>, c: Criterion, o: SortOrder)
    requires Sorted(s, o)
    ensures Sorted(Select(s, c), o)
  {
    if |s| > 0 {
      SelectKeepsSorted(s[1..], c, o);
      var rest := Select(s[1..], c);
      if Matches(s[0], c) {
        var r := [s[0]] + rest;
        forall i, j | 0 <= i < j < |r|
          ensures !Before(r[j], r[i], o)
        {
          if i == 0 {
            assert r[j] == rest[j - 1] && r[j] in s[1..];
            var m :| 0 <= m < |s[1..]| && s[1..][m] == r[j];
            assert s[m + 1] == r[j];
          } else {
            assert r[i] == rest[i - 1] && r[j] == rest[j - 1];
          }
        }
      }
    }
  }

  /** A list sorted by date then start time is ordered chronologically. */
  lemma ChronologicalWhenSorted(s: seq<Booking>, i: nat, j: nat)
    requires Sorted(s, ByDateThenStart) && i < j < |s|
    ensures s[i].date == s[j].date || LexLess(s[i].date, s[j].date)
    ensures s[i].date == s[j].date ==> Minutes(s[i].startTime) <= Minutes(s[j].startTime)
  {
    if s[i].date != s[j].date {
      LexLessTotal(s[i].date, s[j].date);
    } else {
      LexLessIsEarlier(s[j].startTime, s[i].startTime);
    }
  }

  // --------------------------------------------------------------- indexOf

  /** `Array.prototype.indexOf`: the first position of `x`, or -1. */
  function IndexOf<T(==)>(s: seq<T>, x: T): (i: int)
    ensures -1 <= i < |s|
    ensures i == -1 <==> x !in s
    ensures 0 <= i ==> s[i] == x && x !in s[..i]
  {
    if |s| == 0 then -1
    else if s[0] == x then 0
    else
      var k := IndexOf(s[1..], x);
      SplitFirst(s);
      if k == -1 then -1
      else
        assert s[..k + 1] == [s[0]] + s[1..][..k];
        k + 1
  }

  // -------------------------------------------------------------- group by

  datatype Group = Group(key: string, members: seq<Booking>)

  /** The first position in `s` whose key is `k`, or |s| when there is none. */
  function FirstWithKey(s: seq<Booking>, f: Field, k: string): (i: nat)
    ensures i <= |s|
    ensures i < |s| ==> KeyOf(s[i], f) == k
    ensures forall j :: 0 <= j < i ==> KeyOf(s[j], f) != k
  {
    if |s| == 0 then 0
    else if KeyOf(s[0], f) == k then 0
    else 1 + FirstWithKey(s[1..], f, k)
  }

  lemma {:induction false} FirstWithKeyExtend(s: seq<Booking>, x: Booking, f: Field, k: string)
    ensures FirstWithKey(s + [x], f, k) == if FirstWithKey(s, f, k) < |s| then FirstWithKey(s, f, k)
                                          else if KeyOf(x, f) == k then |s| else |s| + 1
  {
    if |s| > 0 {
      assert (s + [x])[1..] == s[1..] + [x];
      FirstWithKeyExtend(s[1..], x, f, k);
    }
  }

  /** The keys of `s` in order of first occurrence, each once. */
  function DistinctKeys(s: seq<Booking>, f: Field): (ks: seq<string>)
    ensures forall k :: k in ks <==> FirstWithKey(s, f, k) < |s|
  {
    if |s| == 0 then []
    else
      var init, last := s[..|s| - 1], s[|s| - 1];
      var ks := DistinctKeys(init, f);
      SplitLast(s);
      assert forall k :: FirstWithKey(s, f, k) == if FirstWithKey(init, f, k) < |init| then FirstWithKey(init, f, k)
                                          else if KeyOf(last, f) == k then |init| else |s| by {
        forall k {
          FirstWithKeyExtend(init, last, f, k);
        }
      }
      if KeyOf(last, f) in ks then ks else ks + [KeyOf(last, f)]
  }

  /**
   * The keys come out in the order of their first occurrence in the list,
   * so in particular each key appears once.
   */
  lemma {:induction false} DistinctKeysInFirstOccurrenceOrder(s: seq<Booking>, f: Field)
    ensures forall i, j :: 0 <= i < j < |DistinctKeys(s, f)| ==>
      FirstWithKey(s, f, DistinctKeys(s, f)[i]) < FirstWithKey(s, f, DistinctKeys(s, f)[j])
  {
    if |s| > 0 {
      var init, last := s[..|s| - 1], s[|s| - 1];
      SplitLast(s);
      DistinctKeysInFirstOccurrenceOrder(init, f);
      DistinctKeysSnoc(s, f);
      var ks, r := DistinctKeys(init, f), DistinctKeys(s, f);
      forall i, j | 0 <= i < j < |r|
        ensures FirstWithKey(s, f, r[i]) < FirstWithKey(s, f, r[j])
      {
        assert r[i] == ks[i] && ks[i] in ks;
        FirstWithKeyExtend(init, last, f, r[i]);
        FirstWithKeyExtend(init, last, f, r[j]);
        if j < |ks| {
          assert r[j] == ks[j] && ks[j] in ks;
        }
      }
    }
  }

  lemma DistinctKeysAreDistinct(s: seq<Booking>, f: Field, i: nat, j: nat)
    requires i < j < |DistinctKeys(s, f)|
    ensures DistinctKeys(s, f)[i] != DistinctKeys(s, f)[j]
  {
    DistinctKeysInFirstOccurrenceOrder(s, f);
  }

  /** Appends `b` to the group with its key, or opens a new group at the end. */
  function Place(gs: seq<Group>, b: Booking, f: Field): seq<Group>
  {
    if |gs| == 0 then [Group(KeyOf(b, f), [b])]
    else if gs[0].key == KeyOf(b, f) then [gs[0].(members := gs[0].members + [b])] + gs[1..]
    else [gs[0]] + Place(gs[1..], b, f)
  }

  /**
   * The group-by both overviews build: a left fold over the list that pushes
   * each booking onto the array of its key, creating that array on first sight.
   */
  function GroupBy(s: seq<Booking>, f: Field): seq<Group>
  {
    if |s| == 0 then [] else Place(GroupBy(s[..|s| - 1], f), s[|s| - 1], f)
  }

  function Keys(gs: seq<Group>): (ks: seq<string>)
    ensures |ks| == |gs| && forall i :: 0 <= i < |gs| ==> ks[i] == gs[i].key
  {
    if |gs| == 0 then [] else [gs[0].key] + Keys(gs[1..])
  }

  lemma {:induction false} PlaceExisting(gs: seq<Group>, b: Booking, f: Field, i: nat)
    requires i < |gs| && gs[i].key == KeyOf(b, f)
    requires forall j :: 0 <= j < i ==> gs[j].key != KeyOf(b, f)
    ensures Place(gs, b, f) == gs[i := gs[i].(members := gs[i].members + [b])]
  {
    if i > 0 {
      PlaceExisting(gs[1..], b, f, i - 1);
    }
  }

  lemma {:induction false} PlaceNew(gs: seq<Group>, b: Booking, f: Field)
    requires forall j :: 0 <= j < |gs| ==> gs[j].key != KeyOf(b, f)
    ensures Place(gs, b, f) == gs + [Group(KeyOf(b, f), [b])]
  {
    if |gs| > 0 {
      PlaceNew(gs[1..], b, f);
    }
  }

  lemma DistinctKeysSnoc(s: seq<Booking>, f: Field)
    requires |s| > 0
    ensures DistinctKeys(s, f) == var ks := DistinctKeys(s[..|s| - 1], f);
      if KeyOf(s[|s| - 1], f) in ks then ks else ks + [KeyOf(s[|s| - 1], f)]
  {
  }

  lemma KeysOfUpdate(gs: seq<Group>, i: nat, g: Group)
    requires i < |gs| && g.key == gs[i].key
    ensures Keys(gs[i := g]) == Keys(gs)
  {
  }

  lemma KeysOfSnoc(gs: seq<Group>, g: Group)
    ensures Keys(gs + [g]) == Keys(gs) + [g.key]
  {
  }

  /** One group per distinct key, in first-occurrence order. */
  lemma {:induction false} GroupByKeys(s: seq<Booking>, f: Field)
    ensures Keys(GroupBy(s, f)) == DistinctKeys(s, f)
  {
    if |s| > 0 {
      var init, last := s[..|s| - 1], s[|s| - 1];
      GroupByKeys(init, f);
      DistinctKeysSnoc(s, f);
      var gs, ks, k := GroupBy(init, f), DistinctKeys(init, f), KeyOf(last, f);
      if k in ks {
        var i := IndexOf(ks, k);
        PlaceExisting(gs, last, f, i);
        KeysOfUpdate(gs, i, gs[i].(members := gs[i].members + [last]));
      } else {
        PlaceNew(gs, last, f);
        KeysOfSnoc(gs, Group(k, [last]));
      }
    }
  }

  lemma SelectSnoc(s: seq<Booking>, x: Booking, c: Criterion)
    ensures Select(s + [x], c) == Select(s, c) + if Matches(x, c) then [x] else []
  {
    SelectConcat(s, [x], c);
    SelectSingleton(x, c);
  }

  lemma {:induction false} SelectNoneMatch(s: seq<Booking>, c: Criterion)
    requires forall i :: 0 <= i < |s| ==> !Matches(s[i], c)
    ensures Select(s, c) == []
  {
    if |s| > 0 {
      SelectNoneMatch(s[1..], c);
    }
  }

  /** Each group holds exactly the bookings with its key, in list order. */
  lemma {:induction false} GroupByMembers(s: seq<Booking>, f: Field)
    ensures MembersSelected(GroupBy(s, f), s, f)
  {
    if |s| > 0 {
      var init, last := s[..|s| - 1], s[|s| - 1];
      SplitLast(s);
      GroupByMembers(init, f);
      GroupByKeys(init, f);
      if KeyOf(last, f) in DistinctKeys(init, f) {
        PlaceMembersExisting(init, last, f);
      } else {
        PlaceMembersNew(init, last, f);
      }
    }
  }

  /** Every group's members are the bookings of `s` with the group's key, in list order. */
  predicate MembersSelected(gs: seq<Group>, s: seq<Booking>, f: Field) {
    forall i :: 0 <= i < |gs| ==> gs[i].members == Select(s, KeyIs(f, gs[i].key))
  }

  /** A booking whose key already has a group joins that group, and every group stays the selection of its key. */
  lemma PlaceMembersExisting(init: seq<Booking>, last: Booking, f: Field)
    requires MembersSelected(GroupBy(init, f), init, f)
    requires Keys(GroupBy(init, f)) == DistinctKeys(init, f)
    requires KeyOf(last, f) in DistinctKeys(init, f)
    ensures MembersSelected(Place(GroupBy(init, f), last, f), init + [last], f)
  {
    var gs, ks, k := GroupBy(init, f), DistinctKeys(init, f), KeyOf(last, f);
    var i := IndexOf(ks, k);
    PlaceExisting(gs, last, f, i);
    var r := Place(gs, last, f);
    forall j | 0 <= j < |r|
      ensures r[j].members == Select(init + [last], KeyIs(f, r[j].key))
    {
      SelectSnoc(init, last, KeyIs(f, r[j].key));
      if j < i {
        DistinctKeysAreDistinct(init, f, j, i);
      } else if j > i {
        DistinctKeysAreDistinct(init, f, i, j);
      }
    }
  }

  /** A booking with a new key opens a group of its own at the end, and every group stays the selection of its key. */
  lemma PlaceMembersNew(init: seq<Booking>, last: Booking, f: Field)
    requires MembersSelected(GroupBy(init, f), init, f)
    requires Keys(GroupBy(init, f)) == DistinctKeys(init, f)
    requires KeyOf(last, f) !in DistinctKeys(init, f)
    ensures MembersSelected(Place(GroupBy(init, f), last, f), init + [last], f)
  {
    var gs, k := GroupBy(init, f), KeyOf(last, f);
    PlaceNew(gs, last, f);
    var r := Place(gs, last, f);
    forall j | 0 <= j < |r|
      ensures r[j].members == Select(init + [last], KeyIs(f, r[j].key))
    {
      SelectSnoc(init, last, KeyIs(f, r[j].key));
      if j == |gs| {
        SelectNoneMatch(init, KeyIs(f, k));
      }
    }
  }

  function TotalMembers(gs: seq<Group>): nat {
    if |gs| == 0 then 0 else |gs[0].members| + TotalMembers(gs[1..])
  }

  lemma {:induction false} PlaceAddsOne(gs: seq<Group>, b: Booking, f: Field)
    ensures TotalMembers(Place(gs, b, f)) == TotalMembers(gs) + 1
  {
    if |gs| > 0 && gs[0].key != KeyOf(b, f) {
      PlaceAddsOne(gs[1..], b, f);
      assert Place(gs, b, f)[1..] == Place(gs[1..], b, f);
    } else if |gs| > 0 {
      assert Place(gs, b, f)[1..] == gs[1..];
    }
  }

  /** Every booking lands in exactly one group: group sizes add up to the list length. */
  lemma {:induction false} GroupSizesSum(s: seq<Booking>, f: Field)
    ensures TotalMembers(GroupBy(s, f)) == |s|
  {
    if |s| > 0 {
      GroupSizesSum(s[..|s| - 1], f);
      PlaceAddsOne(GroupBy(s[..|s| - 1], f), s[|s| - 1], f);
    }
  }

  lemma {:induction false} PlaceGrowsByAtMostOne(gs: seq<Group>, b: Booking, f: Field)
    ensures 0 < |Place(gs, b, f)| && |gs| <= |Place(gs, b, f)| <= |gs| + 1
  {
    if |gs| > 0 && gs[0].key != KeyOf(b, f) {
      PlaceGrowsByAtMostOne(gs[1..], b, f);
    }
  }

  /** There are never more groups than bookings, and there are none exactly when the list is empty. */
  lemma {:induction false} GroupCountBounds(s: seq<Booking>, f: Field)
    ensures |GroupBy(s, f)| <= |s|
    ensures |GroupBy(s, f)| == 0 <==> |s| == 0
  {
    if |s| > 0 {
      GroupCountBounds(s[..|s| - 1], f);
      PlaceGrowsByAtMostOne(GroupBy(s[..|s| - 1], f), s[|s| - 1], f);
    }
  }

  // --------------------------------------------------- sorted distinct dates

  predicate StrictlyIncreasing(s: seq<string>) {
    forall i, j :: 0 <= i < j < |s| ==> LexLess(s[i], s[j])
  }

  /** Inserts `x` into a strictly increasing list unless it is already there. */
  function InsertDistinct(x: string, r: seq<string>): (q: seq<string>)
    requires StrictlyIncreasing(r)
    ensures StrictlyIncreasing(q)
    ensures forall y :: y in q <==> y == x || y in r
  {
    if |r| == 0 then [x]
    else if r[0] == x then r
    else if LexLess(r[0], x) then
      var rest := InsertDistinct(x, r[1..]);
      SplitFirst(r);
      assert forall k :: 0 <= k < |rest| ==> LexLess(r[0], rest[k]) by {
        forall k | 0 <= k < |rest|
          ensures LexLess(r[0], rest[k])
        {
          assert rest[k] in rest;
        }
      }
      [r[0]] + rest
    else
      LexLessTotal(r[0], x);
      assert forall k :: 0 <= k < |r| ==> LexLess(x, r[k]) by {
        forall k | 0 <= k < |r|
          ensures LexLess(x, r[k])
        {
          if k > 0 {
            LexLessTransitive(x, r[0], r[k]);
          }
        }
      }
      [x] + r
  }

  /** `Array.from(new Set(xs)).sort()`: the distinct values in ascending order. */
  function SortedDistinct(xs: seq<string>): (r: seq<string>)
    ensures StrictlyIncreasing(r)
    ensures forall y :: y in r <==> y in xs
  {
    if |xs| == 0 then []
    else
      SplitFirst(xs);
      InsertDistinct(xs[0], SortedDistinct(xs[1..]))
  }

  lemma SameElementsBothEmpty(a: seq<string>, b: seq<string>)
    requires forall y :: y in a <==> y in b
    ensures |a| == 0 <==> |b| == 0
  {
    if |a| > 0 {
      assert a[0] in a;
    }
    if |b| > 0 {
      assert b[0] in b;
    }
  }

  lemma HeadNotAfter(a: seq<string>, b: seq<string>)
    requires StrictlyIncreasing(a) && StrictlyIncreasing(b) && |a| > 0 && |b| > 0
    requires forall y :: y in a <==> y in b
    ensures !LexLess(a[0], b[0])
  {
    if LexLess(a[0], b[0]) {
      assert a[0] in a;
      var k :| 0 <= k < |b| && b[k] == a[0];
      if k > 0 {
        LexLessAsymmetric(b[0], b[k]);
      } else {
        LexLessIrreflexive(a[0]);
      }
    }
  }

  /** A strictly increasing list is determined by its elements. */
  lemma {:induction false} StrictlyIncreasingUnique(a: seq<string>, b: seq<string>)
    requires StrictlyIncreasing(a) && StrictlyIncreasing(b)
    requires forall y :: y in a <==> y in b
    ensures a == b
  {
    SameElementsBothEmpty(a, b);
    if |a| > 0 {
      HeadNotAfter(a, b);
      HeadNotAfter(b, a);
      if a[0] != b[0] {
        LexLessTotal(a[0], b[0]);
      }
      forall y
        ensures y in a[1..] <==> y in b[1..]
      {
        if y in a[1..] {
          var i :| 0 <= i < |a[1..]| && a[1..][i] == y;
          assert LexLess(a[0], a[i + 1]);
          LexLessIrreflexive(a[0]);
          assert y in b;
          var k :| 0 <= k < |b| && b[k] == y;
          assert k != 0;
          assert b[1..][k - 1] == y;
        }
        if y in b[1..] {
          var i :| 0 <= i < |b[1..]| && b[1..][i] == y;
          assert LexLess(b[0], b[i + 1]);
          LexLessIrreflexive(b[0]);
          assert y in a;
          var k :| 0 <= k < |a| && a[k] == y;
          assert k != 0;
          assert a[1..][k - 1] == y;
        }
      }
      StrictlyIncreasingUnique(a[1..], b[1..]);
      SplitFirst(a);
      SplitFirst(b);
    }
  }
}
