/**
 * The slot list of meeting-room-booking/src/components/TimeSlotView.tsx: the
 * day's availability records, with every run of consecutive slots held by
 * the same booking drawn as one entry that spans the run.
 */
module MrbTimeSlotView {
  import opened Times
  import opened Types
  import opened MrbUtils
  import MrbMockData

  /**
   * One drawn entry. An entry that starts a booked run has `spanCount` set
   * (the source also sets `isStart` on exactly those entries); a free slot is
   * drawn as its record, without a span.
   */
  datatype RenderSlot = RenderSlot(slot: TimeStr, isAvailable: bool, booking: Option<Booking>, spanCount: Option<nat>)

  /** The id of the booking holding a slot, if any. */
  function IdOf(a: SlotAvailability): Option<string> {
    match a.booking
    case Some(b) => Some(b.id)
    case None => None
  }

  /** The length of the longest prefix of `t` held by booking `id`. */
  function Run(t: seq<SlotAvailability>, id: string): (n: nat)
    ensures n <= |t|
    ensures forall k :: 0 <= k < n ==> IdOf(t[k]) == Some(id)
    ensures n < |t| ==> IdOf(t[n]) != Some(id)
  {
    if |t| == 0 || IdOf(t[0]) != Some(id) then 0 else 1 + Run(t[1..], id)
  }

  /** The run length is the only prefix length that is held by `id` and cannot be extended. */
  lemma RunUnique(t: seq<SlotAvailability>, id: string, n: nat)
    requires n <= |t|
    requires forall k :: 0 <= k < n ==> IdOf(t[k]) == Some(id)
    requires n < |t| ==> IdOf(t[n]) != Some(id)
    ensures Run(t, id) == n
  {
  }

  /** How many records the entry drawn for the first record stands for. */
  function Step(s: seq<SlotAvailability>): (n: nat)
    requires |s| > 0
    ensures 1 <= n <= |s|
  {
    match s[0].booking
    case None => 1
    case Some(b) => 1 + Run(s[1..], b.id)
  }

  /** The entry drawn for the first record: a copy of it, with the span when it is booked. */
  function Head(s: seq<SlotAvailability>): RenderSlot
    requires |s| > 0
  {
    var c := s[0];
    RenderSlot(c.slot, c.isAvailable, c.booking, if c.booking.Some? then Some(Step(s)) else None)
  }

  /**
   * The entries the view draws, defined record by record: a free slot is
   * copied, and a booked slot starts an entry spanning itself and every
   * following slot of the same booking.
   */
  function Render(s: seq<SlotAvailability>): (r: seq<RenderSlot>)
    ensures |r| <= |s|
    ensures |s| > 0 ==> |r| > 0 && r[0] == Head(s)
    decreases |s|
  {
    if |s| == 0 then [] else [Head(s)] + Render(s[Step(s)..])
  }

  /** How many slots an entry stands for. */
  function Width(x: RenderSlot): nat {
    match x.spanCount
    case Some(n) => n
    case None => 1
  }

  function BookedId(x: RenderSlot): Option<string> {
    match x.booking
    case Some(b) => Some(b.id)
    case None => None
  }

  function Repeat<T>(x: T, n: nat): (r: seq<T>)
    ensures |r| == n && forall k :: 0 <= k < n ==> r[k] == x
  {
    if n == 0 then [] else [x] + Repeat(x, n - 1)
  }

  /** The slot-by-slot booking ids the entries stand for. */
  function Expand(r: seq<RenderSlot>): seq<Option<string>> {
    if |r| == 0 then [] else Repeat(BookedId(r[0]), Width(r[0])) + Expand(r[1..])
  }

  /** The slot-by-slot booking ids of the records. */
  function Ids(s: seq<SlotAvailability>): (r: seq<Option<string>>)
    ensures |r| == |s| && forall k :: 0 <= k < |s| ==> r[k] == IdOf(s[k])
  {
    seq(|s|, k requires 0 <= k < |s| => IdOf(s[k]))
  }

  lemma IdsSplit(s: seq<SlotAvailability>, n: nat)
    requires n <= |s|
    ensures Ids(s) == Ids(s[..n]) + Ids(s[n..])
  {
  }

  /** The first entry expands to the ids of the records it stands for. */
  lemma HeadExpands(s: seq<SlotAvailability>)
    requires |s| > 0
    ensures Repeat(BookedId(Head(s)), Width(Head(s))) == Ids(s[..Step(s)])
  {
    var n := Step(s);
    match s[0].booking
    case None =>
    case Some(b) =>
      forall k | 0 <= k < n
        ensures IdOf(s[k]) == Some(b.id)
      {
        if k > 0 {
          assert s[k] == s[1..][k - 1];
        }
      }
  }

  /**
   * Expanding every entry back into as many slots as it spans gives the
   * records' booking ids: the entries cover the slots exactly, in order,
   * and each span holds one booking throughout.
   */
  lemma {:induction false} RenderExpandsToIds(s: seq<SlotAvailability>)
    ensures Expand(Render(s)) == Ids(s)
    ensures |Expand(Render(s))| == |s|
    decreases |s|
  {
    if |s| > 0 {
      var n := Step(s);
      RenderExpandsToIds(s[n..]);
      HeadExpands(s);
      IdsSplit(s, n);
    }
  }

  /**
   * Runs are maximal: two neighbouring entries never both belong to the same
   * booking, since the first would have spanned the second.
   */
  predicate MaximalRuns(r: seq<RenderSlot>) {
    forall k :: 0 <= k < |r| - 1 && r[k].booking.Some? && r[k + 1].booking.Some? ==>
      r[k].booking.value.id != r[k + 1].booking.value.id
  }

  lemma {:induction false} RenderRunsMaximal(s: seq<SlotAvailability>)
    ensures MaximalRuns(Render(s))
    decreases |s|
  {
    var r := Render(s);
    if |s| > 0 {
      var n := Step(s);
      var rest := Render(s[n..]);
      RenderRunsMaximal(s[n..]);
      assert r[1..] == rest;
      forall k | 0 <= k < |r| - 1 && r[k].booking.Some? && r[k + 1].booking.Some?
        ensures r[k].booking.value.id != r[k + 1].booking.value.id
      {
        if k > 0 {
          assert r[k] == rest[k - 1] && r[k + 1] == rest[k];
        } else {
          var id := s[0].booking.value.id;
          assert n == 1 + Run(s[1..], id);
          assert r[1] == rest[0] && rest[0].booking == s[n..][0].booking && s[n..][0] == s[n];
          assert s[n] == s[1..][n - 1] && IdOf(s[1..][n - 1]) != Some(id);
          assert r[0].booking == s[0].booking && r[1].booking == s[n].booking;
          assert IdOf(s[n]) == Some(r[1].booking.value.id);
        }
      }
    }
  }

  /** The total number of slots the first `k` entries stand for. */
  function Offset(r: seq<RenderSlot>, k: nat): nat
    requires k <= |r|
  {
    if k == 0 then 0 else Width(r[0]) + Offset(r[1..], k - 1)
  }

  /**
   * Each entry is the record of the slot it starts at, copied: same time,
   * same availability, same booking; it has a span of at least one exactly
   * when that slot is booked.
   */
  lemma {:induction false} RenderCopiesStartSlot(s: seq<SlotAvailability>, k: nat)
    requires k < |Render(s)|
    ensures var r, j := Render(s), Offset(Render(s), k);
      && j < |s|
      && r[k].slot == s[j].slot && r[k].isAvailable == s[j].isAvailable && r[k].booking == s[j].booking
      && (r[k].spanCount.Some? <==> s[j].booking.Some?)
      && (r[k].spanCount.Some? ==> r[k].spanCount.value >= 1)
    decreases |s|
  {
    if k > 0 {
      var r := Render(s);
      var n := Step(s);
      var rest := Render(s[n..]);
      RenderCopiesStartSlot(s[n..], k - 1);
      assert r[k] == rest[k - 1];
      assert Offset(r, k) == n + Offset(rest, k - 1);
      assert s[n..][Offset(rest, k - 1)] == s[n + Offset(rest, k - 1)];
    }
  }

  /** Rendering the records from `i` on draws the entry for record `i`, then renders past its span. */
  lemma RenderFrom(slots: seq<SlotAvailability>, i: nat, entry: RenderSlot, span: nat)
    requires i < |slots| && span == Step(slots[i..]) && entry == Head(slots[i..])
    ensures i + span <= |slots|
    ensures Render(slots[i..]) == [entry] + Render(slots[i + span..])
  {
    assert slots[i..][span..] == slots[i + span..];
  }

  lemma AppendEntry(done: seq<RenderSlot>, entry: RenderSlot, tail: seq<RenderSlot>)
    ensures (done + [entry]) + tail == done + ([entry] + tail)
  {
  }

  /** `renderSlots`: the while loop over the records, with the inner loop measuring each run. */
  method RenderSlots(slots: seq<SlotAvailability>) returns (result: seq<RenderSlot>)
    ensures result == Render(slots)
  {
    result := [];
    var i: nat := 0;
    assert slots[i..] == slots;
    while i < |slots|
      invariant i <= |slots|
      invariant result + Render(slots[i..]) == Render(slots)
      decreases |slots| - i
    {
      var entry, span := NextEntry(slots, i);
      RenderFrom(slots, i, entry, span);
      AppendEntry(result, entry, Render(slots[i + span..]));
      result := result + [entry];
      i := i + span;
    }
    assert slots[i..] == [];
  }

  /**
   * One pass of the outer loop's body: the entry drawn for record `i` and the
   * number of records it stands for.
   */
  method NextEntry(slots: seq<SlotAvailability>, i: nat) returns (entry: RenderSlot, span: nat)
    requires i < |slots|
    ensures span == Step(slots[i..]) && entry == Head(slots[i..])
  {
    var current := slots[i];
    assert slots[i..][0] == current && slots[i..][1..] == slots[i + 1..];
    if current.booking.Some? {
      span := SpanFrom(slots, i, current.booking.value.id);
      entry := RenderSlot(current.slot, current.isAvailable, current.booking, Some(span));
    } else {
      span := 1;
      entry := RenderSlot(current.slot, current.isAvailable, None, None);
    }
  }

  /** The inner loop: how many slots from `i` on belong to the booking that holds slot `i`. */
  method SpanFrom(slots: seq<SlotAvailability>, i: nat, bookingId: string) returns (spanCount: nat)
    requires i < |slots| && IdOf(slots[i]) == Some(bookingId)
    ensures spanCount == 1 + Run(slots[i + 1..], bookingId)
    ensures 1 <= spanCount <= |slots| - i
  {
    spanCount := 1;
    while i + spanCount < |slots| && IdOf(slots[i + spanCount]) == Some(bookingId)
      invariant 1 <= spanCount <= |slots| - i
      invariant forall k :: i < k < i + spanCount ==> IdOf(slots[k]) == Some(bookingId)
      decreases |slots| - i - spanCount
    {
      spanCount := spanCount + 1;
    }
    RunUnique(slots[i + 1..], bookingId, spanCount - 1);
  }

  /** The mock slots all leave room for their half-hour successor. */
  lemma MockSlotsFit()
    ensures SlotsFit(MrbMockData.GenerateTimeSlots())
  {
    MrbMockData.SlotsAscendingWithinDay();
  }

  /** The entries drawn for a room and date: `getAvailableSlots` over the 20 slots, then grouped. */
  function SlotView(room: Room, date: string, bookings: seq<Booking>): seq<RenderSlot> {
    MockSlotsFit();
    Render(GetAvailableSlots(room.id, date, bookings, MrbMockData.GenerateTimeSlots()))
  }

  /** Clicking an entry books from its slot, and only when the entry is free. */
  function Click(x: RenderSlot): (r: Option<TimeStr>)
    ensures r.Some? <==> x.isAvailable
    ensures r.Some? ==> r.value == x.slot
  {
    if x.isAvailable then Some(x.slot) else None
  }

  /**
   * A click on a drawn entry offers a start time exactly when no booking of
   * that room and date overlaps the half hour starting there.
   */
  lemma ClickOffersOnlyFreeSlots(room: Room, date: string, bookings: seq<Booking>, slots: seq<TimeStr>, k: nat)
    requires SlotsFit(slots)
    requires k < |Render(GetAvailableSlots(room.id, date, bookings, slots))|
    ensures var x := Render(GetAvailableSlots(room.id, date, bookings, slots))[k];
      Minutes(x.slot) + 30 < 6000 && (Click(x).Some? <==> forall b :: b in bookings && b.roomId == room.id && b.date == date ==>
        !DoTimesOverlap(x.slot, GetNextSlot(x.slot), b.startTime, b.endTime))
  {
    var s := GetAvailableSlots(room.id, date, bookings, slots);
    RenderCopiesStartSlot(s, k);
    AvailableIffNoOverlap(room.id, date, bookings, slots, Offset(Render(s), k));
  }
}
