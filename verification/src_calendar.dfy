/**
 * The day grid of src/components/BookingCalendar.tsx: one row per half-hour
 * cell of `generateTimeSlots(8, 18, 30)`, marked with the first booking of the
 * room and day whose range contains the cell's starting minute.
 */
module SrcCalendar {
  import opened Times
  import opened Types
  import opened Collections
  import MrbUtils
  import SrcUtils

  /** `dayBookings`: the room's bookings on the selected date, in ascending order of start time. */
  function DayBookings(bookings: seq<Booking>, roomId: string, date: string): (r: seq<Booking>)
    ensures Sorted(r, ByStartMinutes)
    ensures forall b :: b in r <==> b in bookings && b.roomId == roomId && b.date == date
    ensures multiset(r) == multiset(Select(bookings, InRoomOnDate(roomId, date)))
  {
    var selected := Select(bookings, InRoomOnDate(roomId, date));
    var r := Sort(selected, ByStartMinutes);
    SameMembers(r, selected);
    r
  }

  /** The booking's range contains the slot's starting minute (the slot's end is not looked at). */
  predicate Holds(b: Booking, slotTime: TimeStr) {
    MrbUtils.Covers(b.startTime, b.endTime, Minutes(slotTime))
  }

  /** The index of the first booking at or after `i` that holds the slot, or |s| when there is none. */
  function HoldingFrom(s: seq<Booking>, slotTime: TimeStr, i: nat): (k: nat)
    requires i <= |s|
    ensures i <= k <= |s|
    ensures forall m :: i <= m < k ==> !Holds(s[m], slotTime)
    ensures k < |s| ==> Holds(s[k], slotTime)
    decreases |s| - i
  {
    if i == |s| || Holds(s[i], slotTime) then i else HoldingFrom(s, slotTime, i + 1)
  }

  /** The first booking of the list that holds the slot. */
  function FirstHolding(s: seq<Booking>, slotTime: TimeStr): (r: Option<Booking>)
    ensures r.None? <==> forall i :: 0 <= i < |s| ==> !Holds(s[i], slotTime)
    ensures r.Some? ==> r.value in s && Holds(r.value, slotTime)
  {
    var k := HoldingFrom(s, slotTime, 0);
    if k < |s| then Some(s[k]) else None
  }

  /** A booking that holds the slot with none before it holding it is the one found. */
  lemma FirstHoldingIsFirst(s: seq<Booking>, slotTime: TimeStr, i: nat)
    requires i < |s| && Holds(s[i], slotTime)
    requires forall j :: 0 <= j < i ==> !Holds(s[j], slotTime)
    ensures FirstHolding(s, slotTime) == Some(s[i])
  {
    var k := HoldingFrom(s, slotTime, 0);
    assert k == i;
  }

  /** `isTimeSlotBooked`: the `for ... of` loop returning the first booking that holds the slot. */
  method IsTimeSlotBooked(dayBookings: seq<Booking>, slotTime: TimeStr) returns (r: Option<Booking>)
    ensures r == FirstHolding(dayBookings, slotTime)
  {
    var i: nat := 0;
    while i < |dayBookings|
      invariant i <= |dayBookings|
      invariant HoldingFrom(dayBookings, slotTime, i) == HoldingFrom(dayBookings, slotTime, 0)
      decreases |dayBookings| - i
    {
      var booking := dayBookings[i];
      if Minutes(slotTime) >= Minutes(booking.startTime) && Minutes(slotTime) < Minutes(booking.endTime) {
        return Some(booking);
      }
      i := i + 1;
    }
    return None;
  }

  /** One row of the grid: the cell's range label, the booking holding it, and whether the booking starts there. */
  datatype Cell = Cell(slot: TimeStr, nextSlot: TimeStr, booking: Option<Booking>, isStart: bool)

  /**
   * The rows: every slot but the last, labelled with itself and the next
   * slot. A booked cell shows the booking's details when the booking starts
   * exactly at the cell and a continuation mark otherwise.
   */
  function Cells(timeSlots: seq<TimeStr>, dayBookings: seq<Booking>): (r: seq<Cell>)
    ensures |r| == if |timeSlots| == 0 then 0 else |timeSlots| - 1
    ensures forall i :: 0 <= i < |r| ==> r[i] == CellFor(timeSlots[i], timeSlots[i + 1], dayBookings)
  {
    var n := if |timeSlots| == 0 then 0 else |timeSlots| - 1;
    seq(n, i requires 0 <= i < n => CellFor(timeSlots[i], timeSlots[i + 1], dayBookings))
  }

  /** The row for the range from `slot` to `nextSlot`. */
  function CellFor(slot: TimeStr, nextSlot: TimeStr, dayBookings: seq<Booking>): (c: Cell)
    ensures c.slot == slot && c.nextSlot == nextSlot
    ensures c.booking == FirstHolding(dayBookings, slot)
    ensures c.isStart <==> c.booking.Some? && c.booking.value.startTime == slot
  {
    var booking := FirstHolding(dayBookings, slot);
    Cell(slot, nextSlot, booking, booking.Some? && booking.value.startTime == slot)
  }

  /** The grid of a room on a date, over the default slot list. */
  function Grid(bookings: seq<Booking>, roomId: string, date: string): seq<Cell> {
    Cells(SrcUtils.DefaultTimeSlots(), DayBookings(bookings, roomId, date))
  }

  /**
   * A cell is marked booked exactly when some booking of that room and date
   * contains its starting minute; a booking ending at the cell's start does
   * not mark it.
   */
  lemma CellBookedIffHeld(bookings: seq<Booking>, roomId: string, date: string, timeSlots: seq<TimeStr>, i: nat)
    requires i + 1 < |timeSlots|
    ensures Cells(timeSlots, DayBookings(bookings, roomId, date))[i].booking.Some? <==>
      exists b :: b in bookings && b.roomId == roomId && b.date == date
        && Minutes(b.startTime) <= Minutes(timeSlots[i]) < Minutes(b.endTime)
  {
    var d := DayBookings(bookings, roomId, date);
    var t := timeSlots[i];
    if FirstHolding(d, t).Some? {
      assert FirstHolding(d, t).value in d;
    } else {
      forall b | b in bookings && b.roomId == roomId && b.date == date
        ensures !(Minutes(b.startTime) <= Minutes(t) < Minutes(b.endTime))
      {
        assert b in d;
        var k :| 0 <= k < |d| && d[k] == b;
      }
    }
  }

  /** A grid-aligned time is a whole number of half hours. */
  predicate OnHalfHour(t: TimeStr) {
    Minutes(t) % 30 == 0
  }

  /** Two multiples of thirty less than thirty apart, in order, are equal. */
  lemma HalfHourGap(a: int, b: int)
    requires a % 30 == 0 && b % 30 == 0 && b <= a < b + 30
    ensures a == b
  {
  }

  /**
   * When the booking's start and the cell are on the half-hour grid, the calendar's
   * starting-minute test agrees with the half-open overlap test of
   * meeting-room-booking/src/utils/bookingUtils.ts on the cell's half hour.
   */
  lemma GridAlignedHoldIffOverlap(b: Booking, slot: TimeStr, next: TimeStr)
    requires OnHalfHour(b.startTime) && OnHalfHour(slot)
    requires Minutes(next) == Minutes(slot) + 30
    ensures Holds(b, slot) <==> MrbUtils.DoTimesOverlap(slot, next, b.startTime, b.endTime)
  {
    var s, t := Minutes(b.startTime), Minutes(slot);
    if t < s < t + 30 {
      HalfHourGap(s, t);
    }
  }

  /** The starting-minute test may miss a booking that starts inside the cell: 09:15-09:45 leaves the 09:00 cell free. */
  lemma OffGridBookingMissed()
    ensures !Holds(Booking("b", "r", "Standup", "2026-02-04", Clock(9, 15), Clock(9, 45)), Clock(9, 0))
    ensures MrbUtils.DoTimesOverlap(Clock(9, 0), Clock(9, 30), Clock(9, 15), Clock(9, 45))
  {
    assert Minutes(Clock(9, 0)) == 540 && Minutes(Clock(9, 15)) == 555 && Minutes(Clock(9, 30)) == 570 && Minutes(Clock(9, 45)) == 585;
  }

  /** The summary list under the grid is shown exactly when the room has bookings on that date. */
  function ShowsSummary(bookings: seq<Booking>, roomId: string, date: string): (r: bool)
    ensures r <==> exists b :: b in bookings && b.roomId == roomId && b.date == date
  {
    var d := DayBookings(bookings, roomId, date);
    if |d| > 0 then
      assert d[0] in d;
      true
    else false
  }
}
