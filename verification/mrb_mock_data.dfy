/**
 * The slot list of meeting-room-booking/src/data/mockData.ts: every half hour
 * from 08:00 up to and including 17:30. The sample rooms and bookings are
 * data, not behaviour, and ids come from the clock and a random source.
 */
module MrbMockData {
  import opened Times

  /** The slots pushed by the loop from hour `h` up to hour 18, two per hour. */
  function HalfHoursFrom(h: nat): (r: seq<TimeStr>)
    requires h <= 18
    ensures |r| == 2 * (18 - h)
    ensures forall i :: 0 <= i < |r| ==> Minutes(r[i]) == 60 * h + 30 * i
    decreases 18 - h
  {
    if h == 18 then []
    else
      var rest := HalfHoursFrom(h + 1);
      var r := [Clock(h, 0), Clock(h, 30)] + rest;
      forall i | 2 <= i < |r|
        ensures Minutes(r[i]) == 60 * h + 30 * i
      {
        assert r[i] == rest[i - 2];
      }
      r
  }

  /** `generateTimeSlots`: "08:00", "08:30", ..., "17:30", the i-th slot 30 * i minutes after 08:00. */
  function GenerateTimeSlots(): (r: seq<TimeStr>)
    ensures |r| == 20
    ensures forall i :: 0 <= i < 20 ==> Minutes(r[i]) == 480 + 30 * i
  {
    HalfHoursFrom(8)
  }

  /** The slots are strictly increasing and every one is a minute value of the working day 08:00-18:00. */
  lemma SlotsAscendingWithinDay()
    ensures Ascending(GenerateTimeSlots())
    ensures forall t :: t in GenerateTimeSlots() ==> 480 <= Minutes(t) < 1080
  {
  }
}
