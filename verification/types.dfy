/**
 * The records both source trees share. Their two type files declare the same
 * Room, Booking and BookingFormData; dates and ids are opaque strings
 * (dates are zero-padded "YYYY-MM-DD"), times are validated "HH:MM" strings.
 */
module Types {
  import opened Times

  datatype Option<+T> = None | Some(value: T)

  datatype Room = Room(id: string, name: string, capacity: int)

  datatype Booking = Booking(
    id: string,
    roomId: string,
    title: string,
    date: string,
    startTime: TimeStr,
    endTime: TimeStr)

  /** What a booking form submits: a booking without its id. */
  datatype BookingFormData = BookingFormData(
    roomId: string,
    title: string,
    date: string,
    startTime: TimeStr,
    endTime: TimeStr)

  /** The screens of the meeting-room-booking application. */
  datatype ViewType = RoomsView | CalendarView | BookingFormView | OverviewView

  /** `{ ...formData, id }`: the booking a form submission becomes. */
  function WithId(f: BookingFormData, id: string): (b: Booking)
    ensures b.id == id && b.roomId == f.roomId && b.title == f.title && b.date == f.date
    ensures b.startTime == f.startTime && b.endTime == f.endTime
  {
    Booking(id, f.roomId, f.title, f.date, f.startTime, f.endTime)
  }

}
