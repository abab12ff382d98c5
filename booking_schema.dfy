/** The Booking document: a patient's reservation of a doctor's time range. */
module BookingSchema {
  import opened Common

  datatype BookingStatus = Pending | Confirmed | Cancelled

  /** The status a booking takes when none is given. */
  const DefaultStatus: BookingStatus := Pending

  /** The string the enum stores for each status. */
  function StatusName(st: BookingStatus): string
  {
    match st
    case Pending => "pending"
    case Confirmed => "confirmed"
    case Cancelled => "cancelled"
  }

  /** Reads a status from a request: exactly the three enum strings are accepted. */
  function ParseStatus(s: string): (r: Option<BookingStatus>)
    ensures r.Some? <==> s == "pending" || s == "confirmed" || s == "cancelled"
    ensures r.Some? ==> StatusName(r.value) == s
  {
    if s == "pending" then Some(Pending)
    else if s == "confirmed" then Some(Confirmed)
    else if s == "cancelled" then Some(Cancelled)
    else None
  }

  /** Every status survives being written out and read back. */
  lemma StatusRoundTrip(st: BookingStatus)
    ensures ParseStatus(StatusName(st)) == Some(st)
  {
  }

  /** The booked interval, copied from the slot; there is no reference to the slot's id. */
  datatype TimeRange = TimeRange(startTime: string, endTime: string)

  datatype Booking = Booking(doctorId: string, patientId: string, date: Date, slot: TimeRange, status: BookingStatus)

  /** What schema validation on `save` demands: both parties and both times
      present. The date is always present because `Date` has no missing value. */
  predicate ValidBooking(b: Booking)
  {
    b.doctorId != "" && b.patientId != "" && b.slot.startTime != "" && b.slot.endTime != ""
  }

  /** A booking as built without a status: it starts out pending. */
  function NewBooking(doctorId: string, patientId: string, date: Date, slot: TimeRange): (b: Booking)
    ensures b.status == Pending
    ensures b.doctorId == doctorId && b.patientId == patientId && b.date == date && b.slot == slot
  {
    Booking(doctorId, patientId, date, slot, DefaultStatus)
  }
}
