/** The DoctorAvailability document: a doctor's days, each with its slots. */
module AvailabilitySchema {
  import opened Common

  /** A bookable interval. `id` is the subdocument id the store assigns;
      the times are opaque strings such as "09:00 AM". */
  datatype Slot = Slot(id: nat, startTime: string, endTime: string, isBooked: bool)

  /** One entry of the `availability` array: a date and its own slot list. */
  datatype Day = Day(date: Date, slots: seq<Slot>)

  /** A stored document: its id, the one doctor it belongs to, and its days in order. */
  datatype Availability = Availability(id: nat, doctorId: string, days: seq<Day>)

  /** `required: true` on a String rejects a missing value and an empty one alike;
      nothing relates the start to the end. */
  predicate ValidSlot(s: Slot)
  {
    s.startTime != "" && s.endTime != ""
  }

  predicate ValidDay(d: Day)
  {
    forall k :: 0 <= k < |d.slots| ==> ValidSlot(d.slots[k])
  }

  /** What schema validation on `save` demands of a document. A day's date is
      always present here because `Date` has no missing value. */
  predicate ValidAvailability(a: Availability)
  {
    a.doctorId != "" && forall j :: 0 <= j < |a.days| ==> ValidDay(a.days[j])
  }

  /** A slot as `createAvailability` builds it: the given id and times, with
      `isBooked: false` set explicitly. */
  function NewSlot(id: nat, startTime: string, endTime: string): (s: Slot)
    ensures !s.isBooked
    ensures s.id == id && s.startTime == startTime && s.endTime == endTime
  {
    Slot(id, startTime, endTime, false)
  }

  /** The schema makes neither the doctor nor a day's date unique and puts no
      order on a slot's times: a valid document may repeat a date and hold a
      slot whose end precedes its start, and two valid documents may share a doctor. */
  lemma SchemaAdmitsDuplicates()
    ensures exists a: Availability, b: Availability ::
      && ValidAvailability(a) && ValidAvailability(b)
      && a.id != b.id && a.doctorId == b.doctorId
      && |a.days| == 2 && a.days[0].date == a.days[1].date
      && |a.days[0].slots| == 1 && a.days[0].slots[0].startTime == "10:00" && a.days[0].slots[0].endTime == "09:00"
  {
    var day := Day(Date(0), [NewSlot(1, "10:00", "09:00")]);
    var a := Availability(0, "d", [day, day]);
    var b := Availability(2, "d", []);
    assert ValidDay(day);
    assert ValidAvailability(a) && ValidAvailability(b);
  }
}
