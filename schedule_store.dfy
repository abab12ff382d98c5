/** The document store behind the scheduling handlers: the DoctorAvailability
    collection and the Booking collection, with the handlers of
    doctorAvailabilityControllers.js and bookingControllers.js as methods that
    change them. */
module Schedule {
  import opened Common
  import opened AvailabilitySchema
  import opened BookingSchema
  import opened AvailabilityLogic
  import opened BookingLogic

  // Messages of the error bodies.
  const AllFieldsRequired := "All fields are required"
  const AvailabilityValidationFailed := "DoctorAvailability validation failed"
  const NoAvailabilityForDoctor := "No availability found for this doctor"
  const AvailabilityDocNotFound := "Doctor availability not found"
  const InternalServerError := "Internal server error"
  const NoUpdatesWereMade := "No updates were made"
  const AvailabilityNotFound := "Availability not found"
  const SlotMissing := "Cannot read properties of undefined (reading 'startTime')"
  const SlotUnavailable := "Slot is already booked or unavailable"
  const BookingValidationFailed := "Booking validation failed"
  const InvalidStatus := "Invalid status"
  const BookingNotFound := "Booking not found"
  const NoBookingsForDoctor := "No bookings found for this doctor"
  const NoBookingsForPatient := "No bookings found for this patient"
  const NoBookings := "No bookings found"

  /** What `updateAvailability`'s loop does with the loaded document; an absent
      `availability` list throws like a matched day without slots. */
  function UpdateOf(a: Availability, iso: Date -> string, ups: Option<seq<DayUpdate>>): UpdateOutcome
  {
    if ups.None? then Aborted else ApplyDayUpdates(a.days, iso, ups.value)
  }

  /** Every document passed schema validation, its id is below `nextId`, it
      holds exactly one day (`createAvailability` writes one, and no handler
      adds or removes a day), and no two documents share an id. */
  ghost predicate ValidDocs(docs: seq<Availability>, nextId: nat)
  {
    && (forall i :: 0 <= i < |docs| ==> ValidAvailability(docs[i]) && docs[i].id < nextId && |docs[i].days| == 1)
    && DistinctIds(docs)
  }

  /** No two documents share an id. */
  ghost predicate DistinctIds(docs: seq<Availability>)
  {
    forall i, j :: 0 <= i < j < |docs| ==> docs[i].id != docs[j].id
  }

  class Store {
    /** The DoctorAvailability collection, in natural order. */
    var docs: seq<Availability>
    /** The Booking collection, by id. */
    var bookings: map<nat, Booking>
    /** The next id the store hands out, to a document, a slot or a booking. */
    var nextId: nat

    /** Everything stored passed schema validation, ids are below `nextId`,
        every document holds one day, and document ids are distinct. */
    ghost predicate Valid()
      reads this
    {
      && ValidDocs(docs, nextId)
      && (forall b :: b in bookings ==> b < nextId && ValidBooking(bookings[b]))
    }

    constructor ()
      ensures Valid() && docs == [] && bookings == map[] && nextId == 0
    {
      docs, bookings, nextId := [], map[], 0;
    }

    // ------------------------------------------------------------ availability

    /** `createAvailability`: with a doctor, a date and at least one slot, a new
        document with one day holding the input slots, none booked, is appended;
        the others stay as they are. */
    method CreateAvailability(doctorId: string, date: Option<Date>, inputs: seq<SlotInput>) returns (r: Reply<nat>)
      requires Valid()
      modifies this
      ensures Valid() && bookings == old(bookings)
      ensures !CreateRequestComplete(doctorId, date, inputs) ==>
                r == Failure(400, AllFieldsRequired) && docs == old(docs) && nextId == old(nextId)
      ensures CreateRequestComplete(doctorId, date, inputs) ==>
                var a := NewAvailability(old(nextId), doctorId, date.value, inputs, old(nextId) + 1);
                if ValidAvailability(a)
                then r == Success(201, a.id) && docs == old(docs) + [a] && nextId == old(nextId) + 1 + |inputs|
                else r == Failure(500, AvailabilityValidationFailed) && docs == old(docs) && nextId == old(nextId)
    {
      if !CreateRequestComplete(doctorId, date, inputs) {
        return Failure(400, AllFieldsRequired);
      }
      var a := NewAvailability(nextId, doctorId, date.value, inputs, nextId + 1);
      if !ValidAvailability(a) {
        return Failure(500, AvailabilityValidationFailed);
      }
      docs := docs + [a];
      r := Success(201, a.id);
      nextId := nextId + 1 + |inputs|;
    }

    /** `getAvailabilityByDoctor`: every document of the doctor, in order; the
        404 thrown for none is re-wrapped by the catch as 500. */
    function GetAvailabilityByDoctor(doctorId: string): (r: Reply<seq<Availability>>)
      reads this
      ensures r.Success? <==> exists i :: 0 <= i < |docs| && docs[i].doctorId == doctorId
      ensures r.Success? ==> r.code == 200 && r.value == Filter(docs, OfDoctor(doctorId))
      ensures r.Failure? ==> r == Failure(500, NoAvailabilityForDoctor)
    {
      var found := Filter(docs, OfDoctor(doctorId));
      assert (exists i :: 0 <= i < |docs| && docs[i].doctorId == doctorId) ==> |found| > 0 by {
        if exists i :: 0 <= i < |docs| && docs[i].doctorId == doctorId {
          var i :| 0 <= i < |docs| && docs[i].doctorId == doctorId;
          assert OfDoctor(doctorId)(docs[i]);
        }
      }
      assert |found| > 0 ==> OfDoctor(doctorId)(found[0]) && found[0] in docs;
      if |found| == 0 then Failure(500, NoAvailabilityForDoctor) else Success(200, found)
    }

    /** `updateAvailability`: an unknown document is 404. Otherwise the loop
        runs on the loaded document; the document is saved, answering 200, only
        if some slot was updated and the result passes validation. No update is
        400, a throw or a failed validation is 500, and none of these changes anything. */
    method UpdateAvailability(id: nat, iso: Date -> string, ups: Option<seq<DayUpdate>>) returns (r: Reply<()>)
      requires Valid()
      modifies this
      ensures Valid() && bookings == old(bookings) && nextId == old(nextId)
      ensures FindIndex(old(docs), HasDocId(id)).None? ==>
                r == Failure(404, AvailabilityDocNotFound) && docs == old(docs)
      ensures FindIndex(old(docs), HasDocId(id)).Some? ==>
                var i := FindIndex(old(docs), HasDocId(id)).value;
                var o := UpdateOf(old(docs)[i], iso, ups);
                if o.Aborted? then r == Failure(500, InternalServerError) && docs == old(docs)
                else if !o.updated then r == Failure(400, NoUpdatesWereMade) && docs == old(docs)
                else if !ValidAvailability(old(docs)[i].(days := o.days)) then
                  r == Failure(500, InternalServerError) && docs == old(docs)
                else r == Success(200, ()) && docs == old(docs)[i := old(docs)[i].(days := o.days)]
    {
      var found := FindIndex(docs, HasDocId(id));
      if found.None? {
        return Failure(404, AvailabilityDocNotFound);
      }
      var i := found.value;
      if ups.None? {
        return Failure(500, InternalServerError);
      }
      var out := UpdateDays(docs[i].days, iso, ups.value);
      if out.Aborted? {
        return Failure(500, InternalServerError);
      }
      if !out.updated {
        return Failure(400, NoUpdatesWereMade);
      }
      UpdateOutcomeSpec(docs[i].days, iso, ups.value);
      var a := docs[i].(days := out.days);
      if !ValidAvailability(a) {
        return Failure(500, InternalServerError);
      }
      docs := docs[i := a];
      r := Success(200, ());
    }

    /** `deleteAvailability`: removes the document with that id and keeps the
        others in order; an unknown id is 404, re-wrapped as 500. */
    method DeleteAvailability(id: nat) returns (r: Reply<()>)
      requires Valid()
      modifies this
      ensures Valid() && bookings == old(bookings) && nextId == old(nextId)
      ensures (forall i :: 0 <= i < |old(docs)| ==> old(docs)[i].id != id) ==>
                r == Failure(500, AvailabilityNotFound) && docs == old(docs)
      ensures (exists i :: 0 <= i < |old(docs)| && old(docs)[i].id == id) ==>
                && r == Success(200, ())
                && |docs| == |old(docs)| - 1
                && forall a :: a in docs <==> a in old(docs) && a.id != id
      ensures r.Success? ==>
                var i := FindIndex(old(docs), HasDocId(id)).value;
                docs == old(docs)[..i] + old(docs)[i + 1..]
    {
      var found := FindIndex(docs, HasDocId(id));
      if found.None? {
        assert forall i :: 0 <= i < |docs| ==> !HasDocId(id)(docs[i]);
        return Failure(500, AvailabilityNotFound);
      }
      var i := found.value;
      RemovalKeepsValid(docs, nextId, i);
      RemovalKeepsOthers(docs, id, i);
      docs := docs[..i] + docs[i + 1..];
      r := Success(200, ());
    }

    /** `deleteSlot`: an unknown document is 404; otherwise every slot with that
        id leaves every day of the document, the rest staying in order, and the
        answer is 200 even when no slot had the id. */
    method DeleteSlot(availabilityId: nat, slotId: nat) returns (r: Reply<()>)
      requires Valid()
      modifies this
      ensures Valid() && bookings == old(bookings) && nextId == old(nextId)
      ensures FindIndex(old(docs), HasDocId(availabilityId)).None? ==>
                r == Failure(404, AvailabilityDocNotFound) && docs == old(docs)
      ensures FindIndex(old(docs), HasDocId(availabilityId)).Some? ==>
                var i := FindIndex(old(docs), HasDocId(availabilityId)).value;
                r == Success(200, ()) && docs == old(docs)[i := old(docs)[i].(days := WithoutSlot(old(docs)[i].days, slotId))]
    {
      var found := FindIndex(docs, HasDocId(availabilityId));
      if found.None? {
        return Failure(404, AvailabilityDocNotFound);
      }
      var i := found.value;
      WithoutSlotPreservesValid(docs[i], slotId);
      docs := docs[i := docs[i].(days := WithoutSlot(docs[i].days, slotId))];
      r := Success(200, ());
    }

    // ------------------------------------------------------------ bookings

    /** `createBooking`. A missing slot throws (400). A slot that does not read
        as available is 400 and changes nothing. Otherwise the flag update books
        the matching slots first; then the booking is saved as pending (201), or
        fails validation (400) with the slots already marked. */
    method CreateBooking(dayOf: Date -> string, doctorId: string, patientId: string, date: Date,
                         slot: Option<TimeRange>) returns (r: Reply<nat>)
      requires Valid()
      modifies this
      ensures Valid()
      ensures nextId == if r.Success? then old(nextId) + 1 else old(nextId)
      ensures slot.None? ==> r == Failure(400, SlotMissing) && docs == old(docs) && bookings == old(bookings)
      ensures slot.Some? && !SlotAvailable(old(docs), dayOf, doctorId, date, slot.value.startTime, slot.value.endTime) ==>
                r == Failure(400, SlotUnavailable) && docs == old(docs) && bookings == old(bookings)
      ensures slot.Some? && SlotAvailable(old(docs), dayOf, doctorId, date, slot.value.startTime, slot.value.endTime) ==>
                && docs == MarkSlots(old(docs), doctorId, date, slot.value.startTime, slot.value.endTime, true)
                && var b := NewBooking(doctorId, patientId, date, slot.value);
                   if ValidBooking(b)
                   then r == Success(201, old(nextId)) && old(nextId) !in old(bookings)
                        && bookings == old(bookings)[old(nextId) := b]
                   else r == Failure(400, BookingValidationFailed) && bookings == old(bookings)
      ensures slot.Some? && SlotAvailable(old(docs), dayOf, doctorId, date, slot.value.startTime, slot.value.endTime)
                && SlotOffered(old(docs), doctorId, date, slot.value.startTime, slot.value.endTime) ==>
                !SlotAvailable(docs, dayOf, doctorId, date, slot.value.startTime, slot.value.endTime)
    {
      if slot.None? {
        return Failure(400, SlotMissing);
      }
      var s := slot.value;
      if !SlotAvailable(docs, dayOf, doctorId, date, s.startTime, s.endTime) {
        return Failure(400, SlotUnavailable);
      }
      var b := NewBooking(doctorId, patientId, date, s);
      BookSlots(dayOf, doctorId, date, s);
      if !ValidBooking(b) {
        return Failure(400, BookingValidationFailed);
      }
      var id := StoreBooking(b);
      r := Success(201, id);
    }

    /** The save of a validated booking under a fresh id. */
    method StoreBooking(b: Booking) returns (id: nat)
      requires Valid() && ValidBooking(b)
      modifies this
      ensures Valid() && docs == old(docs)
      ensures id == old(nextId) && id !in old(bookings)
      ensures bookings == old(bookings)[id := b] && nextId == old(nextId) + 1
    {
      ValidDocsGrow(docs, nextId, nextId + 1);
      id := nextId;
      bookings := bookings[id := b];
      nextId := nextId + 1;
    }

    /** The flag update of `createBooking`: the matching slots are booked, and a
        slot with the times in the addressed day then reads as unavailable. */
    method BookSlots(dayOf: Date -> string, doctorId: string, date: Date, slot: TimeRange)
      requires Valid()
      modifies this
      ensures Valid() && bookings == old(bookings) && nextId == old(nextId)
      ensures docs == MarkSlots(old(docs), doctorId, date, slot.startTime, slot.endTime, true)
      ensures SlotOffered(old(docs), doctorId, date, slot.startTime, slot.endTime) ==>
                !SlotAvailable(docs, dayOf, doctorId, date, slot.startTime, slot.endTime)
    {
      MarkSlotsKeepsValidDocs(docs, nextId, doctorId, date, slot.startTime, slot.endTime, true);
      BookingMarksOffered(docs, nextId, dayOf, doctorId, date, slot.startTime, slot.endTime);
      docs := MarkSlots(docs, doctorId, date, slot.startTime, slot.endTime, true);
    }

    /** `updateBookingStatus`: a status outside the enum is 400 before any
        lookup; an unknown id is 404, re-wrapped as 400; otherwise only that
        booking's status changes, and no slot flag. */
    method UpdateBookingStatus(id: nat, status: string) returns (r: Reply<Booking>)
      requires Valid()
      modifies this
      ensures Valid() && docs == old(docs) && nextId == old(nextId)
      ensures ParseStatus(status).None? ==> r == Failure(400, InvalidStatus) && bookings == old(bookings)
      ensures ParseStatus(status).Some? && id !in old(bookings) ==>
                r == Failure(400, BookingNotFound) && bookings == old(bookings)
      ensures ParseStatus(status).Some? && id in old(bookings) ==>
                var b := old(bookings)[id].(status := ParseStatus(status).value);
                r == Success(200, b) && bookings == old(bookings)[id := b]
    {
      var st := ParseStatus(status);
      if st.None? {
        return Failure(400, InvalidStatus);
      }
      if id !in bookings {
        return Failure(400, BookingNotFound);
      }
      var b := bookings[id].(status := st.value);
      bookings := bookings[id := b];
      r := Success(200, b);
    }

    /** `getBookingsByDoctor`: exactly the bookings of that doctor; none is 404,
        re-wrapped as 400. */
    function GetBookingsByDoctor(doctorId: string): (r: Reply<map<nat, Booking>>)
      reads this
      ensures r.Failure? <==> forall id :: id in bookings ==> bookings[id].doctorId != doctorId
      ensures r.Failure? ==> r == Failure(400, NoBookingsForDoctor)
      ensures r.Success? ==> r.code == 200
      ensures r.Success? ==> forall id :: id in r.value <==> id in bookings && bookings[id].doctorId == doctorId
      ensures r.Success? ==> forall id :: id in r.value ==> r.value[id] == bookings[id]
    {
      var found := map id | id in bookings && bookings[id].doctorId == doctorId :: bookings[id];
      assert found == map[] ==> forall id :: id in bookings ==> bookings[id].doctorId != doctorId by {
        if found == map[] {
          forall id | id in bookings ensures bookings[id].doctorId != doctorId {
            assert id !in found;
          }
        }
      }
      if found == map[] then Failure(400, NoBookingsForDoctor) else Success(200, found)
    }

    /** `getBookingsByPatient`: exactly the bookings of that patient; none is
        404, re-wrapped as 400. */
    function GetBookingsByPatient(patientId: string): (r: Reply<map<nat, Booking>>)
      reads this
      ensures r.Failure? <==> forall id :: id in bookings ==> bookings[id].patientId != patientId
      ensures r.Failure? ==> r == Failure(400, NoBookingsForPatient)
      ensures r.Success? ==> r.code == 200
      ensures r.Success? ==> forall id :: id in r.value <==> id in bookings && bookings[id].patientId == patientId
      ensures r.Success? ==> forall id :: id in r.value ==> r.value[id] == bookings[id]
    {
      var found := map id | id in bookings && bookings[id].patientId == patientId :: bookings[id];
      assert found == map[] ==> forall id :: id in bookings ==> bookings[id].patientId != patientId by {
        if found == map[] {
          forall id | id in bookings ensures bookings[id].patientId != patientId {
            assert id !in found;
          }
        }
      }
      if found == map[] then Failure(400, NoBookingsForPatient) else Success(200, found)
    }

    /** `getAllBookings`: every booking; none is 404, re-wrapped as 400. */
    function GetAllBookings(): (r: Reply<map<nat, Booking>>)
      reads this
      ensures r.Failure? <==> |bookings| == 0
      ensures r.Failure? ==> r == Failure(400, NoBookings)
      ensures r.Success? ==> r == Success(200, bookings)
    {
      if |bookings| == 0 then Failure(400, NoBookings) else Success(200, bookings)
    }

    /** `deleteBooking`: an unknown id is 404, re-wrapped as 400, and changes
        nothing. Otherwise the booking goes and the flag update frees the slots
        matching its stored doctor, date and times. */
    method DeleteBooking(id: nat) returns (r: Reply<()>)
      requires Valid()
      modifies this
      ensures Valid() && nextId == old(nextId)
      ensures id !in old(bookings) ==> r == Failure(400, BookingNotFound) && docs == old(docs) && bookings == old(bookings)
      ensures id in old(bookings) ==>
                var b := old(bookings)[id];
                && r == Success(204, ())
                && bookings == old(bookings) - {id}
                && docs == MarkSlots(old(docs), b.doctorId, b.date, b.slot.startTime, b.slot.endTime, false)
    {
      if id !in bookings {
        return Failure(400, BookingNotFound);
      }
      var b := bookings[id];
      bookings := bookings - {id};
      MarkSlotsKeepsValidDocs(docs, nextId, b.doctorId, b.date, b.slot.startTime, b.slot.endTime, false);
      docs := MarkSlots(docs, b.doctorId, b.date, b.slot.startTime, b.slot.endTime, false);
      r := Success(204, ());
    }
  }

  /** A larger bound keeps the documents valid. */
  lemma ValidDocsGrow(docs: seq<Availability>, nextId: nat, bound: nat)
    requires ValidDocs(docs, nextId) && nextId <= bound
    ensures ValidDocs(docs, bound)
  {
  }

  /** The slot-flag update keeps the documents valid. */
  lemma MarkSlotsKeepsValidDocs(docs: seq<Availability>, nextId: nat, doctorId: string, date: Date,
                                startTime: string, endTime: string, flag: bool)
    requires ValidDocs(docs, nextId)
    ensures ValidDocs(MarkSlots(docs, doctorId, date, startTime, endTime, flag), nextId)
  {
    MarkSlotsPreservesValid(docs, doctorId, date, startTime, endTime, flag);
  }

  /** In a valid store the day the update books is the only day of its
      document, so it is also the day the check inspects: once the update has
      booked a slot with these times, the check reads the slot as unavailable. */
  lemma BookingMakesSlotUnavailable(docs: seq<Availability>, nextId: nat, dayOf: Date -> string,
                                    doctorId: string, date: Date, startTime: string, endTime: string)
    requires ValidDocs(docs, nextId)
    requires SlotOffered(docs, doctorId, date, startTime, endTime)
    ensures !SlotAvailable(MarkSlots(docs, doctorId, date, startTime, endTime, true), dayOf, doctorId, date, startTime, endTime)
  {
    var i, j :| 0 <= i < |docs| && 0 <= j < |docs[i].days| && Targets(docs, doctorId, date, i, j)
                && exists k :: 0 <= k < |docs[i].days[j].slots| && HasTimes(startTime, endTime)(docs[i].days[j].slots[k]);
    assert IsFirst(docs[i].days, OnCalendarDay(dayOf, date), j);
    BookedSlotReadsUnavailable(docs, dayOf, doctorId, date, startTime, endTime, i, j);
  }

  /** `BookingMakesSlotUnavailable` for a slot that may not be offered. */
  lemma BookingMarksOffered(docs: seq<Availability>, nextId: nat, dayOf: Date -> string,
                            doctorId: string, date: Date, startTime: string, endTime: string)
    requires ValidDocs(docs, nextId)
    ensures SlotOffered(docs, doctorId, date, startTime, endTime) ==>
              !SlotAvailable(MarkSlots(docs, doctorId, date, startTime, endTime, true), dayOf, doctorId, date, startTime, endTime)
  {
    if SlotOffered(docs, doctorId, date, startTime, endTime) {
      BookingMakesSlotUnavailable(docs, nextId, dayOf, doctorId, date, startTime, endTime);
    }
  }

  /** In a valid store, once the update has freed the slots of a document of
      the doctor on `date`, the check reads the slot as available. */
  lemma FreeingMakesSlotAvailable(docs: seq<Availability>, nextId: nat, dayOf: Date -> string,
                                  doctorId: string, date: Date, startTime: string, endTime: string)
    requires ValidDocs(docs, nextId)
    requires exists i :: 0 <= i < |docs| && DocFilter(doctorId, date)(docs[i])
    ensures SlotAvailable(MarkSlots(docs, doctorId, date, startTime, endTime, false), dayOf, doctorId, date, startTime, endTime)
  {
    var i := FindIndex(docs, DocFilter(doctorId, date)).value;
    assert docs[i].days[0].date == date;
    assert Targets(docs, doctorId, date, i, 0);
    assert IsFirst(docs[i].days, OnCalendarDay(dayOf, date), 0);
    ReleasedSlotReadsAvailable(docs, dayOf, doctorId, date, startTime, endTime, i, 0);
  }

  /** Cutting a document out keeps the rest valid. */
  lemma RemovalKeepsValid(docs: seq<Availability>, nextId: nat, i: nat)
    requires ValidDocs(docs, nextId)
    requires i < |docs|
    ensures ValidDocs(docs[..i] + docs[i + 1..], nextId)
  {
    RemoveAt(docs, i);
    var rest := docs[..i] + docs[i + 1..];
    forall x, y | 0 <= x < y < |rest| ensures rest[x].id != rest[y].id {
      var x' := if x < i then x else x + 1;
      var y' := if y < i then y else y + 1;
      assert rest[x] == docs[x'] && rest[y] == docs[y'] && x' < y';
    }
  }

  /** With distinct document ids, cutting out the first document with an id
      removes exactly the documents with that id. */
  lemma RemovalKeepsOthers(docs: seq<Availability>, id: nat, i: nat)
    requires DistinctIds(docs)
    requires IsFirst(docs, HasDocId(id), i)
    ensures forall a :: a in docs[..i] + docs[i + 1..] <==> a in docs && a.id != id
  {
    RemoveAt(docs, i);
    var rest := docs[..i] + docs[i + 1..];
    forall a | a in docs && a.id != id ensures a in rest {
      var k :| 0 <= k < |docs| && docs[k] == a;
      if k < i { assert rest[k] == a; } else { assert rest[k - 1] == a; }
    }
    forall a | a in rest ensures a in docs && a.id != id {
      var k :| 0 <= k < |rest| && rest[k] == a;
      var k' := if k < i then k else k + 1;
      assert docs[k'] == a && k' != i;
    }
  }

  /** A booking created and then deleted leaves its slot reading as available again. */
  method CreateThenDelete(store: Store, dayOf: Date -> string, doctorId: string, patientId: string,
                          date: Date, slot: TimeRange) returns (created: Reply<nat>, deleted: Option<Reply<()>>)
    requires store.Valid()
    modifies store
    ensures store.Valid()
    ensures created.Failure? ==> deleted.None?
    ensures created.Success? ==> deleted == Some(Success(204, ()))
    ensures created.Success? ==> SlotAvailable(store.docs, dayOf, doctorId, date, slot.startTime, slot.endTime)
  {
    ghost var before := store.docs;
    created := store.CreateBooking(dayOf, doctorId, patientId, date, Some(slot));
    if created.Failure? {
      return created, None;
    }
    var r := store.DeleteBooking(created.value);
    deleted := Some(r);
    CreateThenDeleteFrees(before, dayOf, doctorId, date, slot.startTime, slot.endTime);
  }

  /** The store `BookingScenario` starts from: one document of "D1" with one
      day on `date` holding one free slot from 09:00 to 09:30. The slot reads
      as available, as unavailable once booked, and as available once freed. */
  lemma SingleSlotFacts(dayOf: Date -> string, date: Date)
    ensures var docs := SingleSlotDocs(date);
            var booked := MarkSlots(docs, "D1", date, "09:00", "09:30", true);
            && ValidAvailability(docs[0])
            && SlotAvailable(docs, dayOf, "D1", date, "09:00", "09:30")
            && !SlotAvailable(booked, dayOf, "D1", date, "09:00", "09:30")
            && SlotAvailable(MarkSlots(booked, "D1", date, "09:00", "09:30", false), dayOf, "D1", date, "09:00", "09:30")
  {
    var inputs := [SlotInput("09:00", "09:30", None)];
    NewAvailabilityValid(0, "D1", date, inputs, 1);
    var docs := [NewAvailability(0, "D1", date, inputs, 1)];
    assert HasExactDate(docs[0], date);
    assert Targets(docs, "D1", date, 0, 0);
    assert IsFirst(docs[0].days, OnCalendarDay(dayOf, date), 0);
    assert IsFirst(docs[0].days[0].slots, HasTimes("09:00", "09:30"), 0);
    CheckedSlotDecides(docs, dayOf, "D1", date, "09:00", "09:30", 0, 0);
    BookedSlotReadsUnavailable(docs, dayOf, "D1", date, "09:00", "09:30", 0, 0);
    CreateThenDeleteFrees(docs, dayOf, "D1", date, "09:00", "09:30");
  }

  /** The single-slot document of `SingleSlotFacts`. */
  function SingleSlotDocs(date: Date): seq<Availability>
  {
    [NewAvailability(0, "D1", date, [SlotInput("09:00", "09:30", None)], 1)]
  }

  /** A fresh store given the single-slot document. */
  method SingleSlotStore(date: Date) returns (store: Store, created: Reply<nat>)
    ensures fresh(store) && store.Valid()
    ensures created == Success(201, 0)
    ensures store.docs == SingleSlotDocs(date) && store.bookings == map[] && store.nextId == 2
  {
    store := new Store();
    NewAvailabilityValid(0, "D1", date, [SlotInput("09:00", "09:30", None)], 1);
    created := store.CreateAvailability("D1", Some(date), [SlotInput("09:00", "09:30", None)]);
  }

  /** A fresh store given the single-slot document, with that slot booked once. */
  method BookedSingleSlot(dayOf: Date -> string, date: Date) returns (store: Store, first: Reply<nat>)
    ensures fresh(store) && store.Valid()
    ensures store.docs == MarkSlots(SingleSlotDocs(date), "D1", date, "09:00", "09:30", true)
    ensures first.Success? && first.code == 201 && first.value in store.bookings
    ensures store.bookings[first.value] == Booking("D1", "P1", date, TimeRange("09:00", "09:30"), Pending)
  {
    var created;
    store, created := SingleSlotStore(date);
    SingleSlotFacts(dayOf, date);
    first := store.CreateBooking(dayOf, "D1", "P1", date, Some(TimeRange("09:00", "09:30")));
  }

  /** The round trip on one doctor's single slot: booked as pending (201),
      refused while booked (400), released (204), and bookable again (201). */
  method BookingScenario(dayOf: Date -> string, date: Date)
    returns (first: Reply<nat>, status: BookingStatus, second: Reply<nat>, deleted: Reply<()>, again: Reply<nat>)
    ensures first.Success? && first.code == 201 && status == Pending
    ensures second == Failure(400, SlotUnavailable)
    ensures deleted == Success(204, ())
    ensures again.Success? && again.code == 201
  {
    var store;
    store, first := BookedSingleSlot(dayOf, date);
    status := store.bookings[first.value].status;
    SingleSlotFacts(dayOf, date);
    ghost var booked := store.docs;
    var slot := TimeRange("09:00", "09:30");
    second := store.CreateBooking(dayOf, "D1", "P1", date, Some(slot));
    assert store.docs == booked;
    deleted := store.DeleteBooking(first.value);
    again := store.CreateBooking(dayOf, "D1", "P1", date, Some(slot));
  }

  /** Two `createAvailability` calls for "D1" on the same date: the first
      document offers 09:00-09:30, the second 10:00-10:30. */
  function TwoDocDocs(date: Date): seq<Availability>
  {
    [NewAvailability(0, "D1", date, [SlotInput("09:00", "09:30", None)], 1),
     NewAvailability(2, "D1", date, [SlotInput("10:00", "10:30", None)], 3)]
  }

  /** In those documents the 10:00-10:30 slot reads as available, because the
      check looks only at the first document, which has no such slot; and for
      the same reason the update never reaches the second document. */
  lemma TwoDocFacts(dayOf: Date -> string, date: Date)
    ensures var docs := TwoDocDocs(date);
            && SlotAvailable(docs, dayOf, "D1", date, "10:00", "10:30")
            && !SlotOffered(docs, "D1", date, "10:00", "10:30")
            && !docs[1].days[0].slots[0].isBooked && docs[1].days[0].slots[0].startTime == "10:00"
  {
    var docs := TwoDocDocs(date);
    assert HasExactDate(docs[0], date) by { assert docs[0].days[0].date == date; }
    assert IsFirst(docs, DocFilter("D1", date), 0);
    assert IsFirst(docs[0].days, OnCalendarDay(dayOf, date), 0);
    CheckedSlotDecides(docs, dayOf, "D1", date, "10:00", "10:30", 0, 0);
    forall i, j | 0 <= i < |docs| && 0 <= j < |docs[i].days| && Targets(docs, "D1", date, i, j)
      ensures forall k :: 0 <= k < |docs[i].days[j].slots| ==> !HasTimes("10:00", "10:30")(docs[i].days[j].slots[k])
    {
      FirstIsUnique(docs, DocFilter("D1", date), 0, i);
    }
  }

  /** A fresh store given the two documents by two `createAvailability` calls. */
  method TwoDocStore(date: Date) returns (store: Store)
    ensures fresh(store) && store.Valid()
    ensures store.docs == TwoDocDocs(date) && store.bookings == map[] && store.nextId == 4
  {
    store := new Store();
    NewAvailabilityValid(0, "D1", date, [SlotInput("09:00", "09:30", None)], 1);
    NewAvailabilityValid(2, "D1", date, [SlotInput("10:00", "10:30", None)], 3);
    var first := store.CreateAvailability("D1", Some(date), [SlotInput("09:00", "09:30", None)]);
    var second := store.CreateAvailability("D1", Some(date), [SlotInput("10:00", "10:30", None)]);
  }

  /** A slot offered only by the doctor's second document on a date is never
      marked: two patients book it one after the other, both get 201, and it
      stays unbooked. No concurrency is involved. */
  method DoubleBookingAcrossDocuments(dayOf: Date -> string, date: Date)
    returns (store: Store, first: Reply<nat>, second: Reply<nat>)
    ensures fresh(store) && store.Valid()
    ensures first.Success? && first.code == 201 && second.Success? && second.code == 201
    ensures first.value != second.value && first.value in store.bookings && second.value in store.bookings
    ensures store.bookings[first.value].slot == store.bookings[second.value].slot == TimeRange("10:00", "10:30")
    ensures store.docs == TwoDocDocs(date) && !store.docs[1].days[0].slots[0].isBooked
  {
    store := TwoDocStore(date);
    TwoDocFacts(dayOf, date);
    UnofferedSlotIsNotMarked(TwoDocDocs(date), "D1", date, "10:00", "10:30", true);
    first := store.CreateBooking(dayOf, "D1", "P1", date, Some(TimeRange("10:00", "10:30")));
    second := store.CreateBooking(dayOf, "D1", "P2", date, Some(TimeRange("10:00", "10:30")));
  }
}
