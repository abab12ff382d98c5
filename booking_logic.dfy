/** The read and the write that bookingControllers.js performs on the
    availability store: the slot check behind `checkSlotAvailability`, and the
    `updateOne` with a positional `$` and an `arrayFilters` clause that flips
    `isBooked` when a booking is created or deleted. */
module BookingLogic {
  import opened Common
  import opened AvailabilitySchema

  /** Some day of the document has exactly this date (`"availability.date": date`). */
  predicate HasExactDate(a: Availability, date: Date)
  {
    exists j :: 0 <= j < |a.days| && a.days[j].date == date
  }

  /** The store filter `{ doctorId, "availability.date": date }`. */
  function DocFilter(doctorId: string, date: Date): Availability -> bool
  {
    (a: Availability) => a.doctorId == doctorId && HasExactDate(a, date)
  }

  /** A day entry whose date is exactly `date`: the element the positional `$` picks. */
  function OnDate(date: Date): Day -> bool
  {
    (d: Day) => d.date == date
  }

  /** A day entry on the same calendar day as `date` (`toDateString()` equality). */
  function OnCalendarDay(dayOf: Date -> string, date: Date): Day -> bool
  {
    (d: Day) => dayOf(d.date) == dayOf(date)
  }

  /** A slot with exactly these times (the `arrayFilters` condition). */
  function HasTimes(startTime: string, endTime: string): Slot -> bool
  {
    (s: Slot) => s.startTime == startTime && s.endTime == endTime
  }

  /** `checkSlotAvailability`: `findOne` takes the first document of the doctor
      with a day exactly on `date`; in it, the first day on the same calendar
      day; in that day, the first slot with both times. The answer is false
      when there is no such document or when that slot is booked, and true
      otherwise, also when no slot has these times. */
  function SlotAvailable(docs: seq<Availability>, dayOf: Date -> string, doctorId: string,
                         date: Date, startTime: string, endTime: string): bool
  {
    match FindIndex(docs, DocFilter(doctorId, date))
    case None => false
    case Some(i) =>
      match FindIndex(docs[i].days, OnCalendarDay(dayOf, date))
      case None => true
      case Some(j) =>
        match FindIndex(docs[i].days[j].slots, HasTimes(startTime, endTime))
        case None => true
        case Some(k) => !docs[i].days[j].slots[k].isBooked
  }

  /** No document of that doctor carries that exact date: the slot is unavailable. */
  lemma NoDocumentIsUnavailable(docs: seq<Availability>, dayOf: Date -> string, doctorId: string,
                                date: Date, startTime: string, endTime: string)
    requires forall i :: 0 <= i < |docs| ==> docs[i].doctorId != doctorId || !HasExactDate(docs[i], date)
    ensures !SlotAvailable(docs, dayOf, doctorId, date, startTime, endTime)
  {
  }

  /** When the document is found: the answer depends only on the first slot with
      these times in the first same-calendar-day entry. It is false exactly when
      that slot exists and is booked; with no such slot it is true. */
  lemma CheckedSlotDecides(docs: seq<Availability>, dayOf: Date -> string, doctorId: string,
                           date: Date, startTime: string, endTime: string, i: nat, j: nat)
    requires IsFirst(docs, DocFilter(doctorId, date), i)
    requires IsFirst(docs[i].days, OnCalendarDay(dayOf, date), j)
    ensures (forall k :: 0 <= k < |docs[i].days[j].slots| ==> !HasTimes(startTime, endTime)(docs[i].days[j].slots[k]))
            ==> SlotAvailable(docs, dayOf, doctorId, date, startTime, endTime)
    ensures forall k :: IsFirst(docs[i].days[j].slots, HasTimes(startTime, endTime), k) ==>
              (SlotAvailable(docs, dayOf, doctorId, date, startTime, endTime) <==> !docs[i].days[j].slots[k].isBooked)
  {
    var ri := FindIndex(docs, DocFilter(doctorId, date));
    FirstIsUnique(docs, DocFilter(doctorId, date), ri.value, i);
    var rj := FindIndex(docs[i].days, OnCalendarDay(dayOf, date));
    FirstIsUnique(docs[i].days, OnCalendarDay(dayOf, date), rj.value, j);
    var slots := docs[i].days[j].slots;
    var rk := FindIndex(slots, HasTimes(startTime, endTime));
    forall k | IsFirst(slots, HasTimes(startTime, endTime), k)
      ensures SlotAvailable(docs, dayOf, doctorId, date, startTime, endTime) <==> !slots[k].isBooked
    {
      FirstIsUnique(slots, HasTimes(startTime, endTime), rk.value, k);
    }
  }

  /** `arrayFilters` on one day: every slot with both times gets `flag`. */
  function SetFlags(slots: seq<Slot>, startTime: string, endTime: string, flag: bool): (r: seq<Slot>)
    ensures |r| == |slots|
  {
    seq(|slots|, k requires 0 <= k < |slots| =>
      if HasTimes(startTime, endTime)(slots[k]) then slots[k].(isBooked := flag) else slots[k])
  }

  /** `(i, j)` is the day the update `{ doctorId, "availability.date": date }`
      with `"availability.$.slots..."` addresses: the first matching document
      and in it the first day exactly on `date`. */
  predicate Targets(docs: seq<Availability>, doctorId: string, date: Date, i: int, j: int)
  {
    IsFirst(docs, DocFilter(doctorId, date), i) && IsFirst(docs[i].days, OnDate(date), j)
  }

  /** The day the update addresses holds a slot with both times. */
  predicate SlotOffered(docs: seq<Availability>, doctorId: string, date: Date, startTime: string, endTime: string)
  {
    exists i, j :: 0 <= i < |docs| && 0 <= j < |docs[i].days| && Targets(docs, doctorId, date, i, j)
      && exists k :: 0 <= k < |docs[i].days[j].slots| && HasTimes(startTime, endTime)(docs[i].days[j].slots[k])
  }

  /** The slot-flag `updateOne`: in the first document matching the filter,
      in its first day exactly on `date`, every slot with both times gets
      `flag`. Nothing else changes, and nothing at all when no document matches. */
  function MarkSlots(docs: seq<Availability>, doctorId: string, date: Date,
                     startTime: string, endTime: string, flag: bool): (r: seq<Availability>)
    ensures |r| == |docs|
    ensures forall i :: 0 <= i < |docs| ==>
              r[i].id == docs[i].id && r[i].doctorId == docs[i].doctorId && |r[i].days| == |docs[i].days|
    ensures forall i, j :: 0 <= i < |docs| && 0 <= j < |docs[i].days| ==>
              r[i].days[j].date == docs[i].days[j].date && |r[i].days[j].slots| == |docs[i].days[j].slots|
    ensures forall i, j, k :: 0 <= i < |docs| && 0 <= j < |docs[i].days| && 0 <= k < |docs[i].days[j].slots| ==>
              r[i].days[j].slots[k] == docs[i].days[j].slots[k].(isBooked :=
                if Targets(docs, doctorId, date, i, j) && HasTimes(startTime, endTime)(docs[i].days[j].slots[k])
                then flag else docs[i].days[j].slots[k].isBooked)
    ensures (forall i :: 0 <= i < |docs| ==> !DocFilter(doctorId, date)(docs[i])) ==> r == docs
  {
    match FindIndex(docs, DocFilter(doctorId, date))
    case None => docs
    case Some(i) =>
      match FindIndex(docs[i].days, OnDate(date))
      case None => docs
      case Some(j) =>
        var day := docs[i].days[j];
        var r := docs[i := docs[i].(days := docs[i].days[j := day.(slots := SetFlags(day.slots, startTime, endTime, flag))])];
        assert forall i', j' :: Targets(docs, doctorId, date, i', j') ==> i' == i && j' == j by {
          forall i', j' | Targets(docs, doctorId, date, i', j') ensures i' == i && j' == j {
            FirstIsUnique(docs, DocFilter(doctorId, date), i, i');
            FirstIsUnique(docs[i].days, OnDate(date), j, j');
          }
        }
        r
  }

  /** When the day the update addresses has no slot with both times, the
      update changes nothing, even if a later document of the doctor on that
      date holds such a slot. */
  lemma UnofferedSlotIsNotMarked(docs: seq<Availability>, doctorId: string, date: Date,
                                 startTime: string, endTime: string, flag: bool)
    requires !SlotOffered(docs, doctorId, date, startTime, endTime)
    ensures MarkSlots(docs, doctorId, date, startTime, endTime, flag) == docs
  {
    var ri := FindIndex(docs, DocFilter(doctorId, date));
    if ri.Some? {
      var i := ri.value;
      var rj := FindIndex(docs[i].days, OnDate(date));
      if rj.Some? {
        var j := rj.value;
        var day := docs[i].days[j];
        assert Targets(docs, doctorId, date, i, j);
        assert SetFlags(day.slots, startTime, endTime, flag) == day.slots;
        assert docs[i].days[j := day] == docs[i].days;
        assert docs[i := docs[i].(days := docs[i].days)] == docs;
      }
    }
  }

  /** The flag update changes no date, doctor or time, so every search the
      update makes (for the document, the exact day and the slots) finds the
      same elements before and after it. */
  lemma MarkSlotsKeepsExactMatches(docs: seq<Availability>, doctorId: string, date: Date,
                                   startTime: string, endTime: string, flag: bool)
    ensures var m := MarkSlots(docs, doctorId, date, startTime, endTime, flag);
      && (forall x :: 0 <= x < |docs| ==> DocFilter(doctorId, date)(m[x]) == DocFilter(doctorId, date)(docs[x]))
      && (forall x, y :: 0 <= x < |docs| && 0 <= y < |docs[x].days| ==>
            OnDate(date)(m[x].days[y]) == OnDate(date)(docs[x].days[y]))
      && (forall x, y, z :: 0 <= x < |docs| && 0 <= y < |docs[x].days| && 0 <= z < |docs[x].days[y].slots| ==>
            HasTimes(startTime, endTime)(m[x].days[y].slots[z]) == HasTimes(startTime, endTime)(docs[x].days[y].slots[z]))
  {
    var m := MarkSlots(docs, doctorId, date, startTime, endTime, flag);
    forall x | 0 <= x < |docs|
      ensures DocFilter(doctorId, date)(m[x]) == DocFilter(doctorId, date)(docs[x])
    {
      if HasExactDate(docs[x], date) {
        var y :| 0 <= y < |docs[x].days| && docs[x].days[y].date == date;
        assert m[x].days[y].date == date;
      }
      if HasExactDate(m[x], date) {
        var y :| 0 <= y < |m[x].days| && m[x].days[y].date == date;
        assert docs[x].days[y].date == date;
      }
    }
  }

  /** Every search of the check finds the same elements before and after the
      flag update, the same-calendar-day search included. */
  lemma MarkSlotsKeepsMatches(docs: seq<Availability>, doctorId: string, date: Date,
                              startTime: string, endTime: string, flag: bool, dayOf: Date -> string)
    ensures var m := MarkSlots(docs, doctorId, date, startTime, endTime, flag);
      && (forall x :: 0 <= x < |docs| ==> DocFilter(doctorId, date)(m[x]) == DocFilter(doctorId, date)(docs[x]))
      && (forall x, y :: 0 <= x < |docs| && 0 <= y < |docs[x].days| ==>
            OnCalendarDay(dayOf, date)(m[x].days[y]) == OnCalendarDay(dayOf, date)(docs[x].days[y]))
      && (forall x, y, z :: 0 <= x < |docs| && 0 <= y < |docs[x].days| && 0 <= z < |docs[x].days[y].slots| ==>
            HasTimes(startTime, endTime)(m[x].days[y].slots[z]) == HasTimes(startTime, endTime)(docs[x].days[y].slots[z]))
  {
    MarkSlotsKeepsExactMatches(docs, doctorId, date, startTime, endTime, flag);
  }

  /** The flag update addresses the same day before and after it. */
  lemma TargetsKept(docs: seq<Availability>, doctorId: string, date: Date,
                    startTime: string, endTime: string, flag: bool, i: nat, j: nat)
    requires i < |docs| && j < |docs[i].days|
    ensures var m := MarkSlots(docs, doctorId, date, startTime, endTime, flag);
            Targets(m, doctorId, date, i, j) <==> Targets(docs, doctorId, date, i, j)
  {
    var m := MarkSlots(docs, doctorId, date, startTime, endTime, flag);
    MarkSlotsKeepsExactMatches(docs, doctorId, date, startTime, endTime, flag);
    if Targets(docs, doctorId, date, i, j) {
      FirstTransfers(docs, m, DocFilter(doctorId, date), i);
      FirstTransfers(docs[i].days, m[i].days, OnDate(date), j);
    }
    if Targets(m, doctorId, date, i, j) {
      FirstTransfers(m, docs, DocFilter(doctorId, date), i);
      FirstTransfers(m[i].days, docs[i].days, OnDate(date), j);
    }
  }

  /** After the update that books `(i, j)`, a slot with these times in that day
      reads as unavailable, provided that day is also the first entry on its
      calendar day (the one the check inspects). */
  lemma BookedSlotReadsUnavailable(docs: seq<Availability>, dayOf: Date -> string, doctorId: string,
                                   date: Date, startTime: string, endTime: string, i: nat, j: nat)
    requires Targets(docs, doctorId, date, i, j)
    requires IsFirst(docs[i].days, OnCalendarDay(dayOf, date), j)
    requires exists k :: 0 <= k < |docs[i].days[j].slots| && HasTimes(startTime, endTime)(docs[i].days[j].slots[k])
    ensures !SlotAvailable(MarkSlots(docs, doctorId, date, startTime, endTime, true), dayOf, doctorId, date, startTime, endTime)
  {
    var m := MarkSlots(docs, doctorId, date, startTime, endTime, true);
    MarkSlotsKeepsMatches(docs, doctorId, date, startTime, endTime, true, dayOf);
    FirstTransfers(docs, m, DocFilter(doctorId, date), i);
    FirstTransfers(docs[i].days, m[i].days, OnCalendarDay(dayOf, date), j);
    var k := FindIndex(docs[i].days[j].slots, HasTimes(startTime, endTime)).value;
    FirstTransfers(docs[i].days[j].slots, m[i].days[j].slots, HasTimes(startTime, endTime), k);
    CheckedSlotDecides(m, dayOf, doctorId, date, startTime, endTime, i, j);
  }

  /** After the update that frees `(i, j)`, the check answers true, provided
      that day is the first entry on its calendar day. */
  lemma ReleasedSlotReadsAvailable(docs: seq<Availability>, dayOf: Date -> string, doctorId: string,
                                   date: Date, startTime: string, endTime: string, i: nat, j: nat)
    requires Targets(docs, doctorId, date, i, j)
    requires IsFirst(docs[i].days, OnCalendarDay(dayOf, date), j)
    ensures SlotAvailable(MarkSlots(docs, doctorId, date, startTime, endTime, false), dayOf, doctorId, date, startTime, endTime)
  {
    var m := MarkSlots(docs, doctorId, date, startTime, endTime, false);
    MarkSlotsKeepsMatches(docs, doctorId, date, startTime, endTime, false, dayOf);
    FirstTransfers(docs, m, DocFilter(doctorId, date), i);
    FirstTransfers(docs[i].days, m[i].days, OnCalendarDay(dayOf, date), j);
    CheckedSlotDecides(m, dayOf, doctorId, date, startTime, endTime, i, j);
    var rk := FindIndex(docs[i].days[j].slots, HasTimes(startTime, endTime));
    if rk.Some? {
      FirstTransfers(docs[i].days[j].slots, m[i].days[j].slots, HasTimes(startTime, endTime), rk.value);
    }
  }

  /** The flag update keeps the entries the check inspects where they were. */
  lemma CheckedEntriesKept(docs: seq<Availability>, dayOf: Date -> string, doctorId: string,
                           date: Date, startTime: string, endTime: string, flag: bool, i: nat, j: nat)
    requires IsFirst(docs, DocFilter(doctorId, date), i)
    requires IsFirst(docs[i].days, OnCalendarDay(dayOf, date), j)
    ensures var m := MarkSlots(docs, doctorId, date, startTime, endTime, flag);
            && IsFirst(m, DocFilter(doctorId, date), i)
            && IsFirst(m[i].days, OnCalendarDay(dayOf, date), j)
            && FindIndex(m[i].days[j].slots, HasTimes(startTime, endTime))
               == FindIndex(docs[i].days[j].slots, HasTimes(startTime, endTime))
  {
    var m := MarkSlots(docs, doctorId, date, startTime, endTime, flag);
    MarkSlotsKeepsMatches(docs, doctorId, date, startTime, endTime, flag, dayOf);
    FirstTransfers(docs, m, DocFilter(doctorId, date), i);
    FirstTransfers(docs[i].days, m[i].days, OnCalendarDay(dayOf, date), j);
    FindIndexCongruent(docs[i].days[j].slots, m[i].days[j].slots, HasTimes(startTime, endTime));
  }

  /** Booking a slot that reads as available and then freeing it again (the
      update of a create followed by that of a delete with the same doctor,
      date and times) leaves it reading as available, whatever the layout. */
  lemma CreateThenDeleteFrees(docs: seq<Availability>, dayOf: Date -> string, doctorId: string,
                              date: Date, startTime: string, endTime: string)
    requires SlotAvailable(docs, dayOf, doctorId, date, startTime, endTime)
    ensures SlotAvailable(MarkSlots(MarkSlots(docs, doctorId, date, startTime, endTime, true),
                                    doctorId, date, startTime, endTime, false),
                          dayOf, doctorId, date, startTime, endTime)
  {
    var m1 := MarkSlots(docs, doctorId, date, startTime, endTime, true);
    var m2 := MarkSlots(m1, doctorId, date, startTime, endTime, false);
    var i := FindIndex(docs, DocFilter(doctorId, date)).value;
    var y :| 0 <= y < |docs[i].days| && docs[i].days[y].date == date;
    assert OnCalendarDay(dayOf, date)(docs[i].days[y]);
    var j := FindIndex(docs[i].days, OnCalendarDay(dayOf, date)).value;
    CheckedEntriesKept(docs, dayOf, doctorId, date, startTime, endTime, true, i, j);
    CheckedEntriesKept(m1, dayOf, doctorId, date, startTime, endTime, false, i, j);
    CheckedSlotDecides(docs, dayOf, doctorId, date, startTime, endTime, i, j);
    CheckedSlotDecides(m2, dayOf, doctorId, date, startTime, endTime, i, j);
    var rk := FindIndex(docs[i].days[j].slots, HasTimes(startTime, endTime));
    if rk.Some? {
      var k := rk.value;
      TargetsKept(docs, doctorId, date, startTime, endTime, true, i, j);
      assert m2[i].days[j].slots[k].isBooked ==
        if Targets(m1, doctorId, date, i, j) then false else m1[i].days[j].slots[k].isBooked;
      assert m1[i].days[j].slots[k].isBooked ==
        if Targets(docs, doctorId, date, i, j) then true else docs[i].days[j].slots[k].isBooked;
    }
  }

  /** The check and the update can look at different entries: here the first
      entry on the calendar day is not the one exactly on `date`. The check
      finds no slot in it and answers true; the update books the slot of the
      exact entry; and the check still answers true, so a second booking of the
      same slot would pass. */
  lemma CalendarDayShadowsBooking()
    ensures var dayOf := (d: Date) => "Fri Jan 10 2025";
            var docs := [Availability(0, "D1", [Day(Date(1), []), Day(Date(0), [Slot(2, "09:00", "09:30", false)])])];
            var m := MarkSlots(docs, "D1", Date(0), "09:00", "09:30", true);
            && SlotAvailable(docs, dayOf, "D1", Date(0), "09:00", "09:30")
            && m[0].days[1].slots[0].isBooked
            && SlotAvailable(m, dayOf, "D1", Date(0), "09:00", "09:30")
  {
    var dayOf := (d: Date) => "Fri Jan 10 2025";
    var docs := [Availability(0, "D1", [Day(Date(1), []), Day(Date(0), [Slot(2, "09:00", "09:30", false)])])];
    var m := MarkSlots(docs, "D1", Date(0), "09:00", "09:30", true);
    assert DocFilter("D1", Date(0))(docs[0]) by {
      assert docs[0].days[1].date == Date(0);
    }
    assert Targets(docs, "D1", Date(0), 0, 1);
    assert IsFirst(docs[0].days, OnCalendarDay(dayOf, Date(0)), 0);
    CheckedSlotDecides(docs, dayOf, "D1", Date(0), "09:00", "09:30", 0, 0);
    MarkSlotsKeepsMatches(docs, "D1", Date(0), "09:00", "09:30", true, dayOf);
    FirstTransfers(docs, m, DocFilter("D1", Date(0)), 0);
    FirstTransfers(docs[0].days, m[0].days, OnCalendarDay(dayOf, Date(0)), 0);
    CheckedSlotDecides(m, dayOf, "D1", Date(0), "09:00", "09:30", 0, 0);
  }

  /** The flag update keeps every document schema-valid. */
  lemma MarkSlotsPreservesValid(docs: seq<Availability>, doctorId: string, date: Date,
                                startTime: string, endTime: string, flag: bool)
    requires forall x :: 0 <= x < |docs| ==> ValidAvailability(docs[x])
    ensures var m := MarkSlots(docs, doctorId, date, startTime, endTime, flag);
            forall x :: 0 <= x < |m| ==> ValidAvailability(m[x])
  {
    var m := MarkSlots(docs, doctorId, date, startTime, endTime, flag);
    forall x | 0 <= x < |m| ensures ValidAvailability(m[x]) {
      assert ValidAvailability(docs[x]);
      forall y | 0 <= y < |m[x].days| ensures ValidDay(m[x].days[y]) {
        assert ValidDay(docs[x].days[y]);
      }
    }
  }
}
