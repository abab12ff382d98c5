/** What doctorAvailabilityControllers.js computes on documents: the document
    `createAvailability` builds, the filter of `getAvailabilityByDoctor`, the
    slot removal of `deleteSlot`, and the nested update loop of
    `updateAvailability`. */
module AvailabilityLogic {
  import opened Common
  import opened AvailabilitySchema

  // ---------------------------------------------------------------- create

  /** A slot as the request gives it; any `isBooked` it carries is ignored. */
  datatype SlotInput = SlotInput(startTime: string, endTime: string, isBooked: Option<bool>)

  /** The request passes the guard of `createAvailability`: a doctor, a date and
      a non-empty slot list (a missing list is the empty list here). */
  predicate CreateRequestComplete(doctorId: string, date: Option<Date>, inputs: seq<SlotInput>)
  {
    doctorId != "" && date.Some? && |inputs| > 0
  }

  /** `slots.map(...)`: the input slots in order, with the ids `firstId`,
      `firstId + 1`, ... the store assigns, and never booked. */
  function FreshSlots(inputs: seq<SlotInput>, firstId: nat): (r: seq<Slot>)
    ensures |r| == |inputs|
    ensures forall k :: 0 <= k < |r| ==>
              r[k].id == firstId + k && r[k].startTime == inputs[k].startTime
              && r[k].endTime == inputs[k].endTime && !r[k].isBooked
  {
    if |inputs| == 0 then []
    else [NewSlot(firstId, inputs[0].startTime, inputs[0].endTime)] + FreshSlots(inputs[1..], firstId + 1)
  }

  /** The document `createAvailability` saves: one day on `date` holding the input slots. */
  function NewAvailability(id: nat, doctorId: string, date: Date, inputs: seq<SlotInput>, firstId: nat): (a: Availability)
    ensures a.id == id && a.doctorId == doctorId && |a.days| == 1 && a.days[0].date == date
    ensures |a.days[0].slots| == |inputs|
    ensures forall k :: 0 <= k < |inputs| ==>
              a.days[0].slots[k].startTime == inputs[k].startTime && a.days[0].slots[k].endTime == inputs[k].endTime
              && !a.days[0].slots[k].isBooked
  {
    Availability(id, doctorId, [Day(date, FreshSlots(inputs, firstId))])
  }

  /** The new document passes schema validation exactly when the doctor is
      given and every input slot has both times. */
  lemma NewAvailabilityValid(id: nat, doctorId: string, date: Date, inputs: seq<SlotInput>, firstId: nat)
    ensures ValidAvailability(NewAvailability(id, doctorId, date, inputs, firstId)) <==>
            doctorId != "" && forall k :: 0 <= k < |inputs| ==> inputs[k].startTime != "" && inputs[k].endTime != ""
  {
    var a := NewAvailability(id, doctorId, date, inputs, firstId);
    if ValidAvailability(a) {
      assert ValidDay(a.days[0]);
      forall k | 0 <= k < |inputs| ensures inputs[k].startTime != "" && inputs[k].endTime != "" {
        assert ValidSlot(a.days[0].slots[k]);
      }
    }
  }

  // ---------------------------------------------------------------- queries

  function OfDoctor(doctorId: string): Availability -> bool
  {
    (a: Availability) => a.doctorId == doctorId
  }

  function HasDocId(id: nat): Availability -> bool
  {
    (a: Availability) => a.id == id
  }

  // ---------------------------------------------------------------- deleteSlot

  function NotSlot(slotId: nat): Slot -> bool
  {
    (s: Slot) => s.id != slotId
  }

  /** The `map`/`filter` of `deleteSlot`: every day keeps its date and the slots
      whose id differs from `slotId`, in their order. */
  function WithoutSlot(days: seq<Day>, slotId: nat): (r: seq<Day>)
    ensures |r| == |days|
    ensures forall j :: 0 <= j < |days| ==>
              r[j].date == days[j].date && r[j].slots == Filter(days[j].slots, NotSlot(slotId))
  {
    seq(|days|, j requires 0 <= j < |days| => days[j].(slots := Filter(days[j].slots, NotSlot(slotId))))
  }

  /** No slot with `slotId` survives; every other slot of a day does. */
  lemma WithoutSlotRemovesExactly(days: seq<Day>, slotId: nat)
    ensures var r := WithoutSlot(days, slotId);
      && (forall j, k :: 0 <= j < |r| && 0 <= k < |r[j].slots| ==> r[j].slots[k].id != slotId && r[j].slots[k] in days[j].slots)
      && (forall j, k :: 0 <= j < |days| && 0 <= k < |days[j].slots| && days[j].slots[k].id != slotId ==> days[j].slots[k] in r[j].slots)
  {
    var r := WithoutSlot(days, slotId);
    forall j, k | 0 <= j < |r| && 0 <= k < |r[j].slots|
      ensures r[j].slots[k].id != slotId && r[j].slots[k] in days[j].slots
    {
      assert NotSlot(slotId)(r[j].slots[k]);
    }
    forall j, k | 0 <= j < |days| && 0 <= k < |days[j].slots| && days[j].slots[k].id != slotId
      ensures days[j].slots[k] in r[j].slots
    {
      assert NotSlot(slotId)(days[j].slots[k]);
    }
  }

  /** Removing an id that no slot has changes nothing. */
  lemma WithoutAbsentSlot(days: seq<Day>, slotId: nat)
    requires forall j, k :: 0 <= j < |days| && 0 <= k < |days[j].slots| ==> days[j].slots[k].id != slotId
    ensures WithoutSlot(days, slotId) == days
  {
    var r := WithoutSlot(days, slotId);
    forall j | 0 <= j < |days| ensures r[j] == days[j] {
      FilterKeepsAll(days[j].slots, NotSlot(slotId));
    }
  }

  /** Removing slots keeps a document schema-valid. */
  lemma WithoutSlotPreservesValid(a: Availability, slotId: nat)
    requires ValidAvailability(a)
    ensures ValidAvailability(a.(days := WithoutSlot(a.days, slotId)))
  {
    var r := WithoutSlot(a.days, slotId);
    forall j | 0 <= j < |r| ensures ValidDay(r[j]) {
      assert ValidDay(a.days[j]);
    }
  }

  // ---------------------------------------------------------------- updateAvailability

  /** An incoming slot: the id to look for (None when the request has none),
      the new times, and `isBooked` only if the key is present. */
  datatype SlotUpdate = SlotUpdate(id: Option<nat>, startTime: string, endTime: string, isBooked: Option<bool>)

  /** An incoming day: its date as an ISO string, and its slot list (None when absent). */
  datatype DayUpdate = DayUpdate(date: string, slots: Option<seq<SlotUpdate>>)

  /** How the loop ends: it throws (a matched day without a slot list), or it
      runs to the end with the days it changed and the `updated` flag. */
  datatype UpdateOutcome = Aborted | Applied(days: seq<Day>, updated: bool)

  /** `a.date.toISOString() === newAvailability.date`. */
  function IsoMatch(iso: Date -> string, date: string): Day -> bool
  {
    (d: Day) => iso(d.date) == date
  }

  /** `slot._id.toString() === newSlot._id`. */
  function HasId(id: Option<nat>): Slot -> bool
  {
    (s: Slot) => id == Some(s.id)
  }

  /** The assignments made to a found slot. */
  function Overwrite(s: Slot, u: SlotUpdate): Slot
  {
    s.(startTime := u.startTime, endTime := u.endTime,
       isBooked := if u.isBooked.Some? then u.isBooked.value else s.isBooked)
  }

  /** One incoming slot: the first slot with its id is overwritten and the
      flag set; with no such slot nothing changes. */
  function ApplySlotUpdate(slots: seq<Slot>, u: SlotUpdate, updated: bool): (r: (seq<Slot>, bool))
    ensures |r.0| == |slots|
    ensures forall k :: 0 <= k < |slots| ==>
              r.0[k] == if IsFirst(slots, HasId(u.id), k) then Overwrite(slots[k], u) else slots[k]
    ensures r.1 == (updated || exists k :: 0 <= k < |slots| && HasId(u.id)(slots[k]))
  {
    match FindIndex(slots, HasId(u.id))
    case None => (slots, updated)
    case Some(k) =>
      assert forall k' :: IsFirst(slots, HasId(u.id), k') ==> k' == k by {
        forall k' | IsFirst(slots, HasId(u.id), k') ensures k' == k {
          FirstIsUnique(slots, HasId(u.id), k, k');
        }
      }
      (slots[k := Overwrite(slots[k], u)], true)
  }

  /** `newAvailability.slots.forEach(...)`, one incoming slot after the other. */
  function ApplySlotUpdates(slots: seq<Slot>, us: seq<SlotUpdate>, updated: bool): (seq<Slot>, bool)
    decreases |us|
  {
    if |us| == 0 then (slots, updated)
    else
      var r := ApplySlotUpdates(slots, us[..|us| - 1], updated);
      ApplySlotUpdate(r.0, us[|us| - 1], r.1)
  }

  /** One incoming day: found by ISO date, then its slots are applied; a found
      day without a slot list throws. */
  function ApplyDayUpdate(days: seq<Day>, iso: Date -> string, up: DayUpdate, updated: bool): UpdateOutcome
  {
    match FindIndex(days, IsoMatch(iso, up.date))
    case None => Applied(days, updated)
    case Some(j) =>
      match up.slots
      case None => Aborted
      case Some(us) =>
        var r := ApplySlotUpdates(days[j].slots, us, updated);
        Applied(days[j := days[j].(slots := r.0)], r.1)
  }

  /** `availability.forEach(...)` with `updated` starting out false. */
  function ApplyDayUpdates(days: seq<Day>, iso: Date -> string, ups: seq<DayUpdate>): UpdateOutcome
    decreases |ups|
  {
    if |ups| == 0 then Applied(days, false)
    else
      match ApplyDayUpdates(days, iso, ups[..|ups| - 1])
      case Aborted => Aborted
      case Applied(ds, u) => ApplyDayUpdate(ds, iso, ups[|ups| - 1], u)
  }

  /** The inner loop of `updateAvailability`, over the slots of one found day. */
  method UpdateSlots(slots: seq<Slot>, us: seq<SlotUpdate>, updated: bool) returns (out: seq<Slot>, flag: bool)
    ensures (out, flag) == ApplySlotUpdates(slots, us, updated)
  {
    out, flag := slots, updated;
    var n := 0;
    while n < |us|
      invariant 0 <= n <= |us|
      invariant ApplySlotUpdates(slots, us[..n], updated) == (out, flag)
    {
      assert us[..n + 1][..n] == us[..n];
      var u := us[n];
      var hit := FindIndex(out, HasId(u.id));
      if hit.Some? {
        var k := hit.value;
        var s := out[k];
        s := s.(startTime := u.startTime);
        s := s.(endTime := u.endTime);
        if u.isBooked.Some? {
          s := s.(isBooked := u.isBooked.value);
        }
        out := out[k := s];
        flag := true;
      }
      n := n + 1;
    }
    assert us[..|us|] == us;
  }

  /** The update loop of `updateAvailability`, run on the loaded document's days. */
  method UpdateDays(days: seq<Day>, iso: Date -> string, ups: seq<DayUpdate>) returns (out: UpdateOutcome)
    ensures out == ApplyDayUpdates(days, iso, ups)
  {
    var current := days;
    var updated := false;
    var i := 0;
    while i < |ups|
      invariant 0 <= i <= |ups|
      invariant ApplyDayUpdates(days, iso, ups[..i]) == Applied(current, updated)
    {
      assert ups[..i + 1][..i] == ups[..i];
      var up := ups[i];
      var found := FindIndex(current, IsoMatch(iso, up.date));
      if found.Some? {
        var j := found.value;
        if up.slots.None? {
          AbortIsFinal(days, iso, ups, i + 1);
          return Aborted;
        }
        var slots;
        slots, updated := UpdateSlots(current[j].slots, up.slots.value, updated);
        current := current[j := current[j].(slots := slots)];
      }
      i := i + 1;
    }
    assert ups[..|ups|] == ups;
    out := Applied(current, updated);
  }

  /** Once the loop has thrown, the later entries do not matter. */
  lemma {:induction false} AbortIsFinal(days: seq<Day>, iso: Date -> string, ups: seq<DayUpdate>, n: nat)
    requires 0 < n <= |ups|
    requires ApplyDayUpdates(days, iso, ups[..n]) == Aborted
    ensures ApplyDayUpdates(days, iso, ups) == Aborted
    decreases |ups| - n
  {
    if n < |ups| {
      assert ups[..n + 1][..n] == ups[..n];
      AbortIsFinal(days, iso, ups, n + 1);
    } else {
      assert ups[..n] == ups;
    }
  }

  /** Two slot lists with the same ids in the same places. */
  predicate SameIds(a: seq<Slot>, b: seq<Slot>)
  {
    |a| == |b| && forall k :: 0 <= k < |a| ==> a[k].id == b[k].id
  }

  /** Two day lists with the same dates and slot ids in the same places. */
  predicate SameLayout(a: seq<Day>, b: seq<Day>)
  {
    |a| == |b| && forall j :: 0 <= j < |a| ==> a[j].date == b[j].date && SameIds(a[j].slots, b[j].slots)
  }

  predicate SlotFound(slots: seq<Slot>, id: Option<nat>)
  {
    exists k :: 0 <= k < |slots| && HasId(id)(slots[k])
  }

  predicate AnySlotFound(slots: seq<Slot>, us: seq<SlotUpdate>)
  {
    exists n :: 0 <= n < |us| && SlotFound(slots, us[n].id)
  }

  /** Some day has this ISO date. */
  predicate DayFound(days: seq<Day>, iso: Date -> string, date: string)
  {
    exists j :: 0 <= j < |days| && IsoMatch(iso, date)(days[j])
  }

  /** The incoming day reaches a slot: its date is found, it has a slot list,
      and one of its slot ids is in the found day. */
  predicate Matches(days: seq<Day>, iso: Date -> string, up: DayUpdate)
  {
    match FindIndex(days, IsoMatch(iso, up.date))
    case None => false
    case Some(j) => up.slots.Some? && AnySlotFound(days[j].slots, up.slots.value)
  }

  lemma SameIdsFound(a: seq<Slot>, b: seq<Slot>, id: Option<nat>)
    requires SameIds(a, b)
    ensures SlotFound(a, id) <==> SlotFound(b, id)
  {
    if SlotFound(a, id) {
      var k :| 0 <= k < |a| && HasId(id)(a[k]);
      assert HasId(id)(b[k]);
    }
    if SlotFound(b, id) {
      var k :| 0 <= k < |b| && HasId(id)(b[k]);
      assert HasId(id)(a[k]);
    }
  }

  /** One incoming slot keeps every id in place; it sets the flag exactly when
      its id is found; and when it is not, the slots are as they were. */
  lemma SlotUpdateEffect(slots: seq<Slot>, u: SlotUpdate, updated: bool)
    ensures var r := ApplySlotUpdate(slots, u, updated);
      && SameIds(slots, r.0)
      && r.1 == (updated || SlotFound(slots, u.id))
      && (!SlotFound(slots, u.id) ==> r.0 == slots)
  {
    var r := ApplySlotUpdate(slots, u, updated);
    assert SameIds(slots, r.0) by {
      forall k | 0 <= k < |slots| ensures r.0[k].id == slots[k].id {
      }
    }
    if !SlotFound(slots, u.id) {
      assert forall k :: 0 <= k < |slots| ==> !IsFirst(slots, HasId(u.id), k);
      assert r.0 == slots;
    }
  }

  /** Splitting off the last incoming slot of `AnySlotFound`. */
  lemma AnySlotFoundSnoc(slots: seq<Slot>, us: seq<SlotUpdate>)
    requires |us| > 0
    ensures AnySlotFound(slots, us) == (AnySlotFound(slots, us[..|us| - 1]) || SlotFound(slots, us[|us| - 1].id))
  {
    var init := us[..|us| - 1];
    if AnySlotFound(slots, us) {
      var n :| 0 <= n < |us| && SlotFound(slots, us[n].id);
      if n < |us| - 1 {
        assert init[n] == us[n];
      }
    }
    if AnySlotFound(slots, init) {
      var n :| 0 <= n < |init| && SlotFound(slots, init[n].id);
      assert us[n] == init[n];
    }
  }

  /** The slot loop keeps every id in place; it sets the flag exactly when some
      incoming id is found; and when none is, the slots are as they were. */
  lemma {:induction false} SlotUpdatesEffect(slots: seq<Slot>, us: seq<SlotUpdate>, updated: bool)
    ensures var r := ApplySlotUpdates(slots, us, updated);
      && SameIds(slots, r.0)
      && r.1 == (updated || AnySlotFound(slots, us))
      && (!AnySlotFound(slots, us) ==> r.0 == slots)
    decreases |us|
  {
    if |us| > 0 {
      var init, last := us[..|us| - 1], us[|us| - 1];
      SlotUpdatesEffect(slots, init, updated);
      var r1 := ApplySlotUpdates(slots, init, updated);
      SlotUpdateEffect(r1.0, last, r1.1);
      SameIdsFound(slots, r1.0, last.id);
      AnySlotFoundSnoc(slots, us);
    }
  }

  /** One incoming day, against days laid out as the original ones: it throws
      exactly when its date is found and it has no slot list; otherwise it keeps
      the layout, sets the flag exactly when it reaches a slot, and when it
      reaches none changes nothing. */
  lemma DayUpdateEffect(days: seq<Day>, ds: seq<Day>, iso: Date -> string, up: DayUpdate, updated: bool)
    requires SameLayout(days, ds)
    ensures var o := ApplyDayUpdate(ds, iso, up, updated);
      && (o.Aborted? <==> DayFound(days, iso, up.date) && up.slots.None?)
      && (o.Applied? ==>
            && SameLayout(days, o.days)
            && o.updated == (updated || Matches(days, iso, up))
            && (!Matches(days, iso, up) ==> o.days == ds))
  {
    var p := IsoMatch(iso, up.date);
    FindIndexCongruent(days, ds, p);
    var f := FindIndex(days, p);
    if f.Some? && up.slots.Some? {
      var j := f.value;
      var us := up.slots.value;
      SlotUpdatesEffect(ds[j].slots, us, updated);
      assert AnySlotFound(ds[j].slots, us) <==> AnySlotFound(days[j].slots, us) by {
        forall n | 0 <= n < |us| ensures SlotFound(ds[j].slots, us[n].id) <==> SlotFound(days[j].slots, us[n].id) {
          SameIdsFound(days[j].slots, ds[j].slots, us[n].id);
        }
      }
      var r := ApplySlotUpdates(ds[j].slots, us, updated);
      var nd := ds[j := ds[j].(slots := r.0)];
      assert SameLayout(days, nd) by {
        forall j' | 0 <= j' < |days| ensures days[j'].date == nd[j'].date && SameIds(days[j'].slots, nd[j'].slots) {
          if j' != j {
            assert nd[j'] == ds[j'];
          }
        }
      }
    }
  }

  /** An incoming day that makes the loop throw. */
  function Aborts(days: seq<Day>, iso: Date -> string): DayUpdate -> bool
  {
    (up: DayUpdate) => DayFound(days, iso, up.date) && up.slots.None?
  }

  /** An incoming day that reaches a slot. */
  function Reaches(days: seq<Day>, iso: Date -> string): DayUpdate -> bool
  {
    (up: DayUpdate) => Matches(days, iso, up)
  }

  /** What `updateAvailability`'s loop achieves, stated against the loaded days:
      it throws exactly when some incoming day is found but has no slot list;
      otherwise dates and slot ids stay in place, `updated` is true exactly when
      some incoming (date, slot id) pair is found, and when it is false the days
      are unchanged. */
  lemma {:induction false} UpdateOutcomeSpec(days: seq<Day>, iso: Date -> string, ups: seq<DayUpdate>)
    ensures var o := ApplyDayUpdates(days, iso, ups);
      && (o.Aborted? <==> Any(ups, Aborts(days, iso)))
      && (o.Applied? ==>
            && SameLayout(days, o.days)
            && (o.updated <==> Any(ups, Reaches(days, iso)))
            && (!o.updated ==> o.days == days))
    decreases |ups|
  {
    if |ups| > 0 {
      var init, last := ups[..|ups| - 1], ups[|ups| - 1];
      UpdateOutcomeSpec(days, iso, init);
      AnySnoc(ups, Aborts(days, iso));
      AnySnoc(ups, Reaches(days, iso));
      var o1 := ApplyDayUpdates(days, iso, init);
      if o1.Applied? {
        DayUpdateEffect(days, o1.days, iso, last, o1.updated);
      }
    } else {
      assert SameLayout(days, days) by {
        forall j | 0 <= j < |days| ensures SameIds(days[j].slots, days[j].slots) { }
      }
    }
  }
}
