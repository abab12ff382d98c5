# MedicareBackend scheduling core in Dafny

This project models the appointment-scheduling subsystem of MedicareBackend, an Express/Mongoose back end for a clinic, and proves properties of the model. Doctors publish **availability documents**: a doctor id and an ordered list of days, each day an ordered list of time slots with an `isBooked` flag. Patients create **bookings** against those slots. A booking copies the slot's start and end times, starts out `pending`, and moves through `pending/confirmed/cancelled`. Creating a booking sets the slot flag, and deleting the booking clears it again. Two smaller parts are modelled as well: the contact-message inbox, which has `pending/read/resolved` statuses and an admin reply, and the guard that validates report text before analysis.

The two Mongo collections of the scheduler are fields of the class `Schedule.Store`:

* `docs`, a sequence of availability documents in natural order;
* `bookings`, a map from booking id to booking.

The message collection is a field of `MessageController.Inbox`. Each Express handler is a method that changes these fields. Read-only handlers are functions that read them. Each one returns a `Reply`, either `Success(code, value)` or `Failure(code, message)`, carrying the HTTP status and the error message the handler would send.

The pieces the handlers are built from are pure functions, and most of the proofs are about them:

* `Common.FindIndex` is `Array.prototype.find`.
* `Common.Filter` is `filter`.
* `BookingLogic.SlotAvailable` is `checkSlotAvailability`.
* `BookingLogic.MarkSlots` is the `updateOne` with the positional `$` operator and `arrayFilters`. It picks the first document matching the doctor and the exact date. In that document it picks the first day exactly on that date. It sets the flag on every slot in that day whose two times match.
* `AvailabilityLogic.ApplyDayUpdates` is the nested loop of `updateAvailability`.

`AvailabilityLogic.UpdateDays` is that loop written imperatively, with an in-place `updated` flag. It is proved equal to `ApplyDayUpdates`.

Dates are instants (`Common.Date`). The code compares them in three ways:

* the store filters compare instants exactly;
* `checkSlotAvailability` compares calendar days with `toDateString()`;
* `updateAvailability` compares `toISOString()` against a request string.

The two renderings are parameters of the operations that use them: `dayOf` and `iso`. Ids that the store mints (documents, slots, bookings, messages) are natural numbers. Each store draws them from its own counter `nextId`: the schedule store `Schedule.Store` hands out document, slot and booking ids, and the inbox `MessageController.Inbox` hands out message ids. An id that is absent from a request is `None`.

Where the code does something other than what one would expect, the model follows the code:

* `checkSlotAvailability` answers **true** when the document exists but no slot has the requested times. Only a found, booked slot or a missing document gives false (`BookingLogic.CheckedSlotDecides`, `BookingLogic.NoDocumentIsUnavailable`).
* The check and the flag update can address different day entries. The check inspects the first entry on the same calendar day, and the update targets the first entry at the exact instant. `BookingLogic.CalendarDayShadowsBooking` gives a document for which booking a slot leaves it reading as available, so that a second booking of the same slot would pass. That document has two day entries. The handlers never build one: `createAvailability` writes exactly one day, and no other handler adds or removes a day. Every document in a valid `Schedule.Store` therefore has one day, and within the first document of the doctor on the date the check and the update look at the same entry (`Schedule.BookingMakesSlotUnavailable`, `Schedule.FreeingMakesSlotAvailable`).
* Both the check and the flag update look only at the **first** document of the doctor with a day on the exact date. `createAvailability` always writes a new document, so two calls for one doctor and one date give two documents. A slot that only the second one offers reads as available, because the first has no slot with those times, and the update never marks it (`BookingLogic.UnofferedSlotIsNotMarked`). `Schedule.DoubleBookingAcrossDocuments` books such a slot twice in a row: both bookings answer 201, and the slot stays unbooked. No concurrency is involved.
* `createBooking` marks the slots **before** it saves the booking. A booking that then fails validation, for example a missing patient id, leaves the slot booked with no booking stored. `Schedule.Store.CreateBooking` states it this way.
* Errors thrown as 404 inside `try` are re-wrapped by the `catch` blocks:
  * the availability handlers answer 500;
  * the booking handlers answer 400;
  * `updateAvailability` and `deleteSlot` answer their 404s directly.
* `updateAvailability` throws, which gives 500, on a day entry whose date is found but which has no `slots` list. Day entries before it have already been applied in memory, but nothing is saved (`AvailabilityLogic.AbortIsFinal`, `Schedule.Store.UpdateAvailability`).
* No part of the schema makes a doctor's documents, a day's date, or slot times unique or ordered (`AvailabilitySchema.SchemaAdmitsDuplicates`).
* `getAllBookings` is implemented and modelled, but `schedule/scheduleRoutes/bookingRoutes.js:3-26` never routes it.

## Model

| member | source | states |
|---|---|---|
| Common.FindIndex | schedule/scheduleControllers/bookingControllers.js:15-20 | `find`: Some(i) is the first index whose element satisfies the predicate. None means no element does. |
| Common.Filter | schedule/scheduleControllers/doctorAvailabilityControllers.js:167-169 | `filter`: the result is no longer than the input. Everything kept is from the input and satisfies the predicate. Every input element that satisfies it is kept. |
| JsText.TrimStart | openAI/validation.js:6 | The result is a suffix of the input that does not start with whitespace. Everything cut off is whitespace. |
| JsText.TrimEnd | openAI/validation.js:6 | The result is a prefix of the input that does not end with whitespace. Everything cut off is whitespace. |
| JsText.TrimEmptyIffBlank | openAI/validation.js:6 | `s.trim().length === 0` holds exactly when every character of `s` is JavaScript whitespace. |
| AvailabilitySchema.SchemaAdmitsDuplicates | schedule/scheduleModels/DoctorAvailability.js:3-22 | Two valid documents can exist together with: the same doctor, one day date twice in a document, and a slot whose end comes before its start. |
| BookingSchema.ParseStatus | schedule/scheduleModels/Booking.js:20-24 | A status string is accepted exactly when it is `pending`, `confirmed` or `cancelled`. The accepted value names that string. |
| BookingSchema.StatusRoundTrip | schedule/scheduleModels/Booking.js:20-24 | Every booking status reads back as itself. |
| MessageSchema.ParseStatus | message/models/Message.js:18-22 | A status string is accepted exactly when it is `pending`, `read` or `resolved`. The accepted value names that string. |
| MessageSchema.StatusRoundTrip | message/models/Message.js:18-22 | Every message status reads back as itself. |
| MessageSchema.EmailPatternUnanchored | message/models/Message.js:12 | The e-mail pattern is unanchored: text around a matching string does not stop it matching. |
| MessageSchema.EmailPatternSamples | message/models/Message.js:12 | `a@b.c` and `write to a@b.c now` match the pattern. `a@b` and `a @b.c` do not. |
| AvailabilityLogic.FreshSlots | schedule/scheduleControllers/doctorAvailabilityControllers.js:20-24 | The input slots in order, with consecutive fresh ids and their times copied. None is booked, whatever the input said. |
| AvailabilityLogic.NewAvailability | schedule/scheduleControllers/doctorAvailabilityControllers.js:15-27 | The new document has the doctor and exactly one day on the date. That day holds the input slots in order, none booked. |
| AvailabilityLogic.NewAvailabilityValid | schedule/scheduleControllers/doctorAvailabilityControllers.js:15-30 | The new document passes validation exactly when the doctor is given and every input slot has both times. |
| AvailabilityLogic.WithoutSlotRemovesExactly | schedule/scheduleControllers/doctorAvailabilityControllers.js:164-173 | No slot with the id survives, and every slot with another id stays in its day. |
| AvailabilityLogic.WithoutAbsentSlot | schedule/scheduleControllers/doctorAvailabilityControllers.js:164-179 | Removing an id no slot has leaves the days unchanged. |
| AvailabilityLogic.WithoutSlotPreservesValid | schedule/scheduleControllers/doctorAvailabilityControllers.js:176-177 | Removing slots keeps a document valid, so the save after `deleteSlot` cannot fail validation. |
| AvailabilityLogic.ApplySlotUpdate | schedule/scheduleControllers/doctorAvailabilityControllers.js:88-107 | Only the first slot with the incoming id is overwritten. `isBooked` changes only when supplied. The flag becomes true exactly when such a slot exists. |
| AvailabilityLogic.UpdateSlots | schedule/scheduleControllers/doctorAvailabilityControllers.js:88-108 | The inner `forEach` over the incoming slots, assigning the found slot's fields in place and setting `updated`, computes `ApplySlotUpdates`. |
| AvailabilityLogic.UpdateDays | schedule/scheduleControllers/doctorAvailabilityControllers.js:77-112 | The nested `forEach` loops, with the in-place `updated` flag, compute `ApplyDayUpdates`. |
| AvailabilityLogic.AbortIsFinal | schedule/scheduleControllers/doctorAvailabilityControllers.js:80-88 | Once an entry throws, later entries cannot undo it. The whole loop throws. |
| AvailabilityLogic.SlotUpdateEffect | schedule/scheduleControllers/doctorAvailabilityControllers.js:89-104 | One incoming slot keeps every slot id in place. It sets the flag exactly when its id is found, and otherwise changes nothing. |
| AvailabilityLogic.SlotUpdatesEffect | schedule/scheduleControllers/doctorAvailabilityControllers.js:88-108 | The slot loop keeps every slot id in place. It sets the flag exactly when some incoming id is found. When none is found, the slots are unchanged. |
| AvailabilityLogic.DayUpdateEffect | schedule/scheduleControllers/doctorAvailabilityControllers.js:82-111 | One incoming day keeps the layout of dates and slot ids. It throws exactly when its date is found and it has no slots. It sets the flag exactly when it reaches a slot. When it reaches none, nothing changes. |
| AvailabilityLogic.UpdateOutcomeSpec | schedule/scheduleControllers/doctorAvailabilityControllers.js:77-124 | The loop throws exactly when some entry would throw. Otherwise the layout is kept, `updated` holds exactly when some entry reaches a slot, and with `updated` false the days are unchanged. |
| BookingLogic.NoDocumentIsUnavailable | schedule/scheduleControllers/bookingControllers.js:8-28 | With no document of the doctor having a day exactly on the date, the check answers false. |
| BookingLogic.CheckedSlotDecides | schedule/scheduleControllers/bookingControllers.js:13-26 | Take the found document and its first calendar-day entry. With no slot having both times there, the check is true. Otherwise it is true exactly when the first such slot is free. |
| BookingLogic.MarkSlots | schedule/scheduleControllers/bookingControllers.js:58-70 | Ids, doctors, dates and slot counts are kept. A slot's flag becomes the new value exactly when the slot lies in the first matching document's first exact-date day and has both times. No other field changes. With no matching document nothing changes. |
| BookingLogic.UnofferedSlotIsNotMarked | schedule/scheduleControllers/bookingControllers.js:58-70 | When the day the update addresses has no slot with the times, the update changes nothing, even if a later document of the doctor on that date has such a slot. |
| BookingLogic.MarkSlotsKeepsExactMatches | schedule/scheduleControllers/bookingControllers.js:58-70 | Every search of the update (document, exact day, slot times) gives the same answers on each element before and after the update. |
| BookingLogic.MarkSlotsKeepsMatches | schedule/scheduleControllers/bookingControllers.js:58-70 | Every search of the check and of the update gives the same answers on each element before and after the update. |
| BookingLogic.BookedSlotReadsUnavailable | schedule/scheduleControllers/bookingControllers.js:6-70 | After the update that books a slot, the check reads that slot as unavailable. This needs the slot to exist and its day to be the first day of that calendar day. |
| BookingLogic.ReleasedSlotReadsAvailable | schedule/scheduleControllers/bookingControllers.js:173-191 | After the update that frees the slots, the check answers true, when the targeted day is the first day of its calendar day. |
| BookingLogic.CreateThenDeleteFrees | schedule/scheduleControllers/bookingControllers.js:37-191 | Take a slot that reads as available. Booking it and then freeing it with the same doctor, date and times leaves it reading as available. |
| BookingLogic.CalendarDayShadowsBooking | schedule/scheduleControllers/bookingControllers.js:8-70 | In one concrete document with two day entries the check inspects a different day than the update books. The slot reads as available before and after, although the update booked it. |
| BookingLogic.MarkSlotsPreservesValid | schedule/scheduleControllers/bookingControllers.js:58-70 | The flag update keeps every document valid. |
| Schedule.Store.CreateAvailability | schedule/scheduleControllers/doctorAvailabilityControllers.js:5-42 | A missing doctor, date or slots, or an empty slot list, gives 400 and stores nothing. A document that fails validation gives 500 and stores nothing. Otherwise exactly the new document is appended (201), and the existing ones stay as they were. |
| Schedule.Store.GetAvailabilityByDoctor | schedule/scheduleControllers/doctorAvailabilityControllers.js:45-61 | Succeeds (200) exactly when some document is the doctor's, returning the `filter` of the doctor's documents. Otherwise 500 "No availability found for this doctor". |
| Schedule.Store.UpdateAvailability | schedule/scheduleControllers/doctorAvailabilityControllers.js:65-129 | Unknown id: 404 and no change. A throw, or a result failing validation: 500 and no change. No slot reached: 400 and no change. Otherwise the document's days are replaced by the loop's result (200). |
| Schedule.Store.DeleteAvailability | schedule/scheduleControllers/doctorAvailabilityControllers.js:132-148 | Unknown id: 500 "Availability not found" and no change. Otherwise exactly the document with that id is removed (200), and the others are kept in order. |
| Schedule.RemovalKeepsOthers | schedule/scheduleControllers/doctorAvailabilityControllers.js:137 | With distinct ids, cutting out the first document with an id removes exactly the documents with that id. |
| Schedule.RemovalKeepsValid | schedule/scheduleControllers/doctorAvailabilityControllers.js:137 | Removing a document keeps the collection valid: every document passes validation and holds one day, and ids stay distinct. |
| Schedule.Store.DeleteSlot | schedule/scheduleControllers/doctorAvailabilityControllers.js:151-183 | Unknown document: 404 and no change. Otherwise the document's days become `WithoutSlot` of them (200), even when no slot had the id. |
| Schedule.Store.CreateBooking | schedule/scheduleControllers/bookingControllers.js:32-77 | No slot: 400. A slot that does not read as available: 400 and no change. Otherwise the slots are marked booked, then the pending booking is stored under a fresh id (201). If it fails validation the answer is 400, no booking is stored, and the slots stay marked. When the addressed day holds a slot with the times, that slot then reads as unavailable. |
| Schedule.Store.BookSlots | schedule/scheduleControllers/bookingControllers.js:57-70 | The documents become the flag update's result, the bookings and the counter stay. When the addressed day holds a slot with the times, it then reads as unavailable. |
| Schedule.Store.StoreBooking | schedule/scheduleControllers/bookingControllers.js:72 | A validated booking is stored under the next id, which was unused, and the counter advances. Nothing else changes. |
| Schedule.Store.UpdateBookingStatus | schedule/scheduleControllers/bookingControllers.js:80-103 | A status outside the enum: 400 before any lookup. Unknown id: 400 "Booking not found". Otherwise only that booking's status changes (200), and availability is untouched. |
| Schedule.Store.GetBookingsByDoctor | schedule/scheduleControllers/bookingControllers.js:106-122 | Exactly the bookings of the doctor (200). With none, 400 "No bookings found for this doctor". |
| Schedule.Store.GetBookingsByPatient | schedule/scheduleControllers/bookingControllers.js:125-141 | Exactly the bookings of the patient (200). With none, 400 "No bookings found for this patient". |
| Schedule.Store.GetAllBookings | schedule/scheduleControllers/bookingControllers.js:144-160 | All bookings (200). With none, 400 "No bookings found". |
| Schedule.Store.DeleteBooking | schedule/scheduleControllers/bookingControllers.js:163-197 | Unknown id: 400 and no change. Otherwise the booking is removed, and the slots matching its stored doctor, date and times are freed (204). |
| Schedule.MarkSlotsKeepsValidDocs | schedule/scheduleControllers/bookingControllers.js:58-70 | The slot-flag update keeps the collection valid: every document passes validation and holds one day, and ids stay distinct. |
| Schedule.CreateThenDelete | schedule/scheduleControllers/bookingControllers.js:32-197 | After a successful create and the delete of that booking, the delete answers 204 and the slot reads as available again. When the create fails, no delete runs. |
| Schedule.BookingMakesSlotUnavailable | schedule/scheduleControllers/bookingControllers.js:6-70 | In a valid store, once the update has booked a slot that exists in the addressed day (the one day of the first document of the doctor on the date), the check reads it as unavailable. No calendar-day assumption is needed, because every stored document has one day. A slot only a later document offers is not covered. |
| Schedule.FreeingMakesSlotAvailable | schedule/scheduleControllers/bookingControllers.js:6-29 | In a valid store in which some document of the doctor is on the date, the check reads the slot as available once the update has freed it. |
| Schedule.TwoDocFacts | schedule/scheduleControllers/bookingControllers.js:6-70 | With two documents of one doctor on one date, a slot only the second offers reads as available, and the update does not address it. |
| Schedule.TwoDocStore | schedule/scheduleControllers/doctorAvailabilityControllers.js:5-42 | Two creations for one doctor and date in an empty store leave exactly two documents. |
| Schedule.DoubleBookingAcrossDocuments | schedule/scheduleControllers/bookingControllers.js:32-77 | Two bookings in a row of the slot only the second document offers both answer 201. They store the same slot, and the slot stays unbooked. |
| Schedule.SingleSlotFacts | schedule/scheduleControllers/bookingControllers.js:6-70 | With one document holding one free 09:00-09:30 slot, the slot reads as available, as unavailable once booked, and as available once freed. |
| Schedule.SingleSlotStore | schedule/scheduleControllers/doctorAvailabilityControllers.js:5-42 | Creating that availability in an empty store answers 201 and leaves exactly that document. |
| Schedule.BookedSingleSlot | schedule/scheduleControllers/bookingControllers.js:32-77 | Booking that slot answers 201, stores the pending booking, and marks the slot. |
| Schedule.BookingScenario | schedule/scheduleControllers/bookingControllers.js:32-197 | With one doctor, one day and one slot: the first booking is 201 and pending. The identical second one is 400 "Slot is already booked or unavailable". The delete is 204, after which the booking succeeds again. |
| MessageController.Inbox.CreateMessage | message/controllers/messageController.js:4-26 | A missing name, e-mail or text gives 400 and stores nothing. An e-mail not matching the pattern gives 500 and stores nothing. Otherwise exactly a new pending message without a response is stored (201). |
| MessageController.Inbox.GetAllMessages | message/controllers/messageController.js:29-48 | All messages (200), or 404 exactly when the inbox is empty. |
| MessageController.Inbox.GetMessageById | message/controllers/messageController.js:51-68 | The stored message (200) exactly when the id is given and known. Otherwise 404. |
| MessageController.Inbox.ReplyToMessage | message/controllers/messageController.js:71-104 | An empty response gives 400 before any lookup. An absent or unknown id gives 404. Otherwise only that message changes: it gets the response, the reply time and `resolved` (200). |
| MessageController.Inbox.UpdateMessageStatus | message/controllers/messageController.js:107-136 | A status outside the enum gives 400 before any lookup. An absent or unknown id gives 404. Otherwise only that message's status changes (200). |
| MessageController.Inbox.DeleteMessage | message/controllers/messageController.js:139-164 | An absent id gives 400. An unknown id gives 404. Otherwise exactly that message is removed and returned (200). |
| MessageController.InboxScenario | message/controllers/messageController.js:4-164 | A message is received as pending without a response, and reads back that way (200), then answered (resolved, with response and date). Setting it back to pending keeps the reply. It is deleted, and after that it is not found (404). |
| ReportValidation.ValidateReportData | openAI/validation.js:2-16 | Valid exactly when the value is a string with a non-whitespace character. A valid result has message `""`. Every invalid result (falsy, non-string, blank) carries "Report data must be a non-empty string". |

## Left out

- Persistence, `async`/`await` and the network are left out. Each call to the store is an atomic update of the class fields. The race between `checkSlotAvailability` and the flag update in `createBooking` is concurrency, and the model is sequential. This race is one way to book a slot twice; the sequential one through a second document is modelled (`Schedule.DoubleBookingAcrossDocuments`).
- Response bodies, success messages and console logging are left out. A reply carries the status code, the error message and, where the handler returns data, the value.
- `.populate(...)` joins in the booking queries are left out. The model returns the stored bookings without the joined names and e-mails.
- Booking query results are keyed maps, not arrays. The order `find()` returns them in is not modelled.
- Parsing of dates from request strings, Invalid Date, and time zones are left out. Operations receive a `Date`. `toDateString()` and `toISOString()` are the parameters `dayOf` and `iso`.
- Casting of request ids to ObjectIds is left out, and so is the CastError (500 or 400) that a malformed id raises. Ids are natural numbers, and a slot id that does not name any slot is an id no slot has.
- Request fields of the wrong JSON type are left out: a non-array `slots` list, a non-boolean `isBooked`, or a non-string name. Fields are strings, and "" stands for a missing or empty one.
- The `createdAt`/`updatedAt` timestamps are left out.
- The clock behind `responseDate: new Date()` is the parameter `now`.
- Schedule.Store.CreateAvailability: the 500 message stands for the store's validation error text with the fixed prefix "DoctorAvailability validation failed". The field-by-field detail Mongoose appends is not modelled.
- Schedule.Store.CreateBooking: the 400 after a failed validation carries "Booking validation failed" instead of Mongoose's full validation message. The 400 for a missing slot carries the V8 TypeError text.
- Schedule.Store.UpdateAvailability: a missing `availability` list and a throw inside the loop are both modelled as 500 "Internal server error". A failed save is modelled as validation of the changed document only.
- BookingLogic.BookedSlotReadsUnavailable: on arbitrary documents it requires the booked day to be the first of its calendar day, because without that the source does not keep the promise. `BookingLogic.CalendarDayShadowsBooking` exhibits a two-day document that breaks it. On the one-day documents a valid store holds, `Schedule.BookingMakesSlotUnavailable` states the promise without that assumption.
- Schedule.Store.CreateBooking, Schedule.Store.BookSlots, Schedule.BookingMakesSlotUnavailable: the promise that a booked slot then reads as unavailable holds only for a slot in the first document of the doctor with that exact date, because the source's check and update look at no other. A slot offered only by a later document is never marked and can be booked again and again (`Schedule.DoubleBookingAcrossDocuments`).
- MessageController.Inbox.ReplyToMessage, MessageController.Inbox.UpdateMessageStatus, Schedule.Store.CreateBooking: an absent id (`None`) or an absent doctor id ("") is modelled as matching no document. Mongoose drops a filter key whose value is `undefined`, so `findByIdAndUpdate(undefined, …)` and a `findOne`/`updateOne` without `doctorId` may match some other document (an arbitrary message, or another doctor's document on that date). That behaviour depends on the Mongoose version and is not modelled.
- ReportValidation.ValidateReportData: numbers are integers (only zero versus non-zero matters to truthiness), and NaN is a separate value. Floating point is not modelled.
- The authentication middleware, the other controllers, report analysis, PDF handling and server wiring are not part of this model.
