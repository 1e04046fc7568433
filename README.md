# Slot and availability engine of the scheduling system

This Dafny project models the server-side core of a salon scheduling system. It covers five things:

- **Slot generation.** A professional's weekly business hours are expanded into concrete bookable slots for one date, stepping through each opening window by the service's duration.
- **The availability store.** This covers the listing of unbooked slots, single-slot insert, delete and "book", and the wholesale replacement of a professional's week.
- **Phone verification.** A code is attached to every booking of a phone, then checked against the newest booking and cleared on success.
- **The booking route.** It refuses a request when the professional already has a non-cancelled booking at exactly the same instant, and otherwise inserts a pending booking.
- **The payment webhook.** It confirms a paid booking.

The database is an in-memory `Storage.Store`. This is a class whose slot, hours and booking tables are sequence fields that its methods replace. Each table has an identity counter.

Every method is proved against a function on table values:

- `SlotTable` states the slot table's functions and their properties.
- `HoursTable` does the same for the business-hours table.
- `BookingTable` does the same for the bookings table.
- `Generation` states what generation stages.
- `Clock` covers "HH:MM" reading and the cursor that walks a window.

The read-only queries (`getAvailableSlots`, `getBusinessHours`, the bookings-by-professional select) are modelled only as these functions.

Modelling choices:

- **Time.** Time is integer milliseconds. The date a caller passes is a `CalendarDay`: its local midnight and its weekday, both given by the caller.
- **"HH:MM" text.** "HH:MM" is `hours * 60 + minutes` minutes past that midnight. There is no range check, as with `setHours`, which rolls over.
- **Unreadable times.** A time that does not read as two numbers makes the source's dates invalid. No slot comes from such a row.
- **Random code.** The code generator's random code is a parameter.
- **Clock.** The current time is a parameter `now`.

Behaviour of the code worth knowing:

- **Slot count.** A window of L minutes yields ceil(L/D) slots for a service of D minutes (`server/storage.ts:493`). The loop keeps stepping while the cursor is before closing, so the last slot may end after closing. `Clock.CandidateCount` and `Clock.LastSlotMayRunPastClosing` state this.
- **Duplicate check.** The duplicate check during generation queries only the stored table, not the list staged in the same call. Two overlapping hours rows for a weekday therefore stage the same instant twice (`Generation.OverlappingRowsStageTwice`).
- **Saving the week is not atomic.** `createOrUpdateBusinessHours` deletes the professional's rows and then inserts the new list, with no transaction (`server/storage.ts:451-461`). The start and end columns are `varchar(5)` (`shared/schema.ts:107-108`). A time longer than five characters, such as "09:00:00", makes the insert fail after the delete has taken effect, and the professional is left with no hours (`HoursTable.SecondsInTimeClearWeek`). Text that is too long only because of trailing spaces is cut to five characters, as PostgreSQL does for character columns.
- **Client-supplied columns.** The booking route spreads the request body into the new row and then overrides only the date and the three status fields (`server/routes.ts:222-228`). A `verificationCode` sent by the client is stored as sent. The row has no expiry, so such a code is never accepted (`Routes.ClientCodeNotAccepted`).
- **The web booking form.** The form sends a `slotId` and no `bookingDate` (`client/src/pages/BookingPage.tsx:164-173`). The route never reads `slotId` and never calls `bookSlot`. Such a request meets no conflict and then fails at the insert (`Routes.RequestWithoutDateFails`). No slot is ever marked booked by the booking path.

## Model

| member | source | states |
|---|---|---|
| `Sorting.SortBy` | server/storage.ts:380-384 | the result is ordered by the key and is a permutation of the input (same multiset, same length) |
| `Clock.BeforeColon` | server/storage.ts:484-485 | the text before the first colon: a prefix of the field without a colon, followed by a colon unless it is the whole field |
| `Clock.DecimalValue` | server/storage.ts:484-485 | a field reads as a number iff every character is a decimal digit; the empty field reads as 0 |
| `Clock.ParseClock` | server/storage.ts:484-485 | `split(':').map(Number)` on "HH:MM": a time is read iff there is a ':' and both the field before it and the field after it read as numbers; none without a ':'; never negative |
| `Clock.Candidates` | server/storage.ts:493 | the cursor positions of the loop: from the opening time, one step apart, while before the closing time (properties in the lemmas below) |
| `Clock.ParseFormatRoundTrip` | server/storage.ts:484-488 | an "HH:MM" time the owner's form writes reads back as hours * 60 + minutes |
| `Clock.WindowOf` | server/storage.ts:484-491 | a row has a window iff both its times read; the window runs from midnight + start minutes to midnight + end minutes |
| `Clock.CandidateAt` | server/storage.ts:493 | the k-th cursor position is exactly k service durations after the opening time |
| `Clock.CandidatesInWindow` | server/storage.ts:493 | every candidate start t satisfies opening <= t < closing |
| `Clock.CandidateCount` | server/storage.ts:493 | a window of length L yields n candidates with (n-1)*step < L <= n*step (ceil(L/step)); an empty or inverted window yields none |
| `Clock.ThreeHourMorning` | server/storage.ts:487-493 | 09:00-12:00 with a 60-minute service gives 09:00, 10:00, 11:00 |
| `Clock.LastSlotMayRunPastClosing` | server/storage.ts:493 | 09:00-10:00 with a 45-minute service gives 09:00 and 09:45, the second ending after closing |
| `SlotTable.MatchingSlots` | server/storage.ts:364-378 | the WHERE clause: a slot is selected iff it is of the professional and service, unbooked and within the day when one is given, with its multiplicity |
| `SlotTable.AvailableSlots` | server/storage.ts:363-385 | exactly the unbooked slots of (professional, service), within [midnight, midnight + 23:59:59.999] when a day is given, each with its multiplicity, sorted by slot time |
| `SlotTable.MarkBooked` | server/storage.ts:396-401 | same rows in the same order; only the row with this id becomes booked, and no other field changes |
| `SlotTable.WithoutSlot` | server/storage.ts:392-394 | a row remains iff it was there and its id differs; id order is kept |
| `SlotTable.AppendKeepsOrder` | server/storage.ts:387-390 | appending rows numbered from the counter keeps ids increasing and below the new counter |
| `SlotTable.BookedSlotNotListed` | server/storage.ts:363-401 | after bookSlot(id) the availability query never returns slot id |
| `SlotTable.BookingKeepsOtherListings` | server/storage.ts:363-401 | bookSlot(id) changes the listing of no other slot |
| `HoursTable.RowsOf` | server/storage.ts:443-449 | a row is selected iff it is in the table and belongs to the professional |
| `HoursTable.RowsNotOf` | server/storage.ts:452-453 | the delete keeps exactly the other professionals' rows, in id order |
| `HoursTable.ActiveRowsFor` | server/storage.ts:464-474 | a row is selected iff it belongs to the professional, is for the date's weekday and is active |
| `HoursTable.NewRows` | server/storage.ts:455-460 | one stored row per submitted entry, in order, carrying the professional and fresh ids |
| `Records.ColumnText` | shared/schema.ts:65-77 | text in a varchar(n) column: stored iff it fits or its excess is all spaces, then as a prefix of at most n characters; text that fits is stored unchanged |
| `HoursTable.StoredEntries` | server/storage.ts:455-460 | the multi-row insert stores every entry with its times as the columns keep them, and fails iff some entry's time does not fit |
| `HoursTable.ShortTimesStoredAsSent` | server/storage.ts:455-460 | times of at most five characters are stored exactly as submitted |
| `HoursTable.ReplaceHours` | server/storage.ts:451-461 | replacing the week keeps ids increasing and below the advanced counter |
| `HoursTable.SavedHours` | server/storage.ts:451-461 | the delete always takes effect and the insert only when it succeeds; ids stay increasing and below the counter, advanced only on success |
| `HoursTable.BusinessHoursOf` | server/storage.ts:443-449 | exactly the professional's rows (as a multiset), ordered by weekday |
| `HoursTable.Inputs` | server/storage.ts:455-460 | the owner-visible fields of each stored row, index by index |
| `HoursTable.RowsOfRowsNotOf` | server/storage.ts:451-453 | after the delete the professional has no rows and every other professional's rows are unchanged |
| `HoursTable.RowsOfNewRows` | server/storage.ts:455-460 | the inserted rows all belong to the professional being saved |
| `HoursTable.InputsOfNewRows` | server/storage.ts:456-460 | the inserted rows carry exactly the submitted entries, in order |
| `HoursTable.ReplaceHoursSetsRows` | server/storage.ts:451-461 | afterwards the professional's rows are exactly the submitted entries, in order, carrying the professional |
| `HoursTable.ReplaceHoursKeepsOthers` | server/storage.ts:451-461 | every other professional's rows are unchanged |
| `HoursTable.WeekReadsBack` | server/storage.ts:443-461 | reading the week back returns the rows just stored (same multiset), and an entry is read back iff it was submitted, whatever was stored before |
| `HoursTable.FailedSaveClearsWeek` | server/storage.ts:451-461 | when the insert fails the professional has no rows left and every other professional keeps theirs |
| `HoursTable.SecondsInTimeClearWeek` | server/storage.ts:451-461 | saving a week whose start time is "09:00:00" leaves the professional with no hours |
| `Generation.FreshTimes` | server/storage.ts:497-515 | the existence check on each candidate: the candidates, in order, that no stored slot of (professional, service) holds |
| `Generation.RowCandidates` | server/storage.ts:484-493 | the cursor positions of one row's window on the date; none when a time does not read |
| `Generation.StagedForRows` | server/storage.ts:483-517 | the staged list: each row's new candidates appended row after row |
| `Generation.StagedTimes` | server/storage.ts:463-517 | the instants generation inserts: nothing without an active row for the weekday or for an unknown service, otherwise the active rows' new candidates |
| `Generation.FreshTimesMembers` | server/storage.ts:497-515 | an instant is staged iff it is a candidate and no stored slot of (professional, service) holds it |
| `Generation.CursorStep` | server/storage.ts:493-515 | one loop step stages the cursor's instant iff it is new, then advances the cursor by one duration |
| `Generation.NewSlots` | server/storage.ts:509-521 | the inserted rows are the staged instants in order, each with the professional, the service, isBooked false and consecutive ids |
| `Generation.StagedForRowsMembers` | server/storage.ts:483-517 | the instants staged over several rows are exactly the new instants some row offers |
| `Generation.StagedTimesMembers` | server/storage.ts:463-517 | t is staged iff the service exists, an active row of the weekday offers t, and no slot of (professional, service) is stored at t |
| `Generation.ClosedDayGeneratesNothing` | server/storage.ts:464-476 | without an active row for the weekday nothing is generated |
| `Generation.UnknownServiceGeneratesNothing` | server/storage.ts:478-479 | an unknown service generates nothing |
| `Generation.StagedAreNew` | server/storage.ts:497-515 | no staged instant duplicates a stored (professional, service, instant) |
| `Generation.StagedOnGrid` | server/storage.ts:483-515 | each staged instant lies k durations after an active row's opening time and before its closing time |
| `Generation.AllStoredStagesNothing` | server/storage.ts:497-515 | candidates that are all stored stage nothing |
| `Generation.NoneStoredStagesAll` | server/storage.ts:497-515 | candidates none of which is stored are all staged, in order |
| `Generation.OfferedAreStoredAfterInsert` | server/storage.ts:483-521 | after the insert every instant the day's rows offer is stored |
| `Generation.GenerationIdempotent` | server/storage.ts:463-525 | a second identical call after the insert stages nothing |
| `Generation.FreshStoreStagesWholeWindow` | server/storage.ts:483-516 | one active row and no stored slots: every cursor position of the window is staged, in order |
| `Generation.OverlappingRowsStageTwice` | server/storage.ts:497-515 | rows 09:00-10:00 and 09:30-10:30 with a 30-minute service stage 09:30 twice |
| `BookingTable.BookingsOf` | server/storage.ts:304-308 | the WHERE clause: a booking is selected iff it is in the table and belongs to the professional |
| `BookingTable.ProfessionalBookings` | server/storage.ts:304-310 | the professional's bookings, each as often as stored, latest booking date first |
| `BookingTable.ConflictVerdictOrderFree` | server/routes.ts:231-236 | whether the scan finds a conflict does not depend on the order of the scanned list |
| `BookingTable.FindConflict` | server/routes.ts:231-236 | the first booking of the list at exactly the requested instant and not cancelled; none iff no booking blocks; never blocks an unreadable date |
| `BookingTable.ScanFindsConflict` | server/routes.ts:231-240 | the route's scan finds a conflict iff the professional has a non-cancelled booking at that instant |
| `BookingTable.NonBlockingAddition` | server/routes.ts:231-236 | adding a cancelled booking, another professional's booking or one at another instant never changes the conflict verdict |
| `BookingTable.AcceptedBlocksSameInstant` | server/routes.ts:231-242 | a pending booking at t blocks every later request of that professional for t |
| `BookingTable.CodeAccepted` | server/storage.ts:419-431 | the check: the newest booking for the phone holds this code and an expiry strictly after now |
| `BookingTable.AppendedIsNewest` | server/storage.ts:419-426 | a row inserted with a creation time no earlier than any stored row is the newest booking for its phone |
| `BookingTable.NewestFor` | server/storage.ts:419-426 | the newest booking for the phone: it has the phone, no booking for the phone is newer, none iff the phone has no booking |
| `BookingTable.WithCode` | server/storage.ts:403-416 | every booking for the phone gets the code and expiry; all other rows unchanged |
| `BookingTable.MarkPhoneVerified` | server/storage.ts:431-435 | every booking for the phone becomes verified with code and expiry cleared; all other rows unchanged |
| `BookingTable.ConfirmPaid` | server/storage.ts:316-323 | only the booking with that id becomes paid and confirmed |
| `BookingTable.NewestUnchanged` | server/storage.ts:403-440 | setting or clearing codes does not change which booking is newest for a phone |
| `BookingTable.FreshCodeAccepted` | server/storage.ts:403-440 | a code just sent to a phone with bookings is accepted iff now is before send time + 10 minutes |
| `BookingTable.CodeSingleUse` | server/storage.ts:431-436 | after a successful check the same code is refused at any later time |
| `BookingTable.WrongCodeRefused` | server/storage.ts:431 | a code other than the stored one is refused |
| `Storage.Store.StageRow` | server/storage.ts:484-516 | the cursor loop over one row stages exactly that row's new candidates, appended in order |
| `Storage.Store.StageRows` | server/storage.ts:484-517 | the loop over the active rows stages each row's new candidates, row after row, the same sequence as the staging function |
| `Storage.Store.StageDay` | server/storage.ts:464-517 | nothing is staged without an active row for the weekday or for an unknown service; otherwise the rows' new candidates |
| `Storage.Store.GenerateSlotsFromBusinessHours` | server/storage.ts:463-525 | returns and appends exactly the new slots of the staged instants, advances the id counter by their number, keeps the id order |
| `Storage.Store.CreateAvailableSlot` | server/storage.ts:387-390 | appends one row with the next id and returns it |
| `Storage.Store.DeleteAvailableSlot` | server/storage.ts:392-394 | the slot table becomes the table without that id |
| `Storage.Store.BookSlot` | server/storage.ts:396-401 | the slot table becomes the table with that id booked |
| `Storage.Store.CreateOrUpdateBusinessHours` | server/storage.ts:451-461 | the delete, then the insert: the hours table becomes `SavedHours` of the old one, which holds the submitted rows only when they fit their columns; says whether they were stored and advances the counter only then |
| `Storage.Store.GenerateVerificationCode` | server/storage.ts:403-416 | returns the code; the bookings for the phone carry it with expiry now + 10 minutes |
| `Storage.Store.VerifyPhoneCode` | server/storage.ts:418-440 | answers whether the newest booking for the phone holds the unexpired code; marks the phone's bookings verified on true, changes nothing on false |
| `Storage.Store.CreateBooking` | server/storage.ts:201-204 | appends the row with the next id and returns it |
| `Storage.Store.UpdateBookingPaid` | server/storage.ts:316-323 | the bookings table becomes the table with that booking paid and confirmed |
| `Routes.InsertedRow` | server/routes.ts:222-228 | the row the insert stores: the request's columns with the date read, the phone, name and code as their varchar columns keep them, status pending, payment pending and phone not verified |
| `Routes.BookingResponse` | server/routes.ts:220-248 | refused iff a blocking booking exists; created iff not refused, date, phone and amount are present and phone, name and code fit their varchar(20), varchar(255) and varchar(6) columns; the new row is pending, unpaid, unverified, with the request's professional, service and instant, phone, name and code as the columns store them, and no expiry |
| `Routes.PostBooking` | server/routes.ts:220-248 | answers as `BookingResponse`; the table grows by the created row and the counter by one, and both are unchanged on refusal or failure |
| `Routes.NoDoubleBooking` | server/routes.ts:231-242 | a second request for the same professional and instant after a created one is refused |
| `Routes.NextMinuteNotRefused` | server/routes.ts:233-235 | a booking one minute after an existing one is not refused, although they overlap |
| `Routes.RequestWithoutDateFails` | server/routes.ts:222-243 | a request without a readable date is never refused and always fails at the insert |
| `Routes.ClientCodeNotAccepted` | server/routes.ts:222-243 | a request without conflict and with date, phone and amount is created iff its phone, name and code fit their columns; a code the client sends with it is stored without expiry, so no code is accepted for the stored phone while that booking is its newest |
| `Routes.OverlongPhoneNotCreated` | shared/schema.ts:66 | a 21-character phone does not fit the varchar(20) column, so the booking is not created |
| `Routes.ClientStatusIgnored` | server/routes.ts:222-228 | the client's status, payment status and verified flag do not affect the outcome |
| `Routes.WebhookEffect` | server/routes.ts:451-460 | events other than a succeeded payment, and ids that are missing or zero, leave the table unchanged |
| `Routes.StripeWebhook` | server/routes.ts:447-466 | the bookings table becomes `WebhookEffect` of the old one |
| `Routes.PaymentConfirmsOnlyTarget` | server/routes.ts:451-460 | a succeeded payment marks only the named booking paid and confirmed, with no other field changed |
| `Routes.PaymentKeepsConflicts` | server/routes.ts:451-460 | a webhook event never frees an instant that was blocked |
| `Routes.PaymentRevivesCancelled` | server/routes.ts:451-460 | a payment event for a cancelled booking confirms it, and its instant becomes blocked again |

## Left out

- The user interface (web and mobile screens), authentication and sessions are not modelled. They only drive the API.
- Stripe payment-intent creation and the Stripe client are not modelled. They are external calls.
- Reading the webhook body is not modelled. This covers the event JSON and `parseInt` of the metadata id: the id arrives already parsed, with None for NaN. A `payment_intent.succeeded` event without metadata makes the handler answer 500 and changes nothing; other event types never read the metadata. The response bodies are not modelled.
- The random six-digit code is not modelled. The code is a parameter.
- The owner statistics, the joined bookings-by-user/email/phone projections, and CRUD for professionals, services, categories, gallery, reviews, settings and date overrides are not modelled. The service catalogue is a constant map of the store.
- Real JavaScript `Date` behaviour is not modelled: local time zones, daylight-saving shifts during `setMinutes`, and the representable date range. A date is its midnight and weekday as given. The cursor advances by exactly duration * 60000 ms.
- `updatedAt` and `createdAt` of slots and hours are not modelled. Neither are the email, notes, userId and payment-intent columns of bookings, nor their `updatedAt`, which `updateBooking` sets to the current time (`server/storage.ts:319`). No modelled operation reads them. The foreign-key constraints of `professionalId` and `serviceId` are not checked: the model stores any id.
- Concurrency is not modelled, including the check-then-insert races in generation and booking. Every operation is one sequential step.
- The order of equal keys is not modelled. `AvailableSlots` and `BusinessHoursOf` fix a stable order among equal slot times or weekdays, where SQL leaves it unspecified. Slot generation reads the active rows of a weekday without `ORDER BY` (`server/storage.ts:465-474`); `Generation.StagedTimes` and `Storage.Store.StageDay` take them in table order, so the order of the created slots and of their ids follows that order, which SQL does not promise.
- `Clock.ParseClock` reads only digit strings (the empty field as 0). JavaScript's `Number` also accepts surrounding whitespace, a sign, a fraction, an exponent and hexadecimal. Those forms read as unreadable here, so they give no slots instead of rolled-over or fractional times.
- `BookingTable.ProfessionalBookings` keeps table order among bookings at the same instant, where SQL leaves it unspecified. The route's verdict does not depend on the order (`BookingTable.ConflictVerdictOrderFree`); only which conflicting booking is found first does, and the route does not use it.
- `BookingTable.NewestFor` breaks a tie in `createdAt` toward the later-inserted row. SQL leaves that order unspecified.
- `Storage.Store.CreateOrUpdateBusinessHours` models one way the insert fails: a time too long for its column. Other failures are not modelled, such as a field the client adds that its column rejects (the admin screen re-sends rows it loaded, with their `createdAt`). The counter does not advance on a failed insert. PostgreSQL may consume sequence values anyway, which changes the numbering of later ids but not their order.
- `Storage.Store.GenerateSlotsFromBusinessHours` requires the service's duration to be positive when the weekday has an active row. The source's cursor loop never ends with a zero or negative duration when an active row has a readable window whose start is before its end. When every active row's window is unreadable or empty, the source returns no slots even with such a duration; the model's requires excludes that case too. `Generation.StagedTimes` and `Storage.Store.StageDay` carry the same requires. A closed day needs no duration at all.
- `Routes.BookingResponse` stores the server's clock as `createdAt` and no `codeExpiresAt`. The request body is spread into the row, so a client can send these columns too. A `createdAt` of null would be stored as NULL, and `ORDER BY createdAt DESC` puts NULL first, so that row would stay the phone's newest booking in `verifyPhoneCode`. The model's `createdAt` is always a number.
- `Routes.BookingResponse` treats a missing phone, amount or readable date, and a phone, name or code too long for its column, as a failed insert (500). Other ways the insert can fail are not modelled: a missing professional or service, a bad foreign key, a client field of the wrong type, an amount beyond `decimal(10, 2)`, or a `customerEmail`, `notes` or `paymentIntentId` the client sends (those columns are not part of this model).
