# EduRator booking core in Dafny

EduRator is a Flask and SQLite marketplace. Students book lessons with
teachers. Teachers publish weekly availability blocks, mark single days
free and manage their bookings, and a small ledger keeps user balances.
This project models the logic of `app.py` behind those features, with the
web framework and the database taken out:

- **The time-slot calendar** (`calendar.dfy`, with `text.dfy` for Python's
  `str.strip`, `str.split(' - ')` and digit text):
  - `normalize_time`, with `datetime.strptime(s, '%H:%M')` modelled on
    ASCII text: one- or two-digit fields, hour 0-23, minute 0-59, and the
    whole string must match;
  - `normalize_time_slot`, `format_time_slot` and `get_day_name`;
  - `generate_time_slots` as a loop;
  - the `'%Y-%m-%d'` date check of `set_day_free`.
- **Validators and mappers** (`validators.dfy`):
  - the e-mail pattern of `is_valid_email` as a grammar;
  - `allowed_file`;
  - the role-name/role-id round trip of `role_mapping` and `get_role_name`;
  - Python's `int()` on the day field of `book_teacher`.
- **The booking engine** (`tables.dfy`, `engine.dfy`, `teacher.dfy`,
  `updates.dfy`, `availability.dfy`, `store.dfy`):
  - One `Store` object holds the tables as fields: bookings, availability
    blocks, overrides, pricing, balances and notifications, plus the three
    AUTOINCREMENT counters.
  - Its invariant is the schema's two UNIQUE constraints, increasing ids,
    and the fact that every stored block is available.
  - Each handler is a method. It asks a verdict function what the request
    leads to (a refusal with its reason, or the rows to write). It then
    commits exactly that or nothing, and leaves every other table alone.
  - The loops of the handlers are methods proved against the functions
    that specify them:
    - the two dictionaries `book_teacher` builds;
    - the delete-then-insert loops of `save_teacher_availability` and of
      the calendar form of `edit_pin`.
- **The balance ledger** (`ledger.dfy`): `get_balance`, `deposit`,
  `withdraw`, `update_lesson_payment` and `process_booking_payment`.
  Amounts are exact `real`s.
- **Booking statistics** (`stats.dfy`): the counting loop of
  `get_booking_stats`. Durations are in whole minutes.

The acting user is an explicit `Actor` (id and role name) instead of the
session. The request body is explicit, with a missing key as `None`. Where the source tells an absent key from a JSON null (`notes` of `book_appointment`, `reason` of `update_lesson_status`), the field is an `Option<Option<string>>`: `None` absent, `Some(None)` null.

## Model

| member | source | states |
|---|---|---|
| Calendar.ParseTime | app.py:129 | a parsed time is always a valid clock: hour 0-23, minute 0-59 |
| Calendar.ParseTimeSpells | app.py:129 | `strptime('%H:%M')` yields a clock exactly when the text is a one- or two-digit hour, a colon and a one- or two-digit minute naming that clock, in both directions |
| Calendar.RenderParses | app.py:130 | the zero-padded `HH:MM` of a valid clock parses back to the same clock (round trip) |
| Calendar.NormalizeTimeOfSpelling | app.py:126-132 | every spelling of a valid clock, such as "9:5", normalises to its zero-padded `HH:MM` |
| Calendar.NormalizeTimeUnparsed | app.py:126-132 | text that spells no clock comes back unchanged |
| Calendar.NormalizeTimeIdempotent | app.py:126-132 | normalising a time twice gives the same as once |
| Calendar.NormalizeTimeSlotOfClocks | app.py:144-151 | two clock spellings around " - " normalise to "HH:MM - HH:MM" of the same two clocks |
| Calendar.NormalizeTimeSlotIdempotent | app.py:144-151 | normalising a slot is idempotent unless the normalised first half ends in " -" (the one way a second split can cut differently) |
| Calendar.NormalizeTimeSlotNotIdempotent | app.py:144-151 | that exception is real: "a\t -\t - b" normalises to "a\t - - b", which normalises to "a - - b" |
| Calendar.FormatTimeSlotSplits | app.py:173-174 | a label formatted from two rendered clocks splits back into those two and is already normal |
| Calendar.GenerateTimeSlots | app.py:2562-2582 | the nested loop returns exactly the 24 labels of `DaySlots`, the first "08:00 - 08:30" and the last "19:30 - 20:00" |
| Calendar.DaySlotAt | app.py:2566-2575 | label i runs from hour 8 + i/2, minute 30·(i mod 2), to thirty minutes later, carrying into the next hour at 60, all zero-padded |
| Calendar.DaySlotsEnds | app.py:2562-2582 | the first label is "08:00 - 08:30" and the last "19:30 - 20:00" |
| Calendar.DaySlotsIncreasing | app.py:2562-2582 | the labels are strictly increasing in string order |
| Calendar.DaySlotsShape | app.py:2562-2582 | every label splits into two times, starts at 08:00 + 30·i minutes, is unchanged by `normalize_time_slot` and lasts 30 minutes |
| Calendar.SlotDurationOfClocks | app.py:355-368 | the statistics' duration of a label of two rendered clocks is the minute difference of the clocks |
| Calendar.GetDayName | app.py:168-170 | the Polish name of weekday 0-6, and "Nieznany" exactly for any other number |
| Calendar.ParseDate | app.py:2251-2254 | a date accepted by `strptime('%Y-%m-%d')` exists in the Gregorian calendar |
| Calendar.ParseIsoDate | app.py:2251-2254 | the `YYYY-MM-DD` text of every valid date is accepted and read back as that date |
| Validators.IsValidEmailGrammar | app.py:2556-2559 | the first-'@'/last-'.' scan accepts exactly the pattern's language: local part, '@', domain, '.', two or more letters, and an optional final newline |
| Validators.EmailWitnessesUnique | app.py:2558 | in an address of the pattern, the '@' is the first one and the '.' before the top-level domain is the last one |
| Validators.TrailingNewlineAccepted | app.py:2558-2559 | the pattern's `$` admits one trailing newline: "a@b.pl\n" is valid |
| Validators.ShortTopLevelRefused | app.py:2558-2559 | a one-letter top-level domain is refused: "a@b.c" |
| Validators.AllowedFileExtension | app.py:121-123 | "base.ext" is allowed exactly when the lower-cased text after the last dot is png, jpg, jpeg or gif |
| Validators.AllowedFileNeedsDot | app.py:121-123 | a file name without a dot is never allowed |
| Validators.RoleMapping | app.py:415-421 | the result is a role id, and any id other than user's names the lower-cased input |
| Validators.GetRoleName | app.py:2545-2553 | the result is one of the four role names, and "user" exactly for the ids outside 1-3 |
| Validators.RoleRoundTrip | app.py:415-421 | mapping the name of each role id back gives that id |
| Validators.RoleNameRoundTrip | app.py:2545-2553 | naming the mapped id gives the lower-cased input when it is a role name, and "user" otherwise |
| Validators.RoleMappingCaseInsensitive | app.py:421 | the mapping ignores ASCII case |
| Validators.IntOfGrouped | app.py:2050 | `int()` admits grouping underscores and a sign: "-1_0" is -10 |
| Validators.IntTextGrammar | app.py:2050 | `int()` succeeds exactly when the stripped text is digits grouped by single underscores, after at most one sign |
| Validators.IntTextDigits | app.py:2050 | `int()` of a string of digits is their decimal value |
| Validators.IntTextNegated | app.py:2050 | `int()` of a minus sign and digits is minus their value |
| Validators.IntTextDecimal | app.py:2050 | `int(str(n))` is `n` for the one- and two-digit numbers the handlers print |
| TeacherBooking.CollectBookedSlots | app.py:2029-2036 | the loop over the booking rows builds exactly `BookedSlots` |
| TeacherBooking.BookedSlotsMeaning | app.py:2016-2036 | a (date, slot) pair is booked exactly when some booking of the teacher that is not cancelled or odwolana, dated inside the window, has that date and that normalised slot |
| TeacherBooking.CollectOpenBlocks | app.py:1997-2013 | the loop over the availability rows builds exactly `OpenBlocks` |
| TeacherBooking.OpenBlocksMeaning | app.py:1991-2013 | a block view is listed under a weekday exactly when some available block of the teacher on that weekday renders to it |
| TeacherBooking.TeacherBookingVerdict | app.py:2038-2103 | every outcome in source order as an if-and-only-if: no teacher, a missing field, a non-integer day, a booked slot, no first matching block or a failed mode gate, a UNIQUE conflict, an unsplittable slot, and acceptance when none of these holds. An accepted booking has the normalised slot and the teacher's or the default prices |
| TeacherBooking.BookedSlotRejected | app.py:2059-2061 | a request whose normalised slot matches a live booking of that date is rejected as already booked |
| TeacherBooking.AcceptedNeedsOpenBlock | app.py:2063-2078 | an accepted booking has an available block of the teacher on its weekday with the same normalised slot whose mode admits the lesson mode |
| TeacherBooking.NoOpenBlockRejected | app.py:2063-2078 | with no available block of that weekday matching the normalised slot, the request is rejected |
| TeacherBooking.TeacherModeGateMeaning | app.py:2070-2073 | a both/hybrid block admits exactly "online" and "in_person"; any other block only its own mode |
| TeacherBooking.TeacherGateWithinAppointmentGate | app.py:2070-2073 | apart from hybrid blocks, whatever this gate admits the substring gate of `book_appointment` admits too |
| TeacherBooking.HybridGatesDisagree | app.py:1398 | a hybrid block admits "online" here but not in `book_appointment` |
| TeacherBooking.RebookCancelledTeacherSlot | app.py:2101-2103 | a slot whose key is held by any row, cancelled ones included, is never accepted (the UNIQUE constraint) |
| Engine.SlotBlock | app.py:1382-1391 | finds the first block of the teacher, weekday, start and end of the slot, or proves that none exists |
| Engine.AppointmentVerdict | app.py:1375-1454 | every outcome in source order as an if-and-only-if: missing field, unsplittable slot, no available block, mode, active teacher booking, active student booking, UNIQUE conflict, and acceptance when none of these holds. An accepted booking carries the request, status 'active' and the teacher's or the default prices; its notes are "" for an absent key, NULL for a JSON null, else the text |
| Engine.RebookCancelledSlot | app.py:1402-1413 | the active-only pre-check passes for a cancelled key, but the insert still fails on the UNIQUE constraint |
| Engine.UnavailableMeansNoRow | app.py:1393-1394 | while every stored block is available, "not available" means exactly that no block matches |
| Engine.SubstringModeQuirk | app.py:1398 | the gate is a substring test: lesson mode "line" passes on an "online" block |
| Engine.InsertKeepsInvariants | app.py:2651-2669 | appending a booking whose key is free under the next id keeps the keys unique and the ids increasing |
| Updates.UpdateKeepsInvariants | app.py:2651-2669 | rewriting one row with the same id and key keeps both booking invariants |
| Updates.IdNamesOneRow | app.py:2652 | under increasing ids, one id names at most one row |
| Updates.CancelNotice | app.py:1497-1512 | the teacher is notified unless the teacher cancels, then the student unless the student is the teacher too; never the actor |
| Updates.CancelVerdict | app.py:1463-1518 | a missing id, an id with no active row, and an actor who is not student, teacher or admin of the first active row are refused in that order, each as an if-and-only-if; every other request is accepted and rewrites only that row to 'cancelled' with its notice |
| Updates.CancelNeedsActive | app.py:1479-1484 | a booking that is no longer active cannot be cancelled: it is not found |
| Updates.LessonStatusVerdict | app.py:663-714 | missing fields, unknown booking, outsider and non-Polish status are refused in that order, each as an if-and-only-if; every other request is accepted. It writes the status and, for odwolana, the reason ("" for an absent key, NULL for a JSON null), "" otherwise, and notifies the other party with the actor as sender |
| Updates.LessonStatusOnlyParties | app.py:683-684 | someone who is neither the student nor the teacher is refused |
| Updates.LessonStatusNoGuard | app.py:686-696 | there is no transition guard: a teacher can mark an odwolana lesson przeprowadzona |
| Updates.CrmVerdict | app.py:2470-2510 | non-teachers, bookings the teacher does not own and statuses other than confirmed/cancelled/completed are refused, each as an if-and-only-if; every other request is accepted, changes only the status and notifies the student with the teacher as sender |
| Updates.CrmNoGuard | app.py:2489-2497 | there is no transition guard: a cancelled booking can be set to completed |
| Availability.SaveSpecs | app.py:2397-2409 | the elements all carry the four keys exactly when every insert succeeds, giving one row per element in order |
| Availability.FreshBlockAt | app.py:2398-2409 | the k-th inserted block has id next + k, the element's fields, the teacher and `is_available` 1 |
| Availability.OtherTeachers | app.py:2395 | the DELETE keeps exactly the blocks of other teachers |
| Availability.ReplaceKeepsInvariants | app.py:2395-2409 | replacing a teacher's blocks keeps block ids increasing and every block available |
| Availability.DayFieldName | app.py:1222-1224 | the form fields of weekday d are the prefix followed by the digit d |
| Availability.IndexableBeforeMeaning | app.py:1226-1229 | the loop raises no IndexError exactly when every weekday has at least as many ends and modes as starts |
| Availability.DayRowsSkip | app.py:1231 | an entry with an empty start, end or mode inserts nothing |
| Availability.DayRowsTake | app.py:1231-1236 | a complete entry appends one row with its weekday and fields |
| Availability.DeleteBlockVerdict | app.py:2358-2379 | non-teachers are refused, as is a block id the teacher does not own, each as an if-and-only-if; otherwise exactly that block is removed |
| Availability.OverrideFor | app.py:2258-2263 | finds the teacher's override for the date, or proves there is none |
| Availability.DayFreeVerdict | app.py:2234-2300 | non-teacher, missing date and invalid date are refused, each as an if-and-only-if, and nothing else is. Otherwise it inserts a new override, rewrites the one whose flag differs, or writes nothing, with `is_free` defaulting to "1" |
| Availability.UpsertKeepsInvariants | app.py:2702 | the upsert keeps at most one override per (teacher, date) and the override ids increasing |
| Availability.UpsertTakesEffect | app.py:2264-2287 | afterwards the teacher's override for the date has the requested flag |
| Availability.UpsertIdempotent | app.py:2266-2280 | repeating the same call writes nothing |
| Platform.Store.constructor | app.py:2651-2702 | empty tables with every counter at 1 satisfy the invariant |
| Platform.Store.BookAppointment | app.py:1362-1460 | a refusal changes nothing. Success appends exactly the verdict's booking under the next id and one notification to the teacher from the student. The invariant holds and no other table changes |
| Platform.Store.Insert | app.py:1439-1452 | the two INSERTs and the commit: one booking, one notification, the counter advanced, the invariant kept |
| Platform.Store.BookTeacher | app.py:1958-2106 | builds both dictionaries from the tables, then commits the verdict: nothing on refusal, one booking and one notification to the teacher on success |
| Platform.Store.Commit | app.py:1490-1516 | rewrites one row in place and adds its notice, keeping the invariant |
| Platform.Store.CancelBooking | app.py:1463-1518 | commits the cancel verdict or changes nothing |
| Platform.Store.UpdateLessonStatus | app.py:663-714 | commits the status verdict or changes nothing |
| Platform.Store.UpdateCrmBooking | app.py:2470-2510 | commits the CRM verdict or changes nothing |
| Platform.Store.SaveTeacherAvailability | app.py:2382-2424 | a non-teacher or an element without a key changes nothing. Otherwise the teacher's blocks become one fresh available block per element, and the returned ids are the consecutive new ids |
| Platform.Store.SaveCalendarFromPinForm | app.py:1219-1237 | only the creating teacher's form acts, and an IndexError changes nothing. Otherwise the teacher's blocks become the complete entries of the seven weekdays, in order, under fresh ids |
| Platform.Store.DeleteAvailabilityBlock | app.py:2358-2379 | commits the delete verdict or changes nothing, keeping the invariant |
| Platform.Store.SetDayFree | app.py:2234-2300 | commits the upsert and advances the counter only on insert, keeping one override per (teacher, date) |
| Platform.Store.Deposit | app.py:3182-3205 | commits the deposit verdict and touches only balances |
| Platform.Store.Withdraw | app.py:3208-3235 | commits the withdrawal verdict and touches only balances |
| Platform.Store.UpdateLessonPayment | app.py:3278-3318 | commits the payment verdict and touches only balances |
| Platform.Store.ProcessBookingPayment | app.py:3238-3275 | the corrected debit: refused when the balance is below the price. Otherwise it debits the price and records it on the booking, keeping the invariant |
| Platform.Store.BookingStats | app.py:296-380 | the actor's statistics, as `Tally` defines them |
| Platform.InsertInputs | app.py:2397-2409 | the insert loop succeeds exactly when every element is complete, appends the fresh blocks and collects their consecutive ids |
| Platform.InsertPinForm | app.py:1221-1235 | the seven-day loop succeeds exactly when no weekday raises IndexError, and then appends the fresh blocks of all complete entries in order |
| Platform.InsertDay | app.py:1226-1235 | one weekday's loop succeeds exactly when ends and modes are at least as many as starts, and appends the blocks of its complete entries under consecutive ids |
| Ledger.GetBalance | app.py:3320-3323 | a user without a balance row has balance 0 |
| Ledger.Credit | app.py:3197-3201 | an UPDATE by user id: only an existing row changes, by exactly the amount; no row is created |
| Ledger.Deposit | app.py:3182-3205 | a missing or non-positive amount is the only refusal, as an if-and-only-if. Otherwise the amount is added to the actor's existing row and nothing else changes |
| Ledger.Withdraw | app.py:3208-3235 | non-teachers, invalid amounts and amounts above the balance are refused, each as an if-and-only-if, and every other request is accepted. Then the amount is subtracted |
| Ledger.WithdrawKeepsNonNegative | app.py:3223-3231 | a withdrawal never makes a non-negative ledger negative |
| Ledger.LessonPayment | app.py:3278-3318 | unknown booking is refused exactly. No balance row is ever created |
| Ledger.LessonPaymentTouchesOne | app.py:3293-3313 | nothing changes without a positive amount. A cancel refunds exactly the amount to the student, a completion pays 0.85 of it to the teacher, any other status changes nothing, and no other balance moves |
| Ledger.LessonPaymentNeverDebits | app.py:3296-3313 | no balance ever goes down |
| Ledger.PaymentAsWritten | app.py:3243-3264 | as written: the check compares the balance with the `amount` argument, but the debit is the looked-up price |
| Ledger.PaymentAsWrittenOverdraws | app.py:3243-3264 | balance 50, argument 10, default online price 80: the debit is accepted and leaves -30 |
| Ledger.PaymentChecked | app.py:3238-3275 | corrected: refused exactly when the balance is below the price it debits |
| Ledger.PaymentCheckedKeepsNonNegative | app.py:3238-3275 | the corrected debit never makes a non-negative ledger negative |
| Ledger.RecordAmount | app.py:3266-3271 | writes the price to the bookings with that id and changes no other column or row |
| Ledger.RecordAmountKeepsInvariants | app.py:2651-2669 | recording the amount keeps both booking invariants |
| Ledger.ChargeThenRefund | app.py:3298-3303 | charging a booking and then cancelling its payment gives every balance back exactly |
| Ledger.RefundRepeats | app.py:3298-3303 | the refund is not guarded: cancelling twice refunds the amount twice |
| Stats.BucketOf | app.py:339-372 | a status is counted as scheduled, completed or cancelled exactly when its lower-case form is the English or Polish word for it |
| Stats.SelectRows | app.py:317-331 | teachers see the bookings they teach, everyone else the bookings they take |
| Stats.BookingStatsOf | app.py:334-372 | the counting loop computes exactly `Tally` of the actor's rows |
| Stats.TallyConsistent | app.py:334-372 | the total is the number of rows, each list is as long as its count, and the three counts add up to at most the total |
| Stats.CompletedListMeaning | app.py:342-343 | a booking is listed as completed exactly when it is one of the rows in the completed bucket |
| Stats.CancelledListMeaning | app.py:344-345 | a booking is listed as cancelled exactly when it is one of the rows in the cancelled bucket |
| Stats.TallyLists | app.py:338-345 | the completed and cancelled lists are the selected rows of those buckets, in table order and with their multiplicity |
| Stats.TallyCounts | app.py:346-372 | `scheduled`, `completed` and `cancelled` are the numbers of selected rows in each bucket |
| Stats.TallyMinutes | app.py:349-369 | the minutes are the slot lengths of the completed rows, added up, a row whose slot does not parse adding nothing |
| Stats.ActiveUnbucketed | app.py:348-372 | the default status 'active' falls into no bucket |
| Stats.CaseInsensitiveBuckets | app.py:339 | statuses are lowered first: "Odwolana" counts as cancelled |
| Stats.GeneratedSlotMinutes | app.py:353-368 | a completed lesson on a generated label counts 30 minutes |

## Left out

- The Flask plumbing is not modelled: sessions, `flash`, redirects, templates, JSON bodies. The acting user and the request fields are parameters, and the unauthenticated branch of every handler is left out.
- Message texts are not modelled. A notification is a (recipient, sender) pair.
- The SQLite connection is not modelled. Each handler is atomic, so the check-then-insert race between the pre-checks and the UNIQUE constraint does not arise.
- Wall-clock time is a parameter. The two-week window of `book_teacher` is the `from`/`to` of `BookTeacher`, and the lesson countdowns and the CRM's 30-day window are not modelled.
- Floating point is not modelled. Amounts are exact reals, so the binary rounding of `0.85 * amount` is absent. Durations are whole minutes, so `round(total_hours, 2)` and the hour conversion are absent.
- Stats.BookingStatsOf: the lists hold the booking rows themselves, not the joined user names and e-mails.
- Calendar.ParseTimeSpells: digits are ASCII only. The `\d` of `strptime` also matches other Unicode decimal digits (Arabic-Indic ones, say), which the model refuses.
- Calendar.NormalizeTimeUnparsed: for the same reason, a time written in non-ASCII decimal digits comes back unchanged in the model, while Python normalises it.
- Calendar.ParseDate: year, month and day are ASCII digits only; `strptime('%Y-%m-%d')` also accepts other Unicode decimal digits.
- Validators.IntText: digits are ASCII only; Python's `int()` also accepts any Unicode decimal digit.
- Only ASCII lowering is modelled. For the role, status and extension tests this agrees with Python's `str.lower`.
- The users table is not modelled. Whether the teacher of `book_teacher` exists is the `teacherExists` parameter.
- Pin permissions are not modelled. The calendar form of `edit_pin` is taken for a pin the actor created, as in its `show_calendar` test.
- Ledger.LessonPayment: models the intended path, in which a booking carries an optional amount that is `None` on creation. As written, the bookings schema (app.py:2651-2669) has no `amount` column, so `booking["amount"]` at app.py:3293, outside the `try`, raises IndexError: every request with a known booking ends in a 500 and no balance changes.
- Ledger.RecordAmount: models the intended write. As written, the UPDATE of `amount` at app.py:3266-3271 fails with "no such column", `process_booking_payment` returns `(False, message)`, and the debit before it is never committed.
- JSON type errors and a missing session `username` are not modelled. Comparing a non-number amount, or the missing key at the notification step, raises, and the model has no such inputs.
- `ProcessBookingPayment` models the corrected debit. It commits, while the original never commits and is never called.
- The authorization of `update_lesson_payment` is not modelled because the source has none: any logged-in user may trigger it.
- `add_balance`, pins and the map, profiles, user administration, messages, referral links and reviews are not modelled. They are record-keeping with no invariants in the core.
- Password hashing, tokens and file storage are not modelled. They are foreign calls and file I/O.
- The overrides of `set_day_free` are read only by the CRM view. The model keeps the table but, like the source, no booking consults it.

## Findings

| source | as written | input that shows it | evidently intended | confidence | as-written member | corrected member |
|---|---|---|---|---|---|---|
| app.py:3243-3264 | `process_booking_payment` refuses when the balance is below its `amount` argument, then debits the price it looks up separately | balance 50, `amount` 10, online lesson with no pricing row (price 80): accepted, balance becomes -30 | refuse when the balance is below the price actually debited, so no balance goes negative | not executed | Ledger.PaymentAsWritten, Ledger.PaymentAsWrittenOverdraws | Ledger.PaymentChecked, Ledger.PaymentCheckedKeepsNonNegative |
