/**
  * The decisions of the booking handlers of app.py, as functions of the
  * tables they read: each returns the row to insert or the row to
  * rewrite, or the reason the request is refused. The class in
  * store.dfy applies them.
  */
module Engine {
  import opened Wrappers
  import opened Text
  import opened Calendar
  import opened Validators
  import opened Tables

  // ---------------------------------------------------------------------
  // book_appointment

  /**
    * The JSON body of `/api/book_appointment`; `None` is an absent key or a
    * null. `notes` keeps the two apart: `None` is an absent key, `Some(None)`
    * a null and `Some(Some(t))` a text.
    */
  datatype AppointmentRequest = AppointmentRequest(
    teacherId: Option<int>,
    dayOfWeek: Option<int>,
    timeSlot: Option<string>,
    bookingDate: Option<string>,
    lessonMode: Option<string>,
    notes: Option<Option<string>>)

  /** `all([teacher_id, day_of_week is not None, time_slot, booking_date, lesson_mode])`. */
  predicate AppointmentComplete(req: AppointmentRequest) {
    req.teacherId.Some? && req.teacherId.value != 0 && req.dayOfWeek.Some? &&
    Filled(req.timeSlot) && Filled(req.bookingDate) && Filled(req.lessonMode)
  }

  /** The availability row the handler looks up: same teacher, day, start and end text. */
  predicate BlockMatches(b: Block, teacher: int, day: int, start: string, end: string) {
    b.teacherId == teacher && b.dayOfWeek == day && b.startTime == start && b.endTime == end
  }

  /** The mode gate of book_appointment: a substring test, or a `both` block. */
  predicate ModeOffered(lessonMode: string, blockMode: string) {
    ContainsFrom(blockMode, lessonMode, 0) || blockMode == "both"
  }

  /** An active booking holds `key`. */
  predicate ActiveAt(bookings: seq<Booking>, key: SlotKey) {
    exists i :: 0 <= i < |bookings| && bookings[i].status == "active" && KeyOf(bookings[i]) == key
  }

  /** The student already has an active lesson on that day, slot and date, with any teacher. */
  predicate StudentBusy(bookings: seq<Booking>, student: int, day: int, slot: string, date: string) {
    exists i :: 0 <= i < |bookings| && bookings[i].status == "active" &&
      bookings[i].studentId == student && bookings[i].dayOfWeek == day &&
      bookings[i].timeSlot == slot && bookings[i].bookingDate == date
  }

  /** The row `fetchone()` returns for the request's time slot, if any. */
  function SlotBlock(blocks: seq<Block>, teacher: int, day: int, slot: string): (r: Option<nat>)
    requires |Split(slot)| == 2
    ensures r.Some? ==> r.value < |blocks| && BlockMatches(blocks[r.value], teacher, day, Split(slot)[0], Split(slot)[1])
    ensures r.None? ==> (forall i :: 0 <= i < |blocks| ==>
      !BlockMatches(blocks[i], teacher, day, Split(slot)[0], Split(slot)[1]))
  {
    var parts := Split(slot);
    Find(blocks, b => BlockMatches(b, teacher, day, parts[0], parts[1]))
  }

  /** What `data.get('notes', '')` hands to the INSERT: "" for an absent key, NULL for a null, else the text. */
  function StoredNotes(notes: Option<Option<string>>): (r: Option<string>)
    ensures notes.None? ==> r == Some("")
    ensures notes.Some? ==> r == notes.value
  {
    notes.GetOr(Some(""))
  }

  /** The row book_appointment inserts. */
  function NewBooking(id: int, teacher: int, student: int, day: int, slot: string, date: string,
                      mode: string, notes: Option<string>, pricing: Pricing): Booking
  {
    Booking(id, teacher, student, day, slot, date, mode, "active", notes,
            pricing.online, pricing.inPerson, None, None)
  }

  /** The key the request asks for. */
  function RequestKey(req: AppointmentRequest): SlotKey
    requires AppointmentComplete(req)
  {
    SlotKey(req.teacherId.value, req.dayOfWeek.value, req.timeSlot.value, req.bookingDate.value)
  }

  /** The slot splits into start and end, and the first availability row for them is open and offers the mode. */
  predicate FirstBlockOffers(blocks: seq<Block>, req: AppointmentRequest)
    requires AppointmentComplete(req)
  {
    |Split(req.timeSlot.value)| == 2 &&
    var r := SlotBlock(blocks, req.teacherId.value, req.dayOfWeek.value, req.timeSlot.value);
    r.Some? && OffersSlot(blocks[r.value], req)
  }

  /**
    * What `/api/book_appointment` does for `student`: the checks in the
    * handler's order, then the new row with the schema's default status
    * and the teacher's prices (80.0/100.0 when the teacher has none).
    */
  function AppointmentVerdict(bookings: seq<Booking>, blocks: seq<Block>, pricing: map<int, Pricing>,
                              nextId: int, student: int, req: AppointmentRequest): (v: Verdict<Booking>)
    ensures v == Reject(MissingFields) <==> !AppointmentComplete(req)
    ensures v == Reject(ServerError) <==> AppointmentComplete(req) && |Split(req.timeSlot.value)| != 2
    ensures v.Reject? ==> v.failure in {MissingFields, ServerError, SlotUnavailable, ModeNotAllowed,
                                        SlotAlreadyBooked, StudentDoubleBooking, StorageConflict}
    ensures v == Reject(SlotUnavailable) <==> (AppointmentComplete(req) && |Split(req.timeSlot.value)| == 2 &&
      var r := SlotBlock(blocks, req.teacherId.value, req.dayOfWeek.value, req.timeSlot.value);
      r.None? || blocks[r.value].isAvailable == 0)
    ensures v == Reject(ModeNotAllowed) <==> (AppointmentComplete(req) && |Split(req.timeSlot.value)| == 2 &&
      var r := SlotBlock(blocks, req.teacherId.value, req.dayOfWeek.value, req.timeSlot.value);
      r.Some? && blocks[r.value].isAvailable != 0 && !ModeOffered(req.lessonMode.value, blocks[r.value].teachingMode))
    ensures v.Accept? <==> (AppointmentComplete(req) && FirstBlockOffers(blocks, req) &&
      !ActiveAt(bookings, RequestKey(req)) && !KeyTaken(bookings, RequestKey(req)) &&
      !StudentBusy(bookings, student, req.dayOfWeek.value, req.timeSlot.value, req.bookingDate.value))
    ensures v.Accept? ==> (v.value == NewBooking(nextId, req.teacherId.value, student, req.dayOfWeek.value,
      req.timeSlot.value, req.bookingDate.value, req.lessonMode.value, StoredNotes(req.notes),
      PricingFor(pricing, req.teacherId.value)))
    ensures v == Reject(SlotAlreadyBooked) <==> (AppointmentComplete(req) && FirstBlockOffers(blocks, req) &&
      ActiveAt(bookings, RequestKey(req)))
    ensures v == Reject(StudentDoubleBooking) <==> (AppointmentComplete(req) && FirstBlockOffers(blocks, req) &&
      !ActiveAt(bookings, RequestKey(req)) &&
      StudentBusy(bookings, student, req.dayOfWeek.value, req.timeSlot.value, req.bookingDate.value))
    ensures v == Reject(StorageConflict) <==> (AppointmentComplete(req) && FirstBlockOffers(blocks, req) &&
      !ActiveAt(bookings, RequestKey(req)) && KeyTaken(bookings, RequestKey(req)) &&
      !StudentBusy(bookings, student, req.dayOfWeek.value, req.timeSlot.value, req.bookingDate.value))
  {
    if !AppointmentComplete(req) then Reject(MissingFields)
    else
      var teacher, day, slot := req.teacherId.value, req.dayOfWeek.value, req.timeSlot.value;
      var date, mode := req.bookingDate.value, req.lessonMode.value;
      if |Split(slot)| != 2 then Reject(ServerError)
      else match SlotBlock(blocks, teacher, day, slot)
        case None => Reject(SlotUnavailable)
        case Some(k) =>
          if blocks[k].isAvailable == 0 then Reject(SlotUnavailable)
          else if !ModeOffered(mode, blocks[k].teachingMode) then Reject(ModeNotAllowed)
          else if ActiveAt(bookings, SlotKey(teacher, day, slot, date)) then Reject(SlotAlreadyBooked)
          else if StudentBusy(bookings, student, day, slot, date) then Reject(StudentDoubleBooking)
          else if KeyTaken(bookings, SlotKey(teacher, day, slot, date)) then Reject(StorageConflict)
          else
            Accept(NewBooking(nextId, teacher, student, day, slot, date, mode, StoredNotes(req.notes),
                              PricingFor(pricing, teacher)))
  }

  /**
    * A tuple whose only row is cancelled passes the active-only pre-check
    * and then fails on the UNIQUE constraint: it cannot be booked again.
    */
  lemma RebookCancelledSlot(bookings: seq<Booking>, blocks: seq<Block>, pricing: map<int, Pricing>,
                            nextId: int, student: int, req: AppointmentRequest, i: int)
    requires UniqueSlots(bookings) && 0 <= i < |bookings| && bookings[i].status == "cancelled"
    requires AppointmentComplete(req) && KeyOf(bookings[i]) == RequestKey(req)
    requires FirstBlockOffers(blocks, req)
    requires !StudentBusy(bookings, student, req.dayOfWeek.value, req.timeSlot.value, req.bookingDate.value)
    ensures AppointmentVerdict(bookings, blocks, pricing, nextId, student, req) == Reject(StorageConflict)
  {
    forall j | 0 <= j < |bookings| && KeyOf(bookings[j]) == RequestKey(req)
      ensures j == i
    {
    }
    assert KeyTaken(bookings, RequestKey(req));
  }

  /**
    * With every stored block available (as the store keeps them), the
    * request is refused as unavailable exactly when no row matches its
    * teacher, day and slot: the `is_available` branch never decides.
    */
  lemma UnavailableMeansNoRow(bookings: seq<Booking>, blocks: seq<Block>, pricing: map<int, Pricing>,
                              nextId: int, student: int, req: AppointmentRequest)
    requires forall i :: 0 <= i < |blocks| ==> blocks[i].isAvailable == 1
    ensures AppointmentVerdict(bookings, blocks, pricing, nextId, student, req) == Reject(SlotUnavailable) <==>
      AppointmentComplete(req) && |Split(req.timeSlot.value)| == 2 &&
      SlotBlock(blocks, req.teacherId.value, req.dayOfWeek.value, req.timeSlot.value).None?
  {
  }

  /** The substring gate lets a mode through that is only part of the block's mode. */
  lemma SubstringModeQuirk(lessonMode: string, blockMode: string)
    requires lessonMode == "line" && blockMode == "online"
    ensures ModeOffered(lessonMode, blockMode)
  {
    assert blockMode[2..6] == lessonMode;
    assert OccursAt(blockMode, lessonMode, 2);
  }

  /** The block's start and end are the two halves of `slot`. */
  predicate SlotFits(b: Block, teacher: int, day: int, slot: string) {
    |Split(slot)| == 2 && BlockMatches(b, teacher, day, Split(slot)[0], Split(slot)[1])
  }

  /** The block is available for the request's slot and offers its mode. */
  predicate OffersSlot(b: Block, req: AppointmentRequest)
    requires AppointmentComplete(req)
  {
    b.isAvailable != 0 && ModeOffered(req.lessonMode.value, b.teachingMode) &&
    SlotFits(b, req.teacherId.value, req.dayOfWeek.value, req.timeSlot.value)
  }

  /** Inserting a row whose key is free under the next id keeps both table invariants. */
  lemma InsertKeepsInvariants(bookings: seq<Booking>, nextId: int, b: Booking)
    requires UniqueSlots(bookings) && IdsBelow(Ids(bookings, BookingId), nextId) && nextId >= 1
    requires !KeyTaken(bookings, KeyOf(b)) && b.id == nextId
    ensures UniqueSlots(bookings + [b])
    ensures IdsBelow(Ids(bookings + [b], BookingId), nextId + 1)
  {
    assert Ids(bookings + [b], BookingId) == Ids(bookings, BookingId) + [nextId];
    IdsBelowAppend(Ids(bookings, BookingId), nextId);
    var s := bookings + [b];
    forall i, j | 0 <= i < j < |s|
      ensures KeyOf(s[i]) != KeyOf(s[j])
    {
      if j == |bookings| {
        assert s[i] == bookings[i];
      }
    }
  }
}
