/**
  * The decision of `book_teacher` (the booking form on a teacher's page):
  * the slot is normalised, checked against the teacher's non-cancelled
  * bookings in the two-week window, then against the teacher's open
  * blocks for that weekday with the both/hybrid mode gate.
  */
module TeacherBooking {
  import opened Wrappers
  import opened Text
  import opened Calendar
  import opened Validators
  import opened Tables
  import opened Engine

  /** The POSTed form of `book_teacher`; `None` is a field the form did not send. */
  datatype TeacherRequest = TeacherRequest(
    dayOfWeek: Option<string>,
    timeSlot: Option<string>,
    bookingDate: Option<string>,
    lessonMode: Option<string>,
    notes: string)

  /** `all([day_of_week, time_slot, booking_date, lesson_mode])`. */
  predicate TeacherRequestComplete(req: TeacherRequest) {
    Filled(req.dayOfWeek) && Filled(req.timeSlot) && Filled(req.bookingDate) && Filled(req.lessonMode)
  }

  // ---------------------------------------------------------------------
  // booked_slots: date -> normalised slots of the teacher's live bookings

  /**
    * A row the `booked_slots` query returns: the teacher's, not cancelled
    * in either language, dated BETWEEN the window's ends (text order).
    */
  predicate Holds(b: Booking, teacher: int, from: string, to: string) {
    b.teacherId == teacher && b.status != "cancelled" && b.status != "odwolana" &&
    LexLeq(from, b.bookingDate) && LexLeq(b.bookingDate, to)
  }

  predicate Booked(booked: map<string, set<string>>, date: string, slot: string) {
    date in booked && slot in booked[date]
  }

  /** `booked_slots.setdefault(date, set()).add(slot)`. */
  function AddBooked(booked: map<string, set<string>>, date: string, slot: string): map<string, set<string>> {
    booked[date := (if date in booked then booked[date] else {}) + {slot}]
  }

  /** Adding one pair books that pair and keeps every other one as it was. */
  lemma AddBookedMeaning(booked: map<string, set<string>>, date: string, slot: string, d: string, s: string)
    ensures Booked(AddBooked(booked, date, slot), d, s) <==> Booked(booked, d, s) || (d == date && s == slot)
  {
  }

  /** The dictionary the loop over the query's rows builds. */
  function BookedSlots(rows: seq<Booking>, teacher: int, from: string, to: string): map<string, set<string>>
    decreases |rows|
  {
    if rows == [] then map[]
    else
      var m := BookedSlots(rows[..|rows| - 1], teacher, from, to);
      var b := rows[|rows| - 1];
      if Holds(b, teacher, from, to) then AddBooked(m, b.bookingDate, NormalizeTimeSlot(b.timeSlot))
      else m
  }

  /** A (date, slot) pair is booked exactly when some live row of the window has that date and normalised slot. */
  lemma {:induction false} BookedSlotsMeaning(rows: seq<Booking>, teacher: int, from: string, to: string,
                                              date: string, slot: string)
    ensures Booked(BookedSlots(rows, teacher, from, to), date, slot) <==>
      exists i :: 0 <= i < |rows| && Holds(rows[i], teacher, from, to) &&
        rows[i].bookingDate == date && NormalizeTimeSlot(rows[i].timeSlot) == slot
    decreases |rows|
  {
    if rows != [] {
      var init := rows[..|rows| - 1];
      var last := rows[|rows| - 1];
      BookedSlotsMeaning(init, teacher, from, to, date, slot);
      if Holds(last, teacher, from, to) {
        AddBookedMeaning(BookedSlots(init, teacher, from, to), last.bookingDate,
                         NormalizeTimeSlot(last.timeSlot), date, slot);
      }
      if exists i :: 0 <= i < |init| && Holds(init[i], teacher, from, to) &&
           init[i].bookingDate == date && NormalizeTimeSlot(init[i].timeSlot) == slot {
        var i :| 0 <= i < |init| && Holds(init[i], teacher, from, to) &&
           init[i].bookingDate == date && NormalizeTimeSlot(init[i].timeSlot) == slot;
        assert rows[i] == init[i];
      }
      if exists i :: 0 <= i < |rows| && Holds(rows[i], teacher, from, to) &&
           rows[i].bookingDate == date && NormalizeTimeSlot(rows[i].timeSlot) == slot {
        var i :| 0 <= i < |rows| && Holds(rows[i], teacher, from, to) &&
           rows[i].bookingDate == date && NormalizeTimeSlot(rows[i].timeSlot) == slot;
        if i < |init| {
          assert init[i] == rows[i];
        }
      }
    }
  }

  lemma BookedSlotsStep(rows: seq<Booking>, i: int, teacher: int, from: string, to: string)
    requires 0 <= i < |rows|
    ensures BookedSlots(rows[..i + 1], teacher, from, to) ==
      if Holds(rows[i], teacher, from, to)
      then AddBooked(BookedSlots(rows[..i], teacher, from, to), rows[i].bookingDate, NormalizeTimeSlot(rows[i].timeSlot))
      else BookedSlots(rows[..i], teacher, from, to)
  {
    assert rows[..i + 1][..i] == rows[..i];
  }

  /** The handler's two steps: create the empty set if the date is new, then add to it. */
  lemma SetdefaultAdd(booked: map<string, set<string>>, date: string, slot: string)
    ensures var m := if date in booked then booked else booked[date := {}];
      m[date := m[date] + {slot}] == AddBooked(booked, date, slot)
  {
  }

  /** The loop of book_teacher that fills `booked_slots`. */
  method CollectBookedSlots(rows: seq<Booking>, teacher: int, from: string, to: string)
    returns (booked: map<string, set<string>>)
    ensures booked == BookedSlots(rows, teacher, from, to)
  {
    booked := map[];
    for i := 0 to |rows|
      invariant booked == BookedSlots(rows[..i], teacher, from, to)
    {
      var b := rows[i];
      BookedSlotsStep(rows, i, teacher, from, to);
      if Holds(b, teacher, from, to) {
        var date, slot := b.bookingDate, NormalizeTimeSlot(b.timeSlot);
        SetdefaultAdd(booked, date, slot);
        if date !in booked {
          booked := booked[date := {}];
        }
        booked := booked[date := booked[date] + {slot}];
      }
    }
    assert rows[..|rows|] == rows;
  }

  // ---------------------------------------------------------------------
  // availability_blocks: weekday -> the teacher's open blocks, in table order

  /** An entry of `availability_blocks[day]`. */
  datatype OpenBlock = OpenBlock(start: string, end: string, mode: string, timeSlot: string)

  /** The entry built from a row: both ends normalised, joined into a slot label. */
  function ViewOf(b: Block): OpenBlock {
    var start := NormalizeTime(b.startTime);
    var end := NormalizeTime(b.endTime);
    OpenBlock(start, end, b.teachingMode, start + Sep + end)
  }

  /** A row the availability query returns. */
  predicate IsOpen(b: Block, teacher: int) {
    b.teacherId == teacher && b.isAvailable == 1
  }

  /** `availability_blocks.get(day, [])`. */
  function DayList(open: map<int, seq<OpenBlock>>, day: int): seq<OpenBlock> {
    if day in open then open[day] else []
  }

  /** The dictionary the loop over the availability rows builds. */
  function OpenBlocks(rows: seq<Block>, teacher: int): map<int, seq<OpenBlock>>
    decreases |rows|
  {
    if rows == [] then map[]
    else
      var m := OpenBlocks(rows[..|rows| - 1], teacher);
      var b := rows[|rows| - 1];
      if IsOpen(b, teacher) then m[b.dayOfWeek := DayList(m, b.dayOfWeek) + [ViewOf(b)]]
      else m
  }

  /** Some open row of the teacher for `day` shows as `v`. */
  predicate OpenOn(rows: seq<Block>, teacher: int, day: int, v: OpenBlock) {
    exists i :: 0 <= i < |rows| && IsOpen(rows[i], teacher) && rows[i].dayOfWeek == day && ViewOf(rows[i]) == v
  }

  /** A day's list holds exactly the entries of the teacher's open rows for that day. */
  lemma {:induction false} OpenBlocksMeaning(rows: seq<Block>, teacher: int, day: int, v: OpenBlock)
    ensures v in DayList(OpenBlocks(rows, teacher), day) <==> OpenOn(rows, teacher, day, v)
    decreases |rows|
  {
    if rows != [] {
      var init, b := rows[..|rows| - 1], rows[|rows| - 1];
      OpenBlocksMeaning(init, teacher, day, v);
      OpenOnSnoc(rows, teacher, day, v);
      var m := OpenBlocks(init, teacher);
      if IsOpen(b, teacher) && b.dayOfWeek == day {
        assert DayList(OpenBlocks(rows, teacher), day) == DayList(m, day) + [ViewOf(b)];
      } else {
        assert DayList(OpenBlocks(rows, teacher), day) == DayList(m, day);
      }
    }
  }

  /** The rows with one more row at the end. */
  lemma OpenOnSnoc(rows: seq<Block>, teacher: int, day: int, v: OpenBlock)
    requires rows != []
    ensures var init, b := rows[..|rows| - 1], rows[|rows| - 1];
      OpenOn(rows, teacher, day, v) <==>
        OpenOn(init, teacher, day, v) || (IsOpen(b, teacher) && b.dayOfWeek == day && ViewOf(b) == v)
  {
    var init := rows[..|rows| - 1];
    if OpenOn(init, teacher, day, v) {
      var i :| 0 <= i < |init| && IsOpen(init[i], teacher) && init[i].dayOfWeek == day && ViewOf(init[i]) == v;
      assert rows[i] == init[i];
    }
    if OpenOn(rows, teacher, day, v) {
      var i :| 0 <= i < |rows| && IsOpen(rows[i], teacher) && rows[i].dayOfWeek == day && ViewOf(rows[i]) == v;
      if i < |init| {
        assert init[i] == rows[i];
      }
    }
  }

  /** The loop of book_teacher that fills `availability_blocks`. */
  method CollectOpenBlocks(rows: seq<Block>, teacher: int) returns (open: map<int, seq<OpenBlock>>)
    ensures open == OpenBlocks(rows, teacher)
  {
    open := map[];
    for i := 0 to |rows|
      invariant open == OpenBlocks(rows[..i], teacher)
    {
      var b := rows[i];
      assert rows[..i + 1][..i] == rows[..i];
      if IsOpen(b, teacher) {
        if b.dayOfWeek !in open {
          open := open[b.dayOfWeek := []];
        }
        open := open[b.dayOfWeek := open[b.dayOfWeek] + [ViewOf(b)]];
      }
    }
    assert rows[..|rows|] == rows;
  }

  // ---------------------------------------------------------------------
  // the decision

  /** The mode gate of book_teacher: `both`/`hybrid` take exactly online or in_person, other blocks their own mode. */
  predicate TeacherModeGate(blockMode: string, lessonMode: string) {
    if blockMode == "both" || blockMode == "hybrid" then lessonMode == "online" || lessonMode == "in_person"
    else lessonMode == blockMode
  }

  /** The first entry of the day whose normalised label equals the requested one: the loop's `break`. */
  function FirstMatching(list: seq<OpenBlock>, norm: string): (r: Option<nat>)
    ensures r.Some? ==> r.value < |list| && NormalizeTimeSlot(list[r.value].timeSlot) == norm
    ensures r.None? ==> forall k :: 0 <= k < |list| ==> NormalizeTimeSlot(list[k].timeSlot) != norm
  {
    Find(list, (v: OpenBlock) => NormalizeTimeSlot(v.timeSlot) == norm)
  }

  /** The request got past the field checks and its weekday is an integer, and the slot is not booked on that date. */
  predicate PassesBookedTest(booked: map<string, set<string>>, teacherExists: bool, req: TeacherRequest) {
    teacherExists && TeacherRequestComplete(req) && IntText(req.dayOfWeek.value).Some? &&
    !Booked(booked, req.bookingDate.value, NormalizeTimeSlot(req.timeSlot.value))
  }

  /** The first open entry of the day carrying the normalised slot exists and its mode passes the gate. */
  predicate GatePasses(open: map<int, seq<OpenBlock>>, day: int, norm: string, mode: string) {
    var list := DayList(open, day);
    var r := FirstMatching(list, norm);
    r.Some? && TeacherModeGate(list[r.value].mode, mode)
  }

  /** The key the request asks for, with the weekday parsed and the slot normalised. */
  function TeacherKey(teacher: int, req: TeacherRequest): SlotKey
    requires TeacherRequestComplete(req) && IntText(req.dayOfWeek.value).Some?
  {
    SlotKey(teacher, IntText(req.dayOfWeek.value).value, NormalizeTimeSlot(req.timeSlot.value), req.bookingDate.value)
  }

  /**
    * What a POST to `book_teacher` does for `student`, given the two
    * dictionaries the handler built. `teacherExists` is the users-table
    * lookup of a teacher with that id.
    */
  function TeacherBookingVerdict(bookings: seq<Booking>, booked: map<string, set<string>>,
                                 open: map<int, seq<OpenBlock>>, pricing: map<int, Pricing>, nextId: int,
                                 teacherExists: bool, teacher: int, student: int, req: TeacherRequest)
    : (v: Verdict<Booking>)
    ensures v == Reject(NotFound) <==> !teacherExists
    ensures v == Reject(MissingFields) <==> teacherExists && !TeacherRequestComplete(req)
    ensures v == Reject(InvalidValue) <==>
      (teacherExists && TeacherRequestComplete(req) && IntText(req.dayOfWeek.value).None?)
    ensures v == Reject(SlotAlreadyBooked) <==> (teacherExists && TeacherRequestComplete(req) &&
      IntText(req.dayOfWeek.value).Some? &&
      Booked(booked, req.bookingDate.value, NormalizeTimeSlot(req.timeSlot.value)))
    ensures v == Reject(ModeNotAllowed) <==> (PassesBookedTest(booked, teacherExists, req) &&
      !GatePasses(open, TeacherKey(teacher, req).dayOfWeek, TeacherKey(teacher, req).timeSlot, req.lessonMode.value))
    ensures v == Reject(StorageConflict) <==> (PassesBookedTest(booked, teacherExists, req) &&
      GatePasses(open, TeacherKey(teacher, req).dayOfWeek, TeacherKey(teacher, req).timeSlot, req.lessonMode.value) &&
      KeyTaken(bookings, TeacherKey(teacher, req)))
    ensures v == Reject(ServerError) <==> (PassesBookedTest(booked, teacherExists, req) &&
      GatePasses(open, TeacherKey(teacher, req).dayOfWeek, TeacherKey(teacher, req).timeSlot, req.lessonMode.value) &&
      !KeyTaken(bookings, TeacherKey(teacher, req)) && |Split(TeacherKey(teacher, req).timeSlot)| != 2)
    ensures v.Reject? ==> v.failure in {NotFound, MissingFields, InvalidValue, SlotAlreadyBooked,
                                        ModeNotAllowed, StorageConflict, ServerError}
    ensures v.Accept? <==> (PassesBookedTest(booked, teacherExists, req) &&
      GatePasses(open, TeacherKey(teacher, req).dayOfWeek, TeacherKey(teacher, req).timeSlot, req.lessonMode.value) &&
      !KeyTaken(bookings, TeacherKey(teacher, req)) && |Split(TeacherKey(teacher, req).timeSlot)| == 2)
    ensures v.Accept? ==> (teacherExists && TeacherRequestComplete(req) &&
      IntText(req.dayOfWeek.value).Some? &&
      v.value == NewBooking(nextId, teacher, student, IntText(req.dayOfWeek.value).value,
        NormalizeTimeSlot(req.timeSlot.value), req.bookingDate.value, req.lessonMode.value, Some(req.notes),
        PricingFor(pricing, teacher)))
    ensures v.Accept? ==> (!Booked(booked, v.value.bookingDate, v.value.timeSlot) &&
      !KeyTaken(bookings, KeyOf(v.value)) && |Split(v.value.timeSlot)| == 2)
    ensures v.Accept? ==> (
      var r := FirstMatching(DayList(open, v.value.dayOfWeek), v.value.timeSlot);
      r.Some? && TeacherModeGate(DayList(open, v.value.dayOfWeek)[r.value].mode, v.value.lessonMode))
  {
    if !teacherExists then Reject(NotFound)
    else if !TeacherRequestComplete(req) then Reject(MissingFields)
    else match IntText(req.dayOfWeek.value)
      case None => Reject(InvalidValue)
      case Some(day) =>
        var norm := NormalizeTimeSlot(req.timeSlot.value);
        var date, mode := req.bookingDate.value, req.lessonMode.value;
        if Booked(booked, date, norm) then Reject(SlotAlreadyBooked)
        else
          var list := DayList(open, day);
          match FirstMatching(list, norm)
            case None => Reject(ModeNotAllowed)
            case Some(k) =>
              if !TeacherModeGate(list[k].mode, mode) then Reject(ModeNotAllowed)
              else if KeyTaken(bookings, SlotKey(teacher, day, norm, date)) then Reject(StorageConflict)
              else if |Split(norm)| != 2 then Reject(ServerError)
              else Accept(NewBooking(nextId, teacher, student, day, norm, date, mode, Some(req.notes),
                                     PricingFor(pricing, teacher)))
  }

  /** A request whose normalised slot some live booking of the window already holds on that date is refused. */
  lemma BookedSlotRejected(bookings: seq<Booking>, open: map<int, seq<OpenBlock>>, pricing: map<int, Pricing>,
                           nextId: int, teacher: int, student: int, req: TeacherRequest,
                           from: string, to: string, i: int)
    requires TeacherRequestComplete(req) && IntText(req.dayOfWeek.value).Some?
    requires 0 <= i < |bookings| && Holds(bookings[i], teacher, from, to)
    requires bookings[i].bookingDate == req.bookingDate.value
    requires NormalizeTimeSlot(bookings[i].timeSlot) == NormalizeTimeSlot(req.timeSlot.value)
    ensures TeacherBookingVerdict(bookings, BookedSlots(bookings, teacher, from, to), open, pricing, nextId,
                                  true, teacher, student, req) == Reject(SlotAlreadyBooked)
  {
    BookedSlotsMeaning(bookings, teacher, from, to, req.bookingDate.value, NormalizeTimeSlot(req.timeSlot.value));
  }

  /**
    * A booking goes through only if the teacher has an open row for that
    * weekday whose normalised label is the requested slot and whose mode
    * passes the gate.
    */
  lemma AcceptedNeedsOpenBlock(bookings: seq<Booking>, booked: map<string, set<string>>, blocks: seq<Block>,
                               pricing: map<int, Pricing>, nextId: int, teacher: int, student: int,
                               req: TeacherRequest)
    requires TeacherBookingVerdict(bookings, booked, OpenBlocks(blocks, teacher), pricing, nextId,
                                   true, teacher, student, req).Accept?
    ensures var b := TeacherBookingVerdict(bookings, booked, OpenBlocks(blocks, teacher), pricing, nextId,
                                           true, teacher, student, req).value;
      exists i :: 0 <= i < |blocks| && IsOpen(blocks[i], teacher) && blocks[i].dayOfWeek == b.dayOfWeek &&
        NormalizeTimeSlot(ViewOf(blocks[i]).timeSlot) == b.timeSlot &&
        TeacherModeGate(blocks[i].teachingMode, b.lessonMode)
  {
    var b := TeacherBookingVerdict(bookings, booked, OpenBlocks(blocks, teacher), pricing, nextId,
                                   true, teacher, student, req).value;
    var list := DayList(OpenBlocks(blocks, teacher), b.dayOfWeek);
    var k := FirstMatching(list, b.timeSlot).value;
    OpenBlocksMeaning(blocks, teacher, b.dayOfWeek, list[k]);
  }

  /** Without an open row for that weekday whose normalised label is the requested slot, the request is refused. */
  lemma NoOpenBlockRejected(bookings: seq<Booking>, booked: map<string, set<string>>, blocks: seq<Block>,
                            pricing: map<int, Pricing>, nextId: int, teacher: int, student: int,
                            req: TeacherRequest)
    requires TeacherRequestComplete(req) && IntText(req.dayOfWeek.value).Some?
    requires forall i :: (0 <= i < |blocks| && IsOpen(blocks[i], teacher) &&
      blocks[i].dayOfWeek == IntText(req.dayOfWeek.value).value) ==>
      NormalizeTimeSlot(ViewOf(blocks[i]).timeSlot) != NormalizeTimeSlot(req.timeSlot.value)
    ensures TeacherBookingVerdict(bookings, booked, OpenBlocks(blocks, teacher), pricing, nextId,
                                  true, teacher, student, req).Reject?
  {
    var v := TeacherBookingVerdict(bookings, booked, OpenBlocks(blocks, teacher), pricing, nextId,
                                   true, teacher, student, req);
    if v.Accept? {
      AcceptedNeedsOpenBlock(bookings, booked, blocks, pricing, nextId, teacher, student, req);
    }
  }

  /** A `both` or `hybrid` block admits exactly the two modes; any other block only its own. */
  lemma TeacherModeGateMeaning(blockMode: string, lessonMode: string)
    ensures (blockMode == "both" || blockMode == "hybrid") ==>
      (TeacherModeGate(blockMode, lessonMode) <==> lessonMode in {"online", "in_person"})
    ensures !(blockMode == "both" || blockMode == "hybrid") ==>
      (TeacherModeGate(blockMode, lessonMode) <==> lessonMode == blockMode)
  {
  }

  /**
    * Every mode book_teacher admits, book_appointment admits too, except on
    * a `hybrid` block: book_appointment's substring gate refuses `online`
    * there.
    */
  lemma TeacherGateWithinAppointmentGate(blockMode: string, lessonMode: string)
    requires TeacherModeGate(blockMode, lessonMode) && blockMode != "hybrid"
    ensures ModeOffered(lessonMode, blockMode)
  {
    if blockMode != "both" {
      assert blockMode[0..|lessonMode|] == lessonMode;
      assert OccursAt(blockMode, lessonMode, 0);
    }
  }

  /** On a `hybrid` block the two handlers disagree about `online`. */
  lemma HybridGatesDisagree(blockMode: string, lessonMode: string)
    requires blockMode == "hybrid" && lessonMode == "online"
    ensures TeacherModeGate(blockMode, lessonMode) && !ModeOffered(lessonMode, blockMode)
  {
    assert |blockMode| == |lessonMode| && blockMode[0] != lessonMode[0];
    forall j | OccursAt(blockMode, lessonMode, j)
      ensures false
    {
    }
  }

  /**
    * A cancelled row still holds its key: the pre-check ignores it, the
    * insert does not, so the slot cannot be booked again.
    */
  lemma RebookCancelledTeacherSlot(bookings: seq<Booking>, booked: map<string, set<string>>,
                                   open: map<int, seq<OpenBlock>>, pricing: map<int, Pricing>, nextId: int,
                                   teacher: int, student: int, req: TeacherRequest, i: int)
    requires TeacherRequestComplete(req) && IntText(req.dayOfWeek.value).Some?
    requires !Booked(booked, req.bookingDate.value, NormalizeTimeSlot(req.timeSlot.value))
    requires 0 <= i < |bookings| &&
      KeyOf(bookings[i]) == SlotKey(teacher, IntText(req.dayOfWeek.value).value,
                                    NormalizeTimeSlot(req.timeSlot.value), req.bookingDate.value)
    ensures !TeacherBookingVerdict(bookings, booked, open, pricing, nextId, true, teacher, student, req).Accept?
  {
    assert KeyTaken(bookings, KeyOf(bookings[i]));
  }
}
