/**
  * The database the handlers share, as one object whose tables the
  * handlers rewrite. Each handler asks the verdict function of its module
  * what the request leads to and then commits exactly that, or nothing.
  * The invariant carries the two UNIQUE constraints of the schema, the
  * AUTOINCREMENT ids and the fact that every stored availability block is
  * available.
  */
module Platform {
  import opened Wrappers
  import opened Text
  import opened Tables
  import opened Engine
  import opened TeacherBooking
  import opened Updates
  import opened Availability
  import opened Ledger
  import opened Stats

  class Store {
    var bookings: seq<Booking>
    var blocks: seq<Block>
    var overrides: seq<Override>
    var pricing: map<int, Pricing>
    var balances: map<int, real>
    var notifications: seq<Notification>
    var nextBookingId: int
    var nextBlockId: int
    var nextOverrideId: int

    ghost predicate Valid()
      reads this
    {
      UniqueSlots(bookings) && IdsBelow(Ids(bookings, BookingId), nextBookingId) && nextBookingId >= 1 &&
      BlockTable(blocks, nextBlockId) &&
      UniqueOverrides(overrides) && IdsBelow(Ids(overrides, OverrideId), nextOverrideId) && nextOverrideId >= 1
    }

    /** The tables a booking handler does not write. */
    twostate predicate OnlyBookingsChanged()
      reads this
    {
      blocks == old(blocks) && overrides == old(overrides) && pricing == old(pricing) &&
      balances == old(balances) && nextBlockId == old(nextBlockId) && nextOverrideId == old(nextOverrideId)
    }

    /** The tables an availability handler does not write. */
    twostate predicate OnlyBlocksChanged()
      reads this
    {
      bookings == old(bookings) && overrides == old(overrides) && pricing == old(pricing) &&
      balances == old(balances) && notifications == old(notifications) &&
      nextBookingId == old(nextBookingId) && nextOverrideId == old(nextOverrideId)
    }

    /** The tables a balance handler does not write. */
    twostate predicate OnlyBalancesChanged()
      reads this
    {
      bookings == old(bookings) && blocks == old(blocks) && overrides == old(overrides) &&
      pricing == old(pricing) && notifications == old(notifications) &&
      nextBookingId == old(nextBookingId) && nextBlockId == old(nextBlockId) && nextOverrideId == old(nextOverrideId)
    }

    /** `init_db` on an empty file: empty tables, every AUTOINCREMENT counter at 1. */
    constructor(pricing: map<int, Pricing>, balances: map<int, real>)
      ensures Valid()
      ensures bookings == [] && blocks == [] && overrides == [] && notifications == []
      ensures this.pricing == pricing && this.balances == balances
    {
      bookings, blocks, overrides, notifications := [], [], [], [];
      this.pricing, this.balances := pricing, balances;
      nextBookingId, nextBlockId, nextOverrideId := 1, 1, 1;
    }

    // -------------------------------------------------------------------
    // booking

    /** `book_appointment`: an accepted request adds one booking and one notification to the teacher. */
    method BookAppointment(student: int, req: AppointmentRequest) returns (reply: Reply)
      requires Valid()
      modifies this
      ensures Valid() && OnlyBookingsChanged()
      ensures match AppointmentVerdict(old(bookings), blocks, pricing, old(nextBookingId), student, req)
        case Reject(f) =>
          reply == Refused(f) && bookings == old(bookings) && notifications == old(notifications) &&
          nextBookingId == old(nextBookingId)
        case Accept(b) =>
          reply == Success && bookings == old(bookings) + [b] && b.id == old(nextBookingId) &&
          notifications == old(notifications) + [Notification(b.teacherId, Some(student))] &&
          nextBookingId == old(nextBookingId) + 1
    {
      var v := AppointmentVerdict(bookings, blocks, pricing, nextBookingId, student, req);
      match v
      case Reject(f) =>
        reply := Refused(f);
      case Accept(b) =>
        Insert(b, Notification(b.teacherId, Some(student)));
        reply := Success;
    }

    /** Commits a new booking row under the next id and its notification. */
    method Insert(b: Booking, n: Notification)
      requires Valid() && b.id == nextBookingId && !KeyTaken(bookings, KeyOf(b))
      modifies this
      ensures Valid() && OnlyBookingsChanged()
      ensures bookings == old(bookings) + [b] && notifications == old(notifications) + [n]
      ensures nextBookingId == old(nextBookingId) + 1
    {
      InsertKeepsInvariants(bookings, nextBookingId, b);
      bookings := bookings + [b];
      notifications := notifications + [n];
      nextBookingId := nextBookingId + 1;
    }

    /**
      * The POST branch of `book_teacher`: the two dictionaries are built
      * from the tables, then the request is decided on them. `from`/`to`
      * is the two-week window of the page and `teacherExists` the users
      * lookup.
      */
    method BookTeacher(student: int, teacher: int, teacherExists: bool, from: string, to: string,
                       req: TeacherRequest) returns (reply: Reply)
      requires Valid()
      modifies this
      ensures Valid() && OnlyBookingsChanged()
      ensures match TeacherBookingVerdict(old(bookings), BookedSlots(old(bookings), teacher, from, to),
                                          OpenBlocks(blocks, teacher), pricing, old(nextBookingId),
                                          teacherExists, teacher, student, req)
        case Reject(f) =>
          reply == Refused(f) && bookings == old(bookings) && notifications == old(notifications) &&
          nextBookingId == old(nextBookingId)
        case Accept(b) =>
          reply == Success && bookings == old(bookings) + [b] && b.id == old(nextBookingId) &&
          notifications == old(notifications) + [Notification(teacher, Some(student))] &&
          nextBookingId == old(nextBookingId) + 1
    {
      var open := CollectOpenBlocks(blocks, teacher);
      var booked := CollectBookedSlots(bookings, teacher, from, to);
      var v := TeacherBookingVerdict(bookings, booked, open, pricing, nextBookingId, teacherExists, teacher, student, req);
      match v
      case Reject(f) =>
        reply := Refused(f);
      case Accept(b) =>
        Insert(b, Notification(teacher, Some(student)));
        reply := Success;
    }

    /** Commits a row rewrite and its notification. */
    method Commit(u: Update)
      requires Valid() && KeepsIdentity(bookings, u)
      modifies this
      ensures Valid() && OnlyBookingsChanged() && nextBookingId == old(nextBookingId)
      ensures bookings == Apply(old(bookings), u) && notifications == Notify(old(notifications), u.notice)
    {
      UpdateKeepsInvariants(bookings, nextBookingId, u);
      bookings := Apply(bookings, u);
      notifications := Notify(notifications, u.notice);
    }

    /** `cancel_booking`. */
    method CancelBooking(actor: Actor, bookingId: Option<int>) returns (reply: Reply)
      requires Valid()
      modifies this
      ensures Valid() && OnlyBookingsChanged() && nextBookingId == old(nextBookingId)
      ensures match CancelVerdict(old(bookings), actor, bookingId)
        case Reject(f) => reply == Refused(f) && bookings == old(bookings) && notifications == old(notifications)
        case Accept(u) =>
          reply == Success && bookings == Apply(old(bookings), u) && notifications == Notify(old(notifications), u.notice)
    {
      match CancelVerdict(bookings, actor, bookingId)
      case Reject(f) =>
        reply := Refused(f);
      case Accept(u) =>
        Commit(u);
        reply := Success;
    }

    /** `update_lesson_status`. */
    method UpdateLessonStatus(actor: Actor, bookingId: Option<int>, status: Option<string>, reason: Option<Option<string>>)
      returns (reply: Reply)
      requires Valid()
      modifies this
      ensures Valid() && OnlyBookingsChanged() && nextBookingId == old(nextBookingId)
      ensures match LessonStatusVerdict(old(bookings), actor, bookingId, status, reason)
        case Reject(f) => reply == Refused(f) && bookings == old(bookings) && notifications == old(notifications)
        case Accept(u) =>
          reply == Success && bookings == Apply(old(bookings), u) && notifications == Notify(old(notifications), u.notice)
    {
      match LessonStatusVerdict(bookings, actor, bookingId, status, reason)
      case Reject(f) =>
        reply := Refused(f);
      case Accept(u) =>
        Commit(u);
        reply := Success;
    }

    /** `update_crm_booking`. */
    method UpdateCrmBooking(actor: Actor, bookingId: int, status: Option<string>) returns (reply: Reply)
      requires Valid()
      modifies this
      ensures Valid() && OnlyBookingsChanged() && nextBookingId == old(nextBookingId)
      ensures match CrmVerdict(old(bookings), actor, bookingId, status)
        case Reject(f) => reply == Refused(f) && bookings == old(bookings) && notifications == old(notifications)
        case Accept(u) =>
          reply == Success && bookings == Apply(old(bookings), u) && notifications == Notify(old(notifications), u.notice)
    {
      match CrmVerdict(bookings, actor, bookingId, status)
      case Reject(f) =>
        reply := Refused(f);
      case Accept(u) =>
        Commit(u);
        reply := Success;
    }

    // -------------------------------------------------------------------
    // availability

    /**
      * `save_teacher_availability`: the teacher's blocks are replaced by one
      * new block per element, whose ids are returned. An element the
      * INSERT cannot take aborts the transaction, DELETE included.
      */
    method SaveTeacherAvailability(actor: Actor, inputs: seq<BlockInput>) returns (reply: Reply, newIds: seq<int>)
      requires Valid()
      modifies this
      ensures Valid() && OnlyBlocksChanged()
      ensures !IsTeacher(actor) ==>
        reply == Refused(Unauthorized) && blocks == old(blocks) && nextBlockId == old(nextBlockId)
      ensures IsTeacher(actor) && SaveSpecs(inputs).None? ==>
        reply == Refused(ServerError) && blocks == old(blocks) && nextBlockId == old(nextBlockId)
      ensures IsTeacher(actor) && SaveSpecs(inputs).Some? ==> (
        var specs := SaveSpecs(inputs).value;
        reply == Success &&
        blocks == OtherTeachers(old(blocks), actor.id) + FreshBlocks(specs, actor.id, old(nextBlockId)) &&
        nextBlockId == old(nextBlockId) + |specs| &&
        |newIds| == |specs| && forall k :: 0 <= k < |newIds| ==> newIds[k] == old(nextBlockId) + k)
    {
      newIds := [];
      if !IsTeacher(actor) {
        return Refused(Unauthorized), newIds;
      }
      var ok, rows;
      ok, rows, newIds := InsertInputs(OtherTeachers(blocks, actor.id), inputs, actor.id, nextBlockId);
      if !ok {
        return Refused(ServerError), newIds;
      }
      ReplaceKeepsInvariants(blocks, actor.id, nextBlockId, SaveSpecs(inputs).value);
      SetBlocks(rows, nextBlockId + |inputs|);
      reply := Success;
    }

    /**
      * The `update_calendar` form of `edit_pin`, shown to the teacher who
      * created the pin: the teacher's blocks are replaced by the complete
      * entries of the seven weekdays. A weekday with fewer ends or modes
      * than starts raises before the commit, so nothing changes.
      */
    method SaveCalendarFromPinForm(actor: Actor, pinCreator: int, form: map<string, seq<string>>)
      returns (reply: Reply)
      requires Valid()
      modifies this
      ensures Valid() && OnlyBlocksChanged()
      ensures !(IsTeacher(actor) && pinCreator == actor.id) ==>
        reply == NothingToDo && blocks == old(blocks) && nextBlockId == old(nextBlockId)
      ensures IsTeacher(actor) && pinCreator == actor.id && !PinFormIndexable(form) ==>
        reply == Refused(ServerError) && blocks == old(blocks) && nextBlockId == old(nextBlockId)
      ensures IsTeacher(actor) && pinCreator == actor.id && PinFormIndexable(form) ==> (
        reply == Success &&
        blocks == OtherTeachers(old(blocks), actor.id) + FreshBlocks(PinRows(form), actor.id, old(nextBlockId)) &&
        nextBlockId == old(nextBlockId) + |PinRows(form)|)
    {
      if !(IsTeacher(actor) && pinCreator == actor.id) {
        return NothingToDo;
      }
      var ok, rows := InsertPinForm(OtherTeachers(blocks, actor.id), Week(form), actor.id, nextBlockId);
      if !ok {
        return Refused(ServerError);
      }
      ReplaceKeepsInvariants(blocks, actor.id, nextBlockId, PinRows(form));
      SetBlocks(rows, nextBlockId + |PinRows(form)|);
      reply := Success;
    }

    /** Commits a new availability table. */
    method SetBlocks(rows: seq<Block>, next: int)
      requires Valid() && BlockTable(rows, next)
      modifies this
      ensures Valid() && OnlyBlocksChanged() && blocks == rows && nextBlockId == next
    {
      blocks, nextBlockId := rows, next;
    }

    /** `delete_availability_block`. */
    method DeleteAvailabilityBlock(actor: Actor, blockId: int) returns (reply: Reply)
      requires Valid()
      modifies this
      ensures Valid() && OnlyBlocksChanged() && nextBlockId == old(nextBlockId)
      ensures match DeleteBlockVerdict(old(blocks), actor, blockId)
        case Reject(f) => reply == Refused(f) && blocks == old(blocks)
        case Accept(rows) => reply == Success && blocks == rows
    {
      match DeleteBlockVerdict(blocks, actor, blockId)
      case Reject(f) =>
        reply := Refused(f);
      case Accept(rows) =>
        KeepBlockIds(blocks, (b: Block) => b.id != blockId, nextBlockId);
        forall i | 0 <= i < |rows|
          ensures rows[i].isAvailable == 1
        {
          assert rows[i] in blocks;
        }
        blocks := rows;
        reply := Success;
    }

    /** `set_day_free`: the upsert on `availability_overrides`. */
    method SetDayFree(actor: Actor, date: Option<string>, isFreeField: Option<string>) returns (reply: Reply)
      requires Valid()
      modifies this
      ensures Valid()
      ensures bookings == old(bookings) && blocks == old(blocks) && pricing == old(pricing) &&
        balances == old(balances) && notifications == old(notifications) &&
        nextBookingId == old(nextBookingId) && nextBlockId == old(nextBlockId)
      ensures match DayFreeVerdict(old(overrides), old(nextOverrideId), actor, date, isFreeField)
        case Reject(f) => reply == Refused(f) && overrides == old(overrides) && nextOverrideId == old(nextOverrideId)
        case Accept(u) =>
          reply == Success && overrides == ApplyUpsert(old(overrides), u) &&
          nextOverrideId == if u.Insert? then old(nextOverrideId) + 1 else old(nextOverrideId)
    {
      match DayFreeVerdict(overrides, nextOverrideId, actor, date, isFreeField)
      case Reject(f) =>
        reply := Refused(f);
      case Accept(u) =>
        UpsertKeepsInvariants(overrides, nextOverrideId, actor, date, isFreeField);
        overrides := ApplyUpsert(overrides, u);
        if u.Insert? {
          nextOverrideId := nextOverrideId + 1;
        }
        reply := Success;
    }

    // -------------------------------------------------------------------
    // balances

    /** `deposit`. */
    method Deposit(actor: Actor, amount: Option<real>) returns (reply: Reply)
      requires Valid()
      modifies this
      ensures Valid() && OnlyBalancesChanged()
      ensures match Ledger.Deposit(old(balances), actor, amount)
        case Reject(f) => reply == Refused(f) && balances == old(balances)
        case Accept(after) => reply == Success && balances == after
    {
      match Ledger.Deposit(balances, actor, amount)
      case Reject(f) =>
        reply := Refused(f);
      case Accept(after) =>
        balances := after;
        reply := Success;
    }

    /** `withdraw`. */
    method Withdraw(actor: Actor, amount: Option<real>) returns (reply: Reply)
      requires Valid()
      modifies this
      ensures Valid() && OnlyBalancesChanged()
      ensures match Ledger.Withdraw(old(balances), actor, amount)
        case Reject(f) => reply == Refused(f) && balances == old(balances)
        case Accept(after) => reply == Success && balances == after
    {
      match Ledger.Withdraw(balances, actor, amount)
      case Reject(f) =>
        reply := Refused(f);
      case Accept(after) =>
        balances := after;
        reply := Success;
    }

    /** `update_lesson_payment`. */
    method UpdateLessonPayment(bookingId: Option<int>, status: Option<string>) returns (reply: Reply)
      requires Valid()
      modifies this
      ensures Valid() && OnlyBalancesChanged()
      ensures match LessonPayment(old(bookings), old(balances), bookingId, status)
        case Reject(f) => reply == Refused(f) && balances == old(balances)
        case Accept(after) => reply == Success && balances == after
    {
      match LessonPayment(bookings, balances, bookingId, status)
      case Reject(f) =>
        reply := Refused(f);
      case Accept(after) =>
        balances := after;
        reply := Success;
    }

    /**
      * The booking debit with the balance compared against the price it
      * takes; the price is recorded on the booking.
      */
    method ProcessBookingPayment(bookingId: int, student: int, teacher: int, mode: string) returns (ok: bool)
      requires Valid()
      modifies this
      ensures Valid()
      ensures blocks == old(blocks) && overrides == old(overrides) && pricing == old(pricing) &&
        notifications == old(notifications) &&
        nextBookingId == old(nextBookingId) && nextBlockId == old(nextBlockId) && nextOverrideId == old(nextOverrideId)
      ensures match PaymentChecked(old(balances), pricing, student, teacher, mode)
        case Reject(_) => !ok && balances == old(balances) && bookings == old(bookings)
        case Accept(after) =>
          ok && balances == after &&
          bookings == RecordAmount(old(bookings), bookingId, LessonPrice(pricing, teacher, mode))
    {
      match PaymentChecked(balances, pricing, student, teacher, mode)
      case Reject(_) =>
        ok := false;
      case Accept(after) =>
        RecordAmountKeepsInvariants(bookings, nextBookingId, bookingId, LessonPrice(pricing, teacher, mode));
        balances := after;
        bookings := RecordAmount(bookings, bookingId, LessonPrice(pricing, teacher, mode));
        ok := true;
    }

    // -------------------------------------------------------------------
    // reading

    /** `get_booking_stats` for the actor. */
    method BookingStats(actor: Actor) returns (stats: Stats.BookingStats)
      ensures stats == Tally(SelectRows(bookings, actor), |SelectRows(bookings, actor)|)
    {
      stats := BookingStatsOf(bookings, actor);
    }
  }

  /**
    * The insert loop of `save_teacher_availability` after the DELETE left
    * `kept`: one available block per element under consecutive ids from
    * `next`, collecting the new ids; `ok` is false when an element lacks
    * a column.
    */
  method InsertInputs(kept: seq<Block>, inputs: seq<BlockInput>, teacher: int, next: int)
    returns (ok: bool, rows: seq<Block>, newIds: seq<int>)
    ensures ok <==> SaveSpecs(inputs).Some?
    ensures ok ==> rows == kept + FreshBlocks(SaveSpecs(inputs).value, teacher, next)
    ensures ok ==> |newIds| == |inputs| && forall k :: 0 <= k < |newIds| ==> newIds[k] == next + k
  {
    rows, newIds := kept, [];
    ghost var specs: seq<BlockSpec> := [];
    for i := 0 to |inputs|
      invariant |specs| == i && forall k :: 0 <= k < i ==> InputComplete(inputs[k]) && specs[k] == SpecOf(inputs[k])
      invariant rows == kept + FreshBlocks(specs, teacher, next)
      invariant |newIds| == i && forall k :: 0 <= k < i ==> newIds[k] == next + k
    {
      var input := inputs[i];
      if !InputComplete(input) {
        return false, rows, newIds;
      }
      var s := SpecOf(input);
      ReplaceSnoc(kept, specs, s, teacher, next);
      rows := rows + [Block(next + i, teacher, s.day, s.start, s.end, 1, s.mode)];
      newIds := newIds + [next + i];
      specs := specs + [s];
    }
    assert specs == SaveSpecs(inputs).value;
    ok := true;
  }

  /**
    * The nested insert loop of the `update_calendar` form after the DELETE
    * left `kept`; `ok` is false when some weekday has fewer ends or modes
    * than starts (the IndexError).
    */
  method InsertPinForm(kept: seq<Block>, week: seq<DayEntries>, teacher: int, next: int)
    returns (ok: bool, rows: seq<Block>)
    ensures ok <==> IndexableBefore(week, |week|)
    ensures ok ==> rows == kept + FreshBlocks(PinSpecs(week, |week|), teacher, next)
  {
    rows := kept;
    var id := next;
    for day: nat := 0 to |week|
      invariant IndexableBefore(week, day)
      invariant rows == kept + FreshBlocks(PinSpecs(week, day), teacher, next)
      invariant id == next + |PinSpecs(week, day)|
    {
      var starts, ends, modes := week[day].starts, week[day].ends, week[day].modes;
      var dayOk, added, id' := InsertDay(starts, ends, modes, day, teacher, id);
      if !dayOk {
        IndexableBeforeStop(week, day, |week|);
        return false, rows;
      }
      PinSpecsStep(week, day);
      ReplaceAppend(kept, PinSpecs(week, day), EntryRows(week[day], day), PinSpecs(week, day + 1), teacher, next, added);
      rows, id := rows + added, id';
    }
    ok := true;
  }

  /**
    * The inner loop for one weekday: the blocks of its complete entries,
    * under consecutive ids from `id`; `ok` is false when an end or a mode
    * is missing for some start.
    */
  method InsertDay(starts: seq<string>, ends: seq<string>, modes: seq<string>, day: int, teacher: int, id: int)
    returns (ok: bool, added: seq<Block>, id': int)
    ensures ok <==> |ends| >= |starts| && |modes| >= |starts|
    ensures ok ==> added == FreshBlocks(DayRows(starts, ends, modes, day, |starts|), teacher, id)
    ensures ok ==> id' == id + |DayRows(starts, ends, modes, day, |starts|)|
  {
    added, id' := [], id;
    var i := 0;
    while i < |starts|
      invariant 0 <= i <= |starts| && i <= |ends| && i <= |modes|
      invariant added == FreshBlocks(DayRows(starts, ends, modes, day, i), teacher, id)
      invariant id' == id + |DayRows(starts, ends, modes, day, i)|
    {
      if i >= |ends| || i >= |modes| {
        return false, added, id';
      }
      var start, end, mode := starts[i], ends[i], modes[i];
      if start != "" && end != "" && mode != "" {
        DayRowsInsert(starts, ends, modes, day, i, teacher, id, added);
        added := added + [Block(id', teacher, day, start, end, 1, mode)];
        id' := id' + 1;
      } else {
        DayRowsSkip(starts, ends, modes, day, i);
      }
      i := i + 1;
    }
    ok := true;
  }
}
