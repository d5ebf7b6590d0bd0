/**
  * The rows of the SQLite tables the booking engine reads and writes
  * (`bookings`, `teacher_availability`, `availability_overrides`,
  * `teacher_pricing`, `user_balances`, `notifications`), the acting user,
  * the ways a request can be refused, and the two UNIQUE constraints of
  * the schema.
  */
module Tables {
  import opened Wrappers

  /**
    * A row of `bookings`. The table as created has no `amount` column; the
    * ledger reads one, so the model carries it as optional and every
    * booking is created without it.
    */
  datatype Booking = Booking(
    id: int,
    teacherId: int,
    studentId: int,
    dayOfWeek: int,
    timeSlot: string,
    bookingDate: string,
    lessonMode: string,
    status: string,
    notes: Option<string>,
    priceOnline: real,
    priceInPerson: real,
    cancellationReason: Option<string>,
    amount: Option<real>)

  /** A row of `teacher_availability`: a weekly block a teacher offers. */
  datatype Block = Block(
    id: int,
    teacherId: int,
    dayOfWeek: int,
    startTime: string,
    endTime: string,
    isAvailable: int,
    teachingMode: string)

  /** A row of `availability_overrides`: a date a teacher marked free or not. */
  datatype Override = Override(id: int, teacherId: int, date: string, isFree: bool)

  /** A row of `notifications`, without its message text. */
  datatype Notification = Notification(recipient: int, sender: Option<int>)

  /** A row of `teacher_pricing`. */
  datatype Pricing = Pricing(online: real, inPerson: real)

  /** The prices used when a teacher has no `teacher_pricing` row. */
  const DefaultPricing: Pricing := Pricing(80.0, 100.0)

  function PricingFor(pricing: map<int, Pricing>, teacherId: int): Pricing {
    if teacherId in pricing then pricing[teacherId] else DefaultPricing
  }

  /** A JSON or form string field that is present and non-empty (Python truthiness). */
  predicate Filled(s: Option<string>) {
    s.Some? && s.value != ""
  }

  /** The logged-in user: the session's `user_id` and `user_role` name. */
  datatype Actor = Actor(id: int, role: string)

  /** The roles the CRM, availability and withdrawal endpoints admit. */
  predicate IsTeacher(actor: Actor) {
    actor.role == "teacher" || actor.role == "regional_teacher"
  }

  /** Why a request changed nothing. */
  datatype Failure =
    | Unauthorized          // 401/403: wrong role or not a party to the booking
    | MissingFields         // 400: a required field is absent or empty
    | InvalidValue          // 400: a status, amount or date the endpoint does not accept
    | NotFound              // 404: no such row, or not one the actor owns
    | SlotUnavailable       // no available block for the requested time
    | ModeNotAllowed        // the block does not offer the requested lesson mode
    | SlotAlreadyBooked     // the pre-check found the slot taken
    | StudentDoubleBooking  // the student already has an active lesson then
    | InsufficientFunds
    | StorageConflict       // the insert hit UNIQUE(teacher_id, day_of_week, time_slot, booking_date)
    | ServerError           // an exception the handler turns into a 500 before committing

  /** What a request answered. */
  datatype Reply = Success | NothingToDo | Refused(failure: Failure)

  /** A decision that either yields a value to write or refuses. */
  datatype Verdict<+T> = Accept(value: T) | Reject(failure: Failure)

  /** The columns of `UNIQUE(teacher_id, day_of_week, time_slot, booking_date)`. */
  datatype SlotKey = SlotKey(teacherId: int, dayOfWeek: int, timeSlot: string, bookingDate: string)

  function KeyOf(b: Booking): SlotKey {
    SlotKey(b.teacherId, b.dayOfWeek, b.timeSlot, b.bookingDate)
  }

  /** The UNIQUE constraint of `bookings`: no two rows share a key, whatever their status. */
  predicate UniqueSlots(bookings: seq<Booking>) {
    forall i, j :: 0 <= i < j < |bookings| ==> KeyOf(bookings[i]) != KeyOf(bookings[j])
  }

  /** Some row of `bookings` holds `key`. */
  predicate KeyTaken(bookings: seq<Booking>, key: SlotKey) {
    exists i :: 0 <= i < |bookings| && KeyOf(bookings[i]) == key
  }

  /** The UNIQUE constraint of `availability_overrides`: one row per (teacher, date). */
  predicate UniqueOverrides(overrides: seq<Override>) {
    forall i, j :: 0 <= i < j < |overrides| ==>
      (overrides[i].teacherId, overrides[i].date) != (overrides[j].teacherId, overrides[j].date)
  }

  /** AUTOINCREMENT: ids grow along the table and stay below the next id to hand out. */
  predicate IdsBelow(ids: seq<int>, next: int) {
    (forall i, j :: 0 <= i < j < |ids| ==> ids[i] < ids[j]) &&
    (forall i :: 0 <= i < |ids| ==> 1 <= ids[i] < next)
  }

  /** The id column of a table, in table order; `id` reads the column from a row. */
  function Ids<T>(rows: seq<T>, id: T -> int): (ids: seq<int>)
    ensures |ids| == |rows| && forall i :: 0 <= i < |ids| ==> ids[i] == id(rows[i])
  {
    seq(|rows|, i requires 0 <= i < |rows| => id(rows[i]))
  }

  function BookingId(b: Booking): int { b.id }

  function BlockId(b: Block): int { b.id }

  function OverrideId(o: Override): int { o.id }

  /** Appending the next id keeps ids increasing, under a larger next id. */
  lemma IdsBelowAppend(ids: seq<int>, next: int)
    requires IdsBelow(ids, next) && next >= 1
    ensures IdsBelow(ids + [next], next + 1)
  {
  }

  lemma BlockIdsConcat(a: seq<Block>, b: seq<Block>)
    ensures Ids(a + b, BlockId) == Ids(a, BlockId) + Ids(b, BlockId)
  {
    assert |Ids(a + b, BlockId)| == |Ids(a, BlockId) + Ids(b, BlockId)|;
  }

  /** A run of consecutive ids from `next` on keeps ids increasing. */
  lemma IdsBelowRun(ids: seq<int>, run: seq<int>, next: int)
    requires IdsBelow(ids, next) && next >= 1
    requires forall k :: 0 <= k < |run| ==> run[k] == next + k
    ensures IdsBelow(ids + run, next + |run|)
  {
    var all := ids + run;
    forall i, j | 0 <= i < j < |all|
      ensures all[i] < all[j]
    {
      if j >= |ids| && i < |ids| {
        assert all[i] == ids[i] && all[j] == run[j - |ids|];
      }
    }
  }

  /** `fetchone()` on a query without ORDER BY: the first row, in table order, that matches. */
  function Find<T>(rows: seq<T>, p: T -> bool): (r: Option<nat>)
    ensures r.Some? ==> r.value < |rows| && p(rows[r.value])
    ensures r.Some? ==> forall j :: 0 <= j < r.value ==> !p(rows[j])
    ensures r.None? ==> forall j :: 0 <= j < |rows| ==> !p(rows[j])
  {
    if rows == [] then None
    else if p(rows[0]) then Some(0)
    else match Find(rows[1..], p)
      case None => None
      case Some(k) => Some(k + 1)
  }

  /** Only a row with a unique id can match a lookup by that id. */
  lemma FindUniqueId(bookings: seq<Booking>, next: int, k: nat, p: Booking -> bool)
    requires IdsBelow(Ids(bookings, BookingId), next) && k < |bookings|
    requires forall b :: p(b) ==> b.id == bookings[k].id
    requires p(bookings[k])
    ensures Find(bookings, p) == Some(k)
  {
  }

  /** The rows that satisfy `p`, in table order: a `DELETE ... WHERE not p` keeps these. */
  function Keep<T>(rows: seq<T>, p: T -> bool): (r: seq<T>)
    ensures |r| <= |rows|
    ensures forall x :: x in r ==> x in rows && p(x)
    ensures forall x :: x in rows && p(x) ==> x in r
  {
    if rows == [] then []
    else if p(rows[0]) then [rows[0]] + Keep(rows[1..], p)
    else Keep(rows[1..], p)
  }

  /** Deleting rows keeps the ids of the rest increasing. */
  lemma {:induction false} KeepBlockIds(blocks: seq<Block>, p: Block -> bool, next: int)
    requires IdsBelow(Ids(blocks, BlockId), next)
    ensures IdsBelow(Ids(Keep(blocks, p), BlockId), next)
  {
    if blocks != [] {
      var rest := blocks[1..];
      BlockIdsTail(blocks, next);
      KeepBlockIds(rest, p, next);
      if p(blocks[0]) {
        var r := Keep(rest, p);
        forall x | x in r
          ensures blocks[0].id < x.id
        {
          BlockIdsHead(blocks, next, x);
        }
        BlockIdsCons(blocks[0], r, next);
        assert Keep(blocks, p) == [blocks[0]] + r;
      }
    }
  }

  lemma BlockIdsTail(blocks: seq<Block>, next: int)
    requires blocks != [] && IdsBelow(Ids(blocks, BlockId), next)
    ensures IdsBelow(Ids(blocks[1..], BlockId), next)
  {
    var ids := Ids(blocks, BlockId);
    var tail := Ids(blocks[1..], BlockId);
    forall i, j | 0 <= i < j < |tail|
      ensures tail[i] < tail[j]
    {
      assert tail[i] == ids[i + 1] && tail[j] == ids[j + 1];
    }
    forall i | 0 <= i < |tail|
      ensures 1 <= tail[i] < next
    {
      assert tail[i] == ids[i + 1];
    }
  }

  lemma BlockIdsHead(blocks: seq<Block>, next: int, x: Block)
    requires blocks != [] && IdsBelow(Ids(blocks, BlockId), next) && x in blocks[1..]
    ensures blocks[0].id < x.id
  {
    var j :| 0 <= j < |blocks| - 1 && blocks[1..][j] == x;
    assert Ids(blocks, BlockId)[0] < Ids(blocks, BlockId)[j + 1];
  }

  lemma BlockIdsCons(b: Block, r: seq<Block>, next: int)
    requires IdsBelow(Ids(r, BlockId), next) && 1 <= b.id < next
    requires forall x :: x in r ==> b.id < x.id
    ensures IdsBelow(Ids([b] + r, BlockId), next)
  {
    var ids := Ids([b] + r, BlockId);
    forall i, j | 0 <= i < j < |ids|
      ensures ids[i] < ids[j]
    {
      assert ([b] + r)[j] == r[j - 1];
      if i > 0 {
        assert ([b] + r)[i] == r[i - 1];
        assert Ids(r, BlockId)[i - 1] < Ids(r, BlockId)[j - 1];
      }
    }
  }
}
