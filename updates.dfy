/**
  * The handlers that rewrite one booking row and notify the other party:
  * `cancel_booking`, `update_lesson_status` and `update_crm_booking`.
  */
module Updates {
  import opened Wrappers
  import opened Tables
  import opened Engine

  /** The row at `index` becomes `row`; `notice` is the notification inserted with it, if any. */
  datatype Update = Update(index: nat, row: Booking, notice: Option<Notification>)

  /** The update rewrites an existing row without touching its id or its slot key. */
  predicate KeepsIdentity(bookings: seq<Booking>, u: Update) {
    u.index < |bookings| && u.row.id == bookings[u.index].id && KeyOf(u.row) == KeyOf(bookings[u.index])
  }

  /** The table after the update. */
  function Apply(bookings: seq<Booking>, u: Update): seq<Booking>
    requires u.index < |bookings|
  {
    bookings[u.index := u.row]
  }

  /** The notifications after the update. */
  function Notify(notifications: seq<Notification>, notice: Option<Notification>): seq<Notification> {
    match notice
      case None => notifications
      case Some(n) => notifications + [n]
  }

  /** Rewriting a row in place with the same id and key keeps both table invariants. */
  lemma UpdateKeepsInvariants(bookings: seq<Booking>, next: int, u: Update)
    requires UniqueSlots(bookings) && IdsBelow(Ids(bookings, BookingId), next) && KeepsIdentity(bookings, u)
    ensures UniqueSlots(Apply(bookings, u))
    ensures IdsBelow(Ids(Apply(bookings, u), BookingId), next)
  {
    var after := Apply(bookings, u);
    assert Ids(after, BookingId) == Ids(bookings, BookingId);
    forall i, j | 0 <= i < j < |after|
      ensures KeyOf(after[i]) != KeyOf(after[j])
    {
      assert KeyOf(after[i]) == KeyOf(bookings[i]) && KeyOf(after[j]) == KeyOf(bookings[j]);
    }
  }

  /** With increasing ids, the row a lookup by id finds is the only one the UPDATE ... WHERE id = ? touches. */
  lemma IdNamesOneRow(bookings: seq<Booking>, next: int, k: int, j: int)
    requires IdsBelow(Ids(bookings, BookingId), next) && 0 <= k < |bookings| && 0 <= j < |bookings|
    requires bookings[j].id == bookings[k].id
    ensures j == k
  {
  }

  // ---------------------------------------------------------------------
  // cancel_booking

  /** The notice a cancellation sends: to the teacher unless the teacher cancels, else to the student unless the student cancels. */
  function CancelNotice(b: Booking, actor: Actor): (n: Option<Notification>)
    ensures n.Some? ==> n.value.recipient != actor.id && n.value.sender.None?
    ensures n.Some? ==> n.value.recipient == b.teacherId || n.value.recipient == b.studentId
    ensures n.None? <==> b.teacherId == actor.id && b.studentId == actor.id
    ensures b.teacherId != actor.id ==> n == Some(Notification(b.teacherId, None))
  {
    if b.teacherId != actor.id then Some(Notification(b.teacherId, None))
    else if b.studentId != actor.id then Some(Notification(b.studentId, None))
    else None
  }

  /** The row `SELECT * FROM bookings WHERE id = ? AND status = 'active'` fetches first. */
  function ActiveRow(bookings: seq<Booking>, id: int): (r: Option<nat>)
    ensures r.Some? ==> r.value < |bookings| && bookings[r.value].id == id && bookings[r.value].status == "active"
    ensures r.None? <==> forall i :: 0 <= i < |bookings| ==> !(bookings[i].id == id && bookings[i].status == "active")
  {
    Find(bookings, (b: Booking) => b.id == id && b.status == "active")
  }

  /** The student, the teacher or an admin may cancel a booking. */
  predicate MayCancel(b: Booking, actor: Actor) {
    b.studentId == actor.id || b.teacherId == actor.id || actor.role == "admin"
  }

  /**
    * What `/api/cancel_booking` does: only an active row with that id can
    * be cancelled, and only by its student, its teacher or an admin.
    */
  function CancelVerdict(bookings: seq<Booking>, actor: Actor, bookingId: Option<int>): (v: Verdict<Update>)
    ensures v == Reject(MissingFields) <==> (bookingId.None? || bookingId.value == 0)
    ensures v == Reject(NotFound) <==> (bookingId.Some? && bookingId.value != 0 &&
      forall i :: 0 <= i < |bookings| ==> !(bookings[i].id == bookingId.value && bookings[i].status == "active"))
    ensures v == Reject(Unauthorized) <==> (bookingId.Some? && bookingId.value != 0 &&
      var r := ActiveRow(bookings, bookingId.value); r.Some? && !MayCancel(bookings[r.value], actor))
    ensures v.Reject? ==> v.failure in {MissingFields, NotFound, Unauthorized}
    ensures v.Accept? <==> (bookingId.Some? && bookingId.value != 0 &&
      var r := ActiveRow(bookings, bookingId.value); r.Some? && MayCancel(bookings[r.value], actor))
    ensures v.Accept? ==> (bookingId.Some? && KeepsIdentity(bookings, v.value) &&
      var old_ := bookings[v.value.index];
      old_.id == bookingId.value && old_.status == "active" &&
      v.value.row == old_.(status := "cancelled") &&
      (actor.id == old_.studentId || actor.id == old_.teacherId || actor.role == "admin") &&
      v.value.notice == CancelNotice(old_, actor))
    ensures v == Reject(Unauthorized) ==> (bookingId.Some? &&
      exists i :: 0 <= i < |bookings| && bookings[i].id == bookingId.value && bookings[i].status == "active" &&
        actor.id != bookings[i].studentId && actor.id != bookings[i].teacherId && actor.role != "admin")
  {
    if bookingId.None? || bookingId.value == 0 then Reject(MissingFields)
    else match ActiveRow(bookings, bookingId.value)
      case None => Reject(NotFound)
      case Some(k) =>
        var b := bookings[k];
        if !MayCancel(b, actor) then Reject(Unauthorized)
        else Accept(Update(k, b.(status := "cancelled"), CancelNotice(b, actor)))
  }

  /** A row that is no longer active cannot be cancelled (again), whoever asks. */
  lemma CancelNeedsActive(bookings: seq<Booking>, next: int, actor: Actor, k: int)
    requires IdsBelow(Ids(bookings, BookingId), next) && 0 <= k < |bookings| && bookings[k].id != 0
    requires bookings[k].status != "active"
    ensures CancelVerdict(bookings, actor, Some(bookings[k].id)) == Reject(NotFound)
  {
    var v := CancelVerdict(bookings, actor, Some(bookings[k].id));
    if v.Accept? {
      IdNamesOneRow(bookings, next, k, v.value.index);
    } else if v.Reject? && v.failure == Unauthorized {
      var i :| 0 <= i < |bookings| && bookings[i].id == bookings[k].id && bookings[i].status == "active" &&
        actor.id != bookings[i].studentId && actor.id != bookings[i].teacherId && actor.role != "admin";
      IdNamesOneRow(bookings, next, k, i);
    }
  }

  // ---------------------------------------------------------------------
  // update_lesson_status

  /** The Polish statuses `update_lesson_status` accepts. */
  predicate LessonStatus(status: string) {
    status == "zaplanowana" || status == "przeprowadzona" || status == "odwolana"
  }

  /** The row `SELECT * FROM bookings WHERE id = ?` fetches first. */
  function RowWithId(bookings: seq<Booking>, id: int): (r: Option<nat>)
    ensures r.Some? ==> r.value < |bookings| && bookings[r.value].id == id
    ensures r.None? <==> forall i :: 0 <= i < |bookings| ==> bookings[i].id != id
  {
    Find(bookings, (b: Booking) => b.id == id)
  }

  /** The student or the teacher of the lesson; admins are not parties. */
  predicate IsParty(b: Booking, actor: Actor) {
    b.studentId == actor.id || b.teacherId == actor.id
  }

  /**
    * What `cancellation_reason` becomes. `reason` is `None` for an absent key,
    * `Some(None)` for a null and `Some(Some(t))` for a text: for `odwolana`
    * an absent key reads as "" and a null is stored as NULL; any other
    * status stores "".
    */
  function StoredReason(status: string, reason: Option<Option<string>>): (r: Option<string>)
    ensures status != "odwolana" ==> r == Some("")
    ensures status == "odwolana" && reason.None? ==> r == Some("")
    ensures status == "odwolana" && reason.Some? ==> r == reason.value
  {
    if status == "odwolana" then reason.GetOr(Some("")) else Some("")
  }

  /**
    * What `/api/update_lesson_status` does: the student or the teacher of
    * the row (any status) sets one of the Polish statuses; the reason is
    * kept only for `odwolana` and blanked otherwise; the other party is
    * notified with the actor as sender.
    */
  function LessonStatusVerdict(bookings: seq<Booking>, actor: Actor, bookingId: Option<int>,
                               status: Option<string>, reason: Option<Option<string>>): (v: Verdict<Update>)
    ensures v == Reject(MissingFields) <==> (bookingId.None? || bookingId.value == 0 || !Filled(status))
    ensures v == Reject(NotFound) <==> (bookingId.Some? && bookingId.value != 0 && Filled(status) &&
      forall i :: 0 <= i < |bookings| ==> bookings[i].id != bookingId.value)
    ensures v == Reject(Unauthorized) <==> (bookingId.Some? && bookingId.value != 0 && Filled(status) &&
      var r := RowWithId(bookings, bookingId.value); r.Some? && !IsParty(bookings[r.value], actor))
    ensures v == Reject(InvalidValue) <==> (bookingId.Some? && bookingId.value != 0 && Filled(status) &&
      var r := RowWithId(bookings, bookingId.value);
      r.Some? && IsParty(bookings[r.value], actor) && !LessonStatus(status.value))
    ensures v.Reject? ==> v.failure in {MissingFields, NotFound, Unauthorized, InvalidValue}
    ensures v.Accept? <==> (bookingId.Some? && bookingId.value != 0 && Filled(status) &&
      var r := RowWithId(bookings, bookingId.value);
      r.Some? && IsParty(bookings[r.value], actor) && LessonStatus(status.value))
    ensures v.Accept? ==> (bookingId.Some? && Filled(status) && LessonStatus(status.value) &&
      KeepsIdentity(bookings, v.value) &&
      var old_ := bookings[v.value.index];
      old_.id == bookingId.value && (actor.id == old_.studentId || actor.id == old_.teacherId) &&
      v.value.row == old_.(status := status.value,
                           cancellationReason := if status.value == "odwolana" then reason.GetOr(Some("")) else Some("")))
    ensures v.Accept? ==> (
      var old_ := bookings[v.value.index];
      v.value.notice.Some? && v.value.notice.value.sender == Some(actor.id) &&
      v.value.notice.value.recipient == if actor.id == old_.teacherId then old_.studentId else old_.teacherId)
  {
    if bookingId.None? || bookingId.value == 0 || !Filled(status) then Reject(MissingFields)
    else match RowWithId(bookings, bookingId.value)
      case None => Reject(NotFound)
      case Some(k) =>
        var b := bookings[k];
        if !IsParty(b, actor) then Reject(Unauthorized)
        else if !LessonStatus(status.value) then Reject(InvalidValue)
        else
          var target := if b.teacherId == actor.id then b.studentId else b.teacherId;
          Accept(Update(k, b.(status := status.value, cancellationReason := StoredReason(status.value, reason)),
                        Some(Notification(target, Some(actor.id)))))
  }

  /** Admins are refused: only the two parties of the lesson may change its status. */
  lemma LessonStatusOnlyParties(bookings: seq<Booking>, next: int, actor: Actor, k: int,
                                status: Option<string>, reason: Option<Option<string>>)
    requires IdsBelow(Ids(bookings, BookingId), next) && 0 <= k < |bookings| && bookings[k].id != 0
    requires actor.id != bookings[k].studentId && actor.id != bookings[k].teacherId && Filled(status)
    ensures LessonStatusVerdict(bookings, actor, Some(bookings[k].id), status, reason) == Reject(Unauthorized)
  {
    var p := (b: Booking) => b.id == bookings[k].id;
    FindUniqueId(bookings, next, k, p);
  }

  /** No transition guard: a cancelled lesson can be marked as held. */
  lemma LessonStatusNoGuard(bookings: seq<Booking>, next: int, actor: Actor, k: int, status: string)
    requires IdsBelow(Ids(bookings, BookingId), next) && 0 <= k < |bookings| && bookings[k].id != 0
    requires bookings[k].status == "odwolana" && actor.id == bookings[k].teacherId
    requires status == "przeprowadzona"
    ensures LessonStatusVerdict(bookings, actor, Some(bookings[k].id), Some(status), None).Accept?
  {
    var p := (b: Booking) => b.id == bookings[k].id;
    FindUniqueId(bookings, next, k, p);
  }

  // ---------------------------------------------------------------------
  // update_crm_booking

  /** The English statuses the CRM accepts. */
  predicate CrmStatus(status: string) {
    status == "confirmed" || status == "cancelled" || status == "completed"
  }

  /**
    * What `PUT /api/crm/update_booking/<id>` does: a teacher sets one of
    * the CRM statuses on a row of their own and the student is notified.
    */
  function CrmVerdict(bookings: seq<Booking>, actor: Actor, bookingId: int, status: Option<string>)
    : (v: Verdict<Update>)
    ensures v == Reject(Unauthorized) <==> !IsTeacher(actor)
    ensures v == Reject(NotFound) <==> (IsTeacher(actor) &&
      forall i :: 0 <= i < |bookings| ==> !(bookings[i].id == bookingId && bookings[i].teacherId == actor.id))
    ensures v.Accept? ==> (IsTeacher(actor) && status.Some? && CrmStatus(status.value) &&
      KeepsIdentity(bookings, v.value) &&
      var old_ := bookings[v.value.index];
      old_.id == bookingId && old_.teacherId == actor.id &&
      v.value.row == old_.(status := status.value) &&
      v.value.notice == Some(Notification(old_.studentId, Some(actor.id))))
    ensures v == Reject(InvalidValue) <==> (IsTeacher(actor) &&
      (exists i :: 0 <= i < |bookings| && bookings[i].id == bookingId && bookings[i].teacherId == actor.id) &&
      !(status.Some? && CrmStatus(status.value)))
    ensures v.Reject? ==> v.failure in {Unauthorized, NotFound, InvalidValue}
    ensures v.Accept? <==> (IsTeacher(actor) && status.Some? && CrmStatus(status.value) &&
      exists i :: 0 <= i < |bookings| && bookings[i].id == bookingId && bookings[i].teacherId == actor.id)
  {
    if !IsTeacher(actor) then Reject(Unauthorized)
    else match Find(bookings, (b: Booking) => b.id == bookingId && b.teacherId == actor.id)
      case None => Reject(NotFound)
      case Some(k) =>
        if status.None? || !CrmStatus(status.value) then Reject(InvalidValue)
        else
          var b := bookings[k];
          Accept(Update(k, b.(status := status.value), Some(Notification(b.studentId, Some(actor.id)))))
  }

  /** No transition guard: a cancelled booking can be set to completed. */
  lemma CrmNoGuard(bookings: seq<Booking>, actor: Actor, k: int, status: string)
    requires IsTeacher(actor) && 0 <= k < |bookings| && bookings[k].teacherId == actor.id
    requires bookings[k].status == "cancelled" && status == "completed"
    ensures CrmVerdict(bookings, actor, bookings[k].id, Some(status)).Accept?
  {
    assert bookings[k].id == bookings[k].id && bookings[k].teacherId == actor.id;
  }
}
