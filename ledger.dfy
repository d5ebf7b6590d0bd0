/**
  * The balance ledger over `user_balances`: reading a balance, deposits,
  * teacher withdrawals, the lesson payment hook and the booking debit.
  * Amounts are exact reals (the source uses binary floats).
  */
module Ledger {
  import opened Wrappers
  import opened Tables

  /** `get_balance`: the stored balance, or 0.0 for a user without a row. */
  function GetBalance(balances: map<int, real>, user: int): (r: real)
    ensures user !in balances ==> r == 0.0
    ensures user in balances ==> r == balances[user]
  {
    if user in balances then balances[user] else 0.0
  }

  /** `UPDATE user_balances SET balance = balance + ? WHERE user_id = ?`: only an existing row changes. */
  function Credit(balances: map<int, real>, user: int, amount: real): (r: map<int, real>)
    ensures r.Keys == balances.Keys
    ensures user in balances ==> GetBalance(r, user) == GetBalance(balances, user) + amount
    ensures forall u :: u != user ==> GetBalance(r, u) == GetBalance(balances, u)
    ensures user !in balances ==> r == balances
  {
    if user in balances then balances[user := balances[user] + amount] else balances
  }

  /** `not amount or amount <= 0`: absent, zero or negative. */
  predicate InvalidAmount(amount: Option<real>) {
    amount.None? || amount.value <= 0.0
  }

  /** What `/api/deposit` does for `actor`: any logged-in user adds a positive amount to their own row, if they have one. */
  function Deposit(balances: map<int, real>, actor: Actor, amount: Option<real>): (v: Verdict<map<int, real>>)
    ensures v == Reject(InvalidValue) <==> InvalidAmount(amount)
    ensures v.Reject? ==> v.failure == InvalidValue
    ensures v.Accept? ==> (amount.Some? && amount.value > 0.0 &&
      v.value.Keys == balances.Keys &&
      (actor.id in balances ==> GetBalance(v.value, actor.id) == GetBalance(balances, actor.id) + amount.value) &&
      (actor.id !in balances ==> v.value == balances) &&
      forall u :: u != actor.id ==> GetBalance(v.value, u) == GetBalance(balances, u))
  {
    if InvalidAmount(amount) then Reject(InvalidValue)
    else Accept(Credit(balances, actor.id, amount.value))
  }

  /**
    * What `/api/withdraw` does for `actor`: a teacher takes a positive
    * amount no larger than their balance out of their own row.
    */
  function Withdraw(balances: map<int, real>, actor: Actor, amount: Option<real>): (v: Verdict<map<int, real>>)
    ensures v == Reject(Unauthorized) <==> !IsTeacher(actor)
    ensures v == Reject(InvalidValue) <==> IsTeacher(actor) && InvalidAmount(amount)
    ensures v == Reject(InsufficientFunds) <==>
      (IsTeacher(actor) && !InvalidAmount(amount) && GetBalance(balances, actor.id) < amount.value)
    ensures v.Reject? ==> v.failure in {Unauthorized, InvalidValue, InsufficientFunds}
    ensures v.Accept? <==> (IsTeacher(actor) && !InvalidAmount(amount) && amount.value <= GetBalance(balances, actor.id))
    ensures v.Accept? ==> (amount.Some? && 0.0 < amount.value <= GetBalance(balances, actor.id) &&
      v.value == Credit(balances, actor.id, -amount.value))
  {
    if !IsTeacher(actor) then Reject(Unauthorized)
    else if InvalidAmount(amount) then Reject(InvalidValue)
    else if GetBalance(balances, actor.id) < amount.value then Reject(InsufficientFunds)
    else Accept(Credit(balances, actor.id, -amount.value))
  }

  predicate NonNegative(balances: map<int, real>) {
    forall u :: u in balances ==> balances[u] >= 0.0
  }

  /** A withdrawal never makes a balance negative. */
  lemma WithdrawKeepsNonNegative(balances: map<int, real>, actor: Actor, amount: Option<real>)
    requires NonNegative(balances) && Withdraw(balances, actor, amount).Accept?
    ensures NonNegative(Withdraw(balances, actor, amount).value)
  {
    var after := Withdraw(balances, actor, amount).value;
    forall u | u in after
      ensures after[u] >= 0.0
    {
      assert GetBalance(after, u) == after[u];
    }
  }

  // ---------------------------------------------------------------------
  // update_lesson_payment

  /** The teacher's share of a completed lesson. */
  const TeacherShare: real := 0.85

  predicate IsRefund(status: Option<string>) {
    status == Some("cancelled") || status == Some("odwolana")
  }

  predicate IsPayout(status: Option<string>) {
    status == Some("completed") || status == Some("przeprowadzona")
  }

  /**
    * What `/api/update_lesson_payment` does: with a positive amount on the
    * row, a cancellation refunds the student the amount and a completion
    * pays the teacher 85% of it; anything else changes nothing.
    */
  function LessonPayment(bookings: seq<Booking>, balances: map<int, real>, bookingId: Option<int>,
                         status: Option<string>): (v: Verdict<map<int, real>>)
    ensures v == Reject(NotFound) <==>
      (bookingId.None? || forall i :: 0 <= i < |bookings| ==> bookings[i].id != bookingId.value)
    ensures v.Accept? ==> v.value.Keys == balances.Keys
  {
    if bookingId.None? then Reject(NotFound)
    else match Find(bookings, (b: Booking) => b.id == bookingId.value)
      case None => Reject(NotFound)
      case Some(k) =>
        var b := bookings[k];
        if b.amount.None? || b.amount.value <= 0.0 then Accept(balances)
        else if IsRefund(status) then Accept(Credit(balances, b.studentId, b.amount.value))
        else if IsPayout(status) then Accept(Credit(balances, b.teacherId, TeacherShare * b.amount.value))
        else Accept(balances)
  }

  /** The balance change of a payment: who is credited and how much. */
  function PaymentDue(b: Booking, status: Option<string>): Option<(int, real)> {
    if b.amount.None? || b.amount.value <= 0.0 then None
    else if IsRefund(status) then Some((b.studentId, b.amount.value))
    else if IsPayout(status) then Some((b.teacherId, TeacherShare * b.amount.value))
    else None
  }

  /**
    * The payment touches at most one balance: the credited user's goes up
    * by exactly what is due (if they have a row), every other stays.
    */
  lemma LessonPaymentTouchesOne(bookings: seq<Booking>, balances: map<int, real>, next: int, k: int,
                                status: Option<string>)
    requires IdsBelow(Ids(bookings, BookingId), next) && 0 <= k < |bookings|
    ensures var v := LessonPayment(bookings, balances, Some(bookings[k].id), status);
      v.Accept? &&
      match PaymentDue(bookings[k], status)
        case None => v.value == balances
        case Some(due) =>
          (forall u :: u != due.0 ==> GetBalance(v.value, u) == GetBalance(balances, u)) &&
          (due.0 in balances ==> GetBalance(v.value, due.0) == GetBalance(balances, due.0) + due.1)
  {
    FindUniqueId(bookings, next, k, (b: Booking) => b.id == bookings[k].id);
  }

  /** A refund or payout of a positive amount never lowers a balance. */
  lemma LessonPaymentNeverDebits(bookings: seq<Booking>, balances: map<int, real>, bookingId: Option<int>,
                                 status: Option<string>)
    requires LessonPayment(bookings, balances, bookingId, status).Accept?
    ensures forall u :: GetBalance(LessonPayment(bookings, balances, bookingId, status).value, u) >= GetBalance(balances, u)
  {
  }

  // ---------------------------------------------------------------------
  // process_booking_payment

  /** The price the debit uses: online, or in person for any other mode. */
  function LessonPrice(pricing: map<int, Pricing>, teacher: int, mode: string): real {
    var p := PricingFor(pricing, teacher);
    if mode == "online" then p.online else p.inPerson
  }

  /**
    * `process_booking_payment` as written: the balance is compared with
    * the `amount` argument, but the debit is the looked-up price.
    */
  function PaymentAsWritten(balances: map<int, real>, pricing: map<int, Pricing>, student: int, teacher: int,
                            amount: real, mode: string): (v: Verdict<map<int, real>>)
    ensures v.Reject? <==> GetBalance(balances, student) < amount
    ensures v.Accept? ==> v.value == Credit(balances, student, -LessonPrice(pricing, teacher, mode))
  {
    if GetBalance(balances, student) < amount then Reject(InsufficientFunds)
    else Accept(Credit(balances, student, -LessonPrice(pricing, teacher, mode)))
  }

  /** A student with 50.0, asked for 10.0, is debited the default online price 80.0 and ends at -30.0. */
  lemma PaymentAsWrittenOverdraws(balances: map<int, real>, pricing: map<int, Pricing>)
    requires balances == map[1 := 50.0] && pricing == map[]
    ensures NonNegative(balances)
    ensures PaymentAsWritten(balances, pricing, 1, 2, 10.0, "online") == Accept(map[1 := -30.0])
    ensures !NonNegative(PaymentAsWritten(balances, pricing, 1, 2, 10.0, "online").value)
  {
    assert LessonPrice(pricing, 2, "online") == 80.0;
    assert map[1 := 50.0][1 := 50.0 - 80.0] == map[1 := -30.0];
  }

  /** The debit as intended: the balance is compared with the price actually taken. */
  function PaymentChecked(balances: map<int, real>, pricing: map<int, Pricing>, student: int, teacher: int,
                          mode: string): (v: Verdict<map<int, real>>)
    ensures v.Reject? <==> GetBalance(balances, student) < LessonPrice(pricing, teacher, mode)
    ensures v.Accept? ==> v.value == Credit(balances, student, -LessonPrice(pricing, teacher, mode))
  {
    var price := LessonPrice(pricing, teacher, mode);
    if GetBalance(balances, student) < price then Reject(InsufficientFunds)
    else Accept(Credit(balances, student, -price))
  }

  /** The checked debit never makes a balance negative. */
  lemma PaymentCheckedKeepsNonNegative(balances: map<int, real>, pricing: map<int, Pricing>, student: int,
                                       teacher: int, mode: string)
    requires NonNegative(balances) && PaymentChecked(balances, pricing, student, teacher, mode).Accept?
    ensures NonNegative(PaymentChecked(balances, pricing, student, teacher, mode).value)
  {
    var after := PaymentChecked(balances, pricing, student, teacher, mode).value;
    forall u | u in after
      ensures after[u] >= 0.0
    {
      assert GetBalance(after, u) == after[u];
    }
  }

  // ---------------------------------------------------------------------
  // the booking's amount column

  /** `UPDATE bookings SET amount = ? WHERE id = ?`: the rows with that id record the price, nothing else moves. */
  function RecordAmount(bookings: seq<Booking>, bookingId: int, price: real): (r: seq<Booking>)
    ensures |r| == |bookings| && Ids(r, BookingId) == Ids(bookings, BookingId)
    ensures forall i :: 0 <= i < |r| ==> KeyOf(r[i]) == KeyOf(bookings[i]) && r[i].studentId == bookings[i].studentId
    ensures forall i :: 0 <= i < |r| ==> r[i].(amount := bookings[i].amount) == bookings[i]
    ensures forall i :: 0 <= i < |r| ==>
      r[i].amount == (if bookings[i].id == bookingId then Some(price) else bookings[i].amount)
  {
    seq(|bookings|, i requires 0 <= i < |bookings| =>
      if bookings[i].id == bookingId then bookings[i].(amount := Some(price)) else bookings[i])
  }

  /** Recording an amount keeps the slot keys unique and the ids increasing. */
  lemma RecordAmountKeepsInvariants(bookings: seq<Booking>, next: int, bookingId: int, price: real)
    requires UniqueSlots(bookings) && IdsBelow(Ids(bookings, BookingId), next)
    ensures UniqueSlots(RecordAmount(bookings, bookingId, price))
    ensures IdsBelow(Ids(RecordAmount(bookings, bookingId, price), BookingId), next)
  {
    var r := RecordAmount(bookings, bookingId, price);
    forall i, j | 0 <= i < j < |r|
      ensures KeyOf(r[i]) != KeyOf(r[j])
    {
      assert KeyOf(r[i]) == KeyOf(bookings[i]) && KeyOf(r[j]) == KeyOf(bookings[j]);
    }
  }

  /**
    * A checked debit that records the price on the booking is undone
    * exactly by the refund `update_lesson_payment` makes on cancellation.
    */
  lemma ChargeThenRefund(bookings: seq<Booking>, balances: map<int, real>, pricing: map<int, Pricing>,
                         next: int, k: int)
    requires IdsBelow(Ids(bookings, BookingId), next) && 0 <= k < |bookings|
    requires LessonPrice(pricing, bookings[k].teacherId, bookings[k].lessonMode) > 0.0
    requires PaymentChecked(balances, pricing, bookings[k].studentId, bookings[k].teacherId, bookings[k].lessonMode).Accept?
    ensures var b := bookings[k];
      var price := LessonPrice(pricing, b.teacherId, b.lessonMode);
      var charged := PaymentChecked(balances, pricing, b.studentId, b.teacherId, b.lessonMode).value;
      LessonPayment(RecordAmount(bookings, b.id, price), charged, Some(b.id), Some("cancelled")) == Accept(balances)
  {
    var b := bookings[k];
    var price := LessonPrice(pricing, b.teacherId, b.lessonMode);
    var after := RecordAmount(bookings, b.id, price);
    var charged := Credit(balances, b.studentId, -price);
    FindUniqueId(after, next, k, (x: Booking) => x.id == b.id);
    assert after[k].amount == Some(price) && after[k].studentId == b.studentId;
    if b.studentId in balances {
      assert Credit(charged, b.studentId, price) == balances;
    }
  }

  /**
    * Nothing records that a refund was made: a second identical call
    * credits the student the amount again.
    */
  lemma RefundRepeats(bookings: seq<Booking>, balances: map<int, real>, next: int, k: int)
    requires IdsBelow(Ids(bookings, BookingId), next) && 0 <= k < |bookings|
    requires bookings[k].amount.Some? && bookings[k].amount.value > 0.0 && bookings[k].studentId in balances
    ensures var once := LessonPayment(bookings, balances, Some(bookings[k].id), Some("cancelled"));
      once.Accept? &&
      var twice := LessonPayment(bookings, once.value, Some(bookings[k].id), Some("cancelled"));
      twice.Accept? &&
      GetBalance(twice.value, bookings[k].studentId) ==
        GetBalance(balances, bookings[k].studentId) + 2.0 * bookings[k].amount.value
  {
    var once := LessonPayment(bookings, balances, Some(bookings[k].id), Some("cancelled"));
    LessonPaymentTouchesOne(bookings, balances, next, k, Some("cancelled"));
    LessonPaymentTouchesOne(bookings, once.value, next, k, Some("cancelled"));
  }
}
