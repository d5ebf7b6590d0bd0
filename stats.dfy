/**
  * `get_booking_stats`: the lessons of the logged-in user counted by
  * status bucket (English or Polish names, any letter case), with the
  * completed and cancelled rows listed and the length of the completed
  * lessons summed, in minutes.
  */
module Stats {
  import opened Wrappers
  import opened Text
  import opened Calendar
  import opened Tables

  /** Which bucket a status falls into after `.lower()`. */
  datatype Bucket = Scheduled | Completed | Cancelled | Unbucketed

  function BucketOf(status: string): (k: Bucket)
    ensures k == Scheduled <==> AsciiLower(status) in {"scheduled", "zaplanowana"}
    ensures k == Completed <==> AsciiLower(status) in {"completed", "przeprowadzona"}
    ensures k == Cancelled <==> AsciiLower(status) in {"cancelled", "odwolana"}
  {
    var s := AsciiLower(status);
    if s == "scheduled" || s == "zaplanowana" then Scheduled
    else if s == "completed" || s == "przeprowadzona" then Completed
    else if s == "cancelled" || s == "odwolana" then Cancelled
    else Unbucketed
  }

  /** The JSON the handler returns, with `total_hours` kept as whole minutes. */
  datatype BookingStats = BookingStats(
    totalLessons: nat,
    scheduled: nat,
    completed: nat,
    cancelled: nat,
    minutes: int,
    completedLessons: seq<Booking>,
    cancelledLessons: seq<Booking>)

  /** The rows the query selects: by teacher for the teacher roles, by student for everyone else. */
  function SelectRows(bookings: seq<Booking>, actor: Actor): (r: seq<Booking>)
    ensures forall b :: b in r <==> (b in bookings &&
      if IsTeacher(actor) then b.teacherId == actor.id else b.studentId == actor.id)
  {
    if IsTeacher(actor) then Keep(bookings, (b: Booking) => b.teacherId == actor.id)
    else Keep(bookings, (b: Booking) => b.studentId == actor.id)
  }

  /** The minutes a completed row adds: its slot's length when both ends parse, else nothing. */
  function MinutesOf(b: Booking): int {
    match SlotDuration(b.timeSlot)
      case None => 0
      case Some(m) => m
  }

  /** One pass of the loop body: the row is listed and counted by its bucket. */
  function Step(s: BookingStats, b: Booking): BookingStats {
    match BucketOf(b.status)
      case Scheduled => s.(scheduled := s.scheduled + 1)
      case Completed =>
        s.(completed := s.completed + 1, minutes := s.minutes + MinutesOf(b),
           completedLessons := s.completedLessons + [b])
      case Cancelled => s.(cancelled := s.cancelled + 1, cancelledLessons := s.cancelledLessons + [b])
      case Unbucketed => s
  }

  /** The counters after the loop has seen `rows`, starting from a total already set. */
  function Tally(rows: seq<Booking>, total: nat): BookingStats
    decreases |rows|
  {
    if rows == [] then BookingStats(total, 0, 0, 0, 0, [], [])
    else Step(Tally(rows[..|rows| - 1], total), rows[|rows| - 1])
  }

  lemma TallyPrefix(rows: seq<Booking>, i: int, total: nat)
    requires 0 <= i < |rows|
    ensures Tally(rows[..i + 1], total) == Step(Tally(rows[..i], total), rows[i])
  {
    assert rows[..i + 1][..i] == rows[..i];
  }

  /** The loop of get_booking_stats over the selected rows. */
  method BookingStatsOf(bookings: seq<Booking>, actor: Actor) returns (stats: BookingStats)
    ensures stats == Tally(SelectRows(bookings, actor), |SelectRows(bookings, actor)|)
  {
    var rows := SelectRows(bookings, actor);
    stats := BookingStats(|rows|, 0, 0, 0, 0, [], []);
    for i := 0 to |rows|
      invariant stats == Tally(rows[..i], |rows|)
    {
      TallyPrefix(rows, i, |rows|);
      stats := CountRow(stats, rows[i]);
    }
    assert rows[..|rows|] == rows;
  }

  /** The body of that loop for one row: list it, then count it and its minutes. */
  method CountRow(before: BookingStats, b: Booking) returns (stats: BookingStats)
    ensures stats == Step(before, b)
  {
    stats := before;
    var bucket := BucketOf(b.status);
    if bucket == Completed {
      stats := stats.(completedLessons := stats.completedLessons + [b]);
    } else if bucket == Cancelled {
      stats := stats.(cancelledLessons := stats.cancelledLessons + [b]);
    }
    if bucket == Scheduled {
      stats := stats.(scheduled := stats.scheduled + 1);
    } else if bucket == Completed {
      stats := stats.(completed := stats.completed + 1);
      var m := LessonMinutes(b);
      stats := stats.(minutes := stats.minutes + m);
    } else if bucket == Cancelled {
      stats := stats.(cancelled := stats.cancelled + 1);
    }
  }

  /** The duration block of the loop: split the slot, parse both ends, and take their difference, or nothing on a parse error. */
  method LessonMinutes(b: Booking) returns (m: int)
    ensures m == MinutesOf(b)
  {
    m := 0;
    var parts := Split(b.timeSlot);
    if |parts| == 2 {
      var start, end := ParseTime(Strip(parts[0])), ParseTime(Strip(parts[1]));
      if start.Some? && end.Some? {
        m := MinuteOfDay(end.value) - MinuteOfDay(start.value);
      }
    }
  }

  /** The lists hold exactly the counted rows, the buckets never exceed the total, and the total is the row count. */
  lemma {:induction false} TallyConsistent(rows: seq<Booking>, total: nat)
    ensures var s := Tally(rows, total);
      s.totalLessons == total &&
      |s.completedLessons| == s.completed && |s.cancelledLessons| == s.cancelled &&
      s.scheduled + s.completed + s.cancelled <= |rows|
    decreases |rows|
  {
    if rows != [] {
      TallyConsistent(rows[..|rows| - 1], total);
    }
  }

  /** A row is listed as completed exactly when it is selected and its status is completed in either language. */
  lemma {:induction false} CompletedListMeaning(rows: seq<Booking>, total: nat, b: Booking)
    ensures b in Tally(rows, total).completedLessons <==> b in rows && BucketOf(b.status) == Completed
    decreases |rows|
  {
    if rows != [] {
      var init := rows[..|rows| - 1];
      CompletedListMeaning(init, total, b);
      assert rows == init + [rows[|rows| - 1]];
    }
  }

  /** A row is listed as cancelled exactly when it is selected and its status is cancelled in either language. */
  lemma {:induction false} CancelledListMeaning(rows: seq<Booking>, total: nat, b: Booking)
    ensures b in Tally(rows, total).cancelledLessons <==> b in rows && BucketOf(b.status) == Cancelled
    decreases |rows|
  {
    if rows != [] {
      var init := rows[..|rows| - 1];
      CancelledListMeaning(init, total, b);
      assert rows == init + [rows[|rows| - 1]];
    }
  }

  /** The rows of `rows` whose status falls into bucket `k`, in table order, each as often as it occurs. */
  function InBucket(rows: seq<Booking>, k: Bucket): (r: seq<Booking>)
    ensures |r| <= |rows|
  {
    if rows == [] then [] else Pick(rows[0], k) + InBucket(rows[1..], k)
  }

  /** The row alone when its status falls into bucket `k`, else nothing. */
  function Pick(b: Booking, k: Bucket): seq<Booking> {
    if BucketOf(b.status) == k then [b] else []
  }

  /** The minutes of a list of rows, added up. */
  function SumMinutes(rows: seq<Booking>): int {
    if rows == [] then 0 else MinutesOf(rows[0]) + SumMinutes(rows[1..])
  }

  /** Filtering one more row at the end adds it at the end exactly when it is in the bucket. */
  lemma {:induction false} InBucketSnoc(rows: seq<Booking>, x: Booking, k: Bucket)
    ensures InBucket(rows + [x], k) == InBucket(rows, k) + Pick(x, k)
    decreases |rows|
  {
    if rows != [] {
      var head, last := Pick(rows[0], k), Pick(x, k);
      assert (rows + [x])[0] == rows[0] && (rows + [x])[1..] == rows[1..] + [x];
      InBucketSnoc(rows[1..], x, k);
      calc {
        InBucket(rows + [x], k);
        head + InBucket(rows[1..] + [x], k);
        head + (InBucket(rows[1..], k) + last);
        (head + InBucket(rows[1..], k)) + last;
        InBucket(rows, k) + last;
      }
    } else {
      assert [] + [x] == [x] && [x][1..] == [];
    }
  }

  /** Adding up one more row at the end adds its minutes. */
  lemma {:induction false} SumMinutesSnoc(rows: seq<Booking>, x: Booking)
    ensures SumMinutes(rows + [x]) == SumMinutes(rows) + MinutesOf(x)
    decreases |rows|
  {
    if rows != [] {
      assert (rows + [x])[1..] == rows[1..] + [x];
      SumMinutesSnoc(rows[1..], x);
    } else {
      assert [] + [x] == [x] && [x][1..] == [];
    }
  }

  /** The two lists are the selected rows of their bucket, in table order and with their multiplicity. */
  lemma {:induction false} TallyLists(rows: seq<Booking>, total: nat)
    ensures Tally(rows, total).completedLessons == InBucket(rows, Completed)
    ensures Tally(rows, total).cancelledLessons == InBucket(rows, Cancelled)
    decreases |rows|
  {
    if rows != [] {
      var init, x := rows[..|rows| - 1], rows[|rows| - 1];
      assert rows == init + [x];
      TallyLists(init, total);
      InBucketSnoc(init, x, Completed);
      InBucketSnoc(init, x, Cancelled);
    }
  }

  /** Each counter is the number of selected rows in its bucket. */
  lemma {:induction false} TallyCounts(rows: seq<Booking>, total: nat)
    ensures Tally(rows, total).scheduled == |InBucket(rows, Scheduled)|
    ensures Tally(rows, total).completed == |InBucket(rows, Completed)|
    ensures Tally(rows, total).cancelled == |InBucket(rows, Cancelled)|
    decreases |rows|
  {
    if rows != [] {
      var init, x := rows[..|rows| - 1], rows[|rows| - 1];
      assert rows == init + [x];
      TallyCounts(init, total);
      InBucketSnoc(init, x, Scheduled);
      InBucketSnoc(init, x, Completed);
      InBucketSnoc(init, x, Cancelled);
    }
  }

  /** The minutes are the lengths of the completed rows' slots, added up. */
  lemma {:induction false} TallyMinutes(rows: seq<Booking>, total: nat)
    ensures Tally(rows, total).minutes == SumMinutes(InBucket(rows, Completed))
    decreases |rows|
  {
    if rows != [] {
      var init, x := rows[..|rows| - 1], rows[|rows| - 1];
      assert rows == init + [x];
      TallyMinutes(init, total);
      InBucketSnoc(init, x, Completed);
      if BucketOf(x.status) == Completed {
        SumMinutesSnoc(InBucket(init, Completed), x);
      } else {
        assert InBucket(init, Completed) + [] == InBucket(init, Completed);
      }
    }
  }

  /** `active`, the status every booking is created with, is in no bucket. */
  lemma ActiveUnbucketed(status: string)
    requires status == "active"
    ensures BucketOf(status) == Unbucketed
  {
    assert AsciiLower(status) == status;
  }

  /** Upper-case and Polish spellings count like the English lower-case ones. */
  lemma CaseInsensitiveBuckets(status: string)
    requires status == "Odwolana"
    ensures BucketOf(status) == Cancelled
  {
    assert AsciiLower(status) == "odwolana";
  }

  /** A completed lesson booked on one of the generated half-hour slots adds 30 minutes. */
  lemma GeneratedSlotMinutes(b: Booking, i: int)
    requires 0 <= i < |DaySlots()| && b.timeSlot == DaySlots()[i]
    ensures MinutesOf(b) == SlotLength
  {
    DaySlotsShape(i);
  }
}
