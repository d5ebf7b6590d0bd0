/**
  * A teacher's weekly availability blocks and per-date overrides:
  * `save_teacher_availability`, the calendar form of `edit_pin`,
  * `delete_availability_block` and `set_day_free`.
  */
module Availability {
  import opened Wrappers
  import opened Text
  import opened Calendar
  import opened Tables

  /** The columns of a block a handler inserts (the rest are the teacher, the id and `is_available = 1`). */
  datatype BlockSpec = BlockSpec(day: int, start: string, end: string, mode: string)

  /** The rows inserted, one per spec, under consecutive ids from `next`, all available. */
  function FreshBlocks(specs: seq<BlockSpec>, teacher: int, next: int): (r: seq<Block>)
    ensures |r| == |specs|
    decreases |specs|
  {
    if specs == [] then []
    else
      var n := |specs| - 1;
      FreshBlocks(specs[..n], teacher, next) +
        [Block(next + n, teacher, specs[n].day, specs[n].start, specs[n].end, 1, specs[n].mode)]
  }

  /** The `k`-th inserted row is the `k`-th spec under id `next + k`, available. */
  lemma {:induction false} FreshBlockAt(specs: seq<BlockSpec>, teacher: int, next: int, k: int)
    requires 0 <= k < |specs|
    ensures FreshBlocks(specs, teacher, next)[k] ==
      Block(next + k, teacher, specs[k].day, specs[k].start, specs[k].end, 1, specs[k].mode)
    decreases |specs|
  {
    var n := |specs| - 1;
    if k < n {
      FreshBlockAt(specs[..n], teacher, next, k);
    }
  }

  /** One more insert extends the inserted rows by one. */
  lemma FreshBlocksSnoc(specs: seq<BlockSpec>, s: BlockSpec, teacher: int, next: int)
    ensures FreshBlocks(specs + [s], teacher, next) ==
      FreshBlocks(specs, teacher, next) + [Block(next + |specs|, teacher, s.day, s.start, s.end, 1, s.mode)]
  {
    assert (specs + [s])[..|specs|] == specs;
  }

  /** One more insert after the rows the DELETE kept. */
  lemma ReplaceSnoc(kept: seq<Block>, specs: seq<BlockSpec>, s: BlockSpec, teacher: int, next: int)
    ensures kept + FreshBlocks(specs + [s], teacher, next) ==
      (kept + FreshBlocks(specs, teacher, next)) + [Block(next + |specs|, teacher, s.day, s.start, s.end, 1, s.mode)]
  {
    FreshBlocksSnoc(specs, s, teacher, next);
  }

  /** Inserting two runs of rows is inserting their concatenation. */
  lemma FreshBlocksAppend(a: seq<BlockSpec>, b: seq<BlockSpec>, teacher: int, next: int)
    ensures FreshBlocks(a + b, teacher, next) == FreshBlocks(a, teacher, next) + FreshBlocks(b, teacher, next + |a|)
  {
    var l, r := FreshBlocks(a + b, teacher, next), FreshBlocks(a, teacher, next) + FreshBlocks(b, teacher, next + |a|);
    forall k | 0 <= k < |l|
      ensures l[k] == r[k]
    {
      FreshBlockAt(a + b, teacher, next, k);
      if k >= |a| {
        assert (a + b)[k] == b[k - |a|];
        FreshBlockAt(b, teacher, next + |a|, k - |a|);
      } else {
        FreshBlockAt(a, teacher, next, k);
      }
    }
  }

  /** A second run of inserts after the rows the DELETE kept and a first run. */
  lemma ReplaceAppend(kept: seq<Block>, a: seq<BlockSpec>, b: seq<BlockSpec>, full: seq<BlockSpec>,
                      teacher: int, next: int, added: seq<Block>)
    requires full == a + b && added == FreshBlocks(b, teacher, next + |a|)
    ensures (kept + FreshBlocks(a, teacher, next)) + added == kept + FreshBlocks(full, teacher, next)
    ensures |full| == |a| + |b|
  {
    FreshBlocksAppend(a, b, teacher, next);
  }

  /** The rows of other teachers, which the handlers' DELETE leaves. */
  function OtherTeachers(blocks: seq<Block>, teacher: int): (r: seq<Block>)
    ensures forall b :: b in r <==> b in blocks && b.teacherId != teacher
  {
    Keep(blocks, (b: Block) => b.teacherId != teacher)
  }

  /** The availability table's invariant: AUTOINCREMENT ids below `next`, and every stored block available. */
  predicate BlockTable(blocks: seq<Block>, next: int) {
    IdsBelow(Ids(blocks, BlockId), next) && next >= 1 &&
    forall i :: 0 <= i < |blocks| ==> blocks[i].isAvailable == 1
  }

  /** Replacing a teacher's blocks keeps the ids increasing and every block available. */
  lemma ReplaceKeepsInvariants(blocks: seq<Block>, teacher: int, next: int, specs: seq<BlockSpec>)
    requires BlockTable(blocks, next)
    ensures BlockTable(OtherTeachers(blocks, teacher) + FreshBlocks(specs, teacher, next), next + |specs|)
  {
    var kept := OtherTeachers(blocks, teacher);
    ReplaceKeepsIds(blocks, teacher, next, specs);
    var after := kept + FreshBlocks(specs, teacher, next);
    forall i | 0 <= i < |after|
      ensures after[i].isAvailable == 1
    {
      if i < |kept| {
        assert after[i] in blocks;
      } else {
        FreshBlockAt(specs, teacher, next, i - |kept|);
      }
    }
  }

  /** The ids half of ReplaceKeepsInvariants. */
  lemma ReplaceKeepsIds(blocks: seq<Block>, teacher: int, next: int, specs: seq<BlockSpec>)
    requires IdsBelow(Ids(blocks, BlockId), next) && next >= 1
    ensures IdsBelow(Ids(OtherTeachers(blocks, teacher) + FreshBlocks(specs, teacher, next), BlockId), next + |specs|)
  {
    var kept := OtherTeachers(blocks, teacher);
    var inserted := FreshBlocks(specs, teacher, next);
    KeepBlockIds(blocks, (b: Block) => b.teacherId != teacher, next);
    FreshIds(specs, teacher, next);
    IdsBelowRun(Ids(kept, BlockId), Ids(inserted, BlockId), next);
    BlockIdsConcat(kept, inserted);
  }

  /** The inserted rows take the ids `next`, `next + 1`, ... in order. */
  lemma FreshIds(specs: seq<BlockSpec>, teacher: int, next: int)
    ensures var ids := Ids(FreshBlocks(specs, teacher, next), BlockId);
      |ids| == |specs| && forall k :: 0 <= k < |ids| ==> ids[k] == next + k
  {
    var ids := Ids(FreshBlocks(specs, teacher, next), BlockId);
    forall k | 0 <= k < |ids|
      ensures ids[k] == next + k
    {
      FreshBlockAt(specs, teacher, next, k);
    }
  }

  // ---------------------------------------------------------------------
  // save_teacher_availability

  /** One element of the JSON `blocks` list; `None` is a missing key or a null. */
  datatype BlockInput = BlockInput(
    dayOfWeek: Option<int>,
    startTime: Option<string>,
    endTime: Option<string>,
    teachingMode: Option<string>)

  /** An element the insert accepts: every key present and not null (the columns are NOT NULL). */
  predicate InputComplete(input: BlockInput) {
    input.dayOfWeek.Some? && input.startTime.Some? && input.endTime.Some? && input.teachingMode.Some?
  }

  function SpecOf(input: BlockInput): BlockSpec
    requires InputComplete(input)
  {
    BlockSpec(input.dayOfWeek.value, input.startTime.value, input.endTime.value, input.teachingMode.value)
  }

  /**
    * The rows `save_teacher_availability` inserts, or `None` when an element
    * makes the loop raise, in which case the handler answers 500 and the
    * transaction, DELETE included, is never committed.
    */
  function SaveSpecs(inputs: seq<BlockInput>): (r: Option<seq<BlockSpec>>)
    ensures r.Some? <==> forall i :: 0 <= i < |inputs| ==> InputComplete(inputs[i])
    ensures r.Some? ==> (|r.value| == |inputs| &&
      forall i :: 0 <= i < |inputs| ==> r.value[i] == SpecOf(inputs[i]))
    decreases |inputs|
  {
    if inputs == [] then Some([])
    else
      var n := |inputs| - 1;
      match SaveSpecs(inputs[..n])
        case None => None
        case Some(specs) =>
          if InputComplete(inputs[n]) then Some(specs + [SpecOf(inputs[n])]) else None
  }

  // ---------------------------------------------------------------------
  // the calendar form of edit_pin

  /** The weekdays 0..6 the form loop runs over (`range(7)`). */
  const Weekdays: nat := 7

  /** `request.form.getlist(name)`: the values sent under a field name, or none. */
  function GetList(form: map<string, seq<string>>, name: string): seq<string> {
    if name in form then form[name] else []
  }

  /** The form field of a weekday 0..6: the prefix followed by the weekday's digit. */
  function DayField(prefix: string, day: nat): string
    requires day < Weekdays
  {
    prefix + [('0' as int + day) as char]
  }

  /** The field name is `f"{prefix}{day}"`, the prefix followed by the decimal text of the weekday. */
  lemma DayFieldName(prefix: string, day: nat)
    requires day < Weekdays
    ensures DayField(prefix, day) == prefix + Decimal(day)
  {
  }

  function Starts(form: map<string, seq<string>>, day: nat): seq<string>
    requires day < Weekdays
  {
    GetList(form, DayField("start_time_", day))
  }

  function Ends(form: map<string, seq<string>>, day: nat): seq<string>
    requires day < Weekdays
  {
    GetList(form, DayField("end_time_", day))
  }

  function Modes(form: map<string, seq<string>>, day: nat): seq<string>
    requires day < Weekdays
  {
    GetList(form, DayField("mode_", day))
  }

  /** The three lists the form sends for one weekday. */
  datatype DayEntries = DayEntries(starts: seq<string>, ends: seq<string>, modes: seq<string>)

  function Entries(form: map<string, seq<string>>, day: nat): DayEntries
    requires day < Weekdays
  {
    DayEntries(Starts(form, day), Ends(form, day), Modes(form, day))
  }

  /** The lists of the seven weekdays, in the order the loop reads them. */
  function Week(form: map<string, seq<string>>): (w: seq<DayEntries>)
    ensures |w| == Weekdays && forall d :: 0 <= d < Weekdays ==> w[d] == Entries(form, d)
  {
    seq(Weekdays, (d: int) requires 0 <= d < Weekdays => Entries(form, d))
  }

  /** The weekday has an end and a mode for each start; otherwise the inner loop raises IndexError. */
  predicate Indexable(e: DayEntries) {
    |e.ends| >= |e.starts| && |e.modes| >= |e.starts|
  }

  /** The weekdays before `days` are indexable: the loop gets past them without an error. */
  predicate IndexableBefore(week: seq<DayEntries>, days: nat)
    requires days <= |week|
  {
    days == 0 || (IndexableBefore(week, days - 1) && Indexable(week[days - 1]))
  }

  /** A weekday that is not indexable stops every later prefix. */
  lemma {:induction false} IndexableBeforeStop(week: seq<DayEntries>, day: nat, days: nat)
    requires day < days <= |week| && !Indexable(week[day])
    ensures !IndexableBefore(week, days)
    decreases days
  {
    if day < days - 1 {
      IndexableBeforeStop(week, day, days - 1);
    }
  }

  /** The form is saved without an error. */
  predicate PinFormIndexable(form: map<string, seq<string>>) {
    IndexableBefore(Week(form), Weekdays)
  }

  /** The weekdays before `days` are indexable exactly when each of them is. */
  lemma {:induction false} IndexableBeforeMeaning(week: seq<DayEntries>, days: nat)
    requires days <= |week|
    ensures IndexableBefore(week, days) <==> forall d :: 0 <= d < days ==> Indexable(week[d])
  {
    if days > 0 {
      IndexableBeforeMeaning(week, days - 1);
    }
  }

  /**
    * The rows of the first `n` entries of a weekday whose start, end and
    * mode lists are given, skipping an entry with an empty field.
    */
  function DayRows(starts: seq<string>, ends: seq<string>, modes: seq<string>, day: int, n: int)
    : (r: seq<BlockSpec>)
    requires 0 <= n <= |starts| && n <= |ends| && n <= |modes|
    ensures |r| <= n
    decreases n
  {
    if n == 0 then []
    else
      var start, end, mode := starts[n - 1], ends[n - 1], modes[n - 1];
      DayRows(starts, ends, modes, day, n - 1) +
        (if start != "" && end != "" && mode != "" then [BlockSpec(day, start, end, mode)] else [])
  }

  /** An entry with an empty field adds no row. */
  lemma DayRowsSkip(starts: seq<string>, ends: seq<string>, modes: seq<string>, day: int, i: int)
    requires 0 <= i < |starts| && i < |ends| && i < |modes|
    requires starts[i] == "" || ends[i] == "" || modes[i] == ""
    ensures DayRows(starts, ends, modes, day, i + 1) == DayRows(starts, ends, modes, day, i)
  {
    assert DayRows(starts, ends, modes, day, i) + [] == DayRows(starts, ends, modes, day, i);
  }

  /** A complete entry adds its row after the rows already collected. */
  lemma DayRowsTake(starts: seq<string>, ends: seq<string>, modes: seq<string>, day: int, i: int)
    requires 0 <= i < |starts| && i < |ends| && i < |modes|
    requires starts[i] != "" && ends[i] != "" && modes[i] != ""
    ensures DayRows(starts, ends, modes, day, i + 1) ==
      DayRows(starts, ends, modes, day, i) + [BlockSpec(day, starts[i], ends[i], modes[i])]
  {
  }

  /** One complete entry inserted after the rows of the entries before it. */
  lemma DayRowsInsert(starts: seq<string>, ends: seq<string>, modes: seq<string>, day: int, i: int,
                      teacher: int, id: int, added: seq<Block>)
    requires 0 <= i < |starts| && i < |ends| && i < |modes|
    requires starts[i] != "" && ends[i] != "" && modes[i] != ""
    requires added == FreshBlocks(DayRows(starts, ends, modes, day, i), teacher, id)
    ensures added + [Block(id + |DayRows(starts, ends, modes, day, i)|, teacher, day, starts[i], ends[i], 1, modes[i])]
      == FreshBlocks(DayRows(starts, ends, modes, day, i + 1), teacher, id)
    ensures |DayRows(starts, ends, modes, day, i + 1)| == |DayRows(starts, ends, modes, day, i)| + 1
  {
    DayRowsTake(starts, ends, modes, day, i);
    FreshBlocksSnoc(DayRows(starts, ends, modes, day, i), BlockSpec(day, starts[i], ends[i], modes[i]), teacher, id);
  }

  /** The rows one weekday contributes (none when it cannot be read, which aborts the save). */
  function EntryRows(e: DayEntries, day: int): seq<BlockSpec> {
    if Indexable(e) then DayRows(e.starts, e.ends, e.modes, day, |e.starts|) else []
  }

  /** The rows of the weekdays before `days`, in the order the loop inserts them. */
  function PinSpecs(week: seq<DayEntries>, days: nat): seq<BlockSpec>
    requires days <= |week|
  {
    if days == 0 then [] else PinSpecs(week, days - 1) + EntryRows(week[days - 1], days - 1)
  }

  /** The rows the form saves. */
  function PinRows(form: map<string, seq<string>>): seq<BlockSpec> {
    PinSpecs(Week(form), Weekdays)
  }

  /** One more weekday appends its rows. */
  lemma PinSpecsStep(week: seq<DayEntries>, day: nat)
    requires day < |week|
    ensures PinSpecs(week, day + 1) == PinSpecs(week, day) + EntryRows(week[day], day)
  {
  }

  // ---------------------------------------------------------------------
  // delete_availability_block

  /**
    * What `DELETE /api/crm/availability/<id>` does: a teacher removes one
    * of their own blocks; anybody else's block is "not found".
    */
  function DeleteBlockVerdict(blocks: seq<Block>, actor: Actor, blockId: int): (v: Verdict<seq<Block>>)
    ensures v == Reject(Unauthorized) <==> !IsTeacher(actor)
    ensures v == Reject(NotFound) <==> (IsTeacher(actor) &&
      forall i :: 0 <= i < |blocks| ==> !(blocks[i].id == blockId && blocks[i].teacherId == actor.id))
    ensures v.Reject? ==> v.failure in {Unauthorized, NotFound}
    ensures v.Accept? <==> (IsTeacher(actor) &&
      exists i :: 0 <= i < |blocks| && blocks[i].id == blockId && blocks[i].teacherId == actor.id)
    ensures v.Accept? ==> (|v.value| < |blocks| &&
      forall b :: b in v.value <==> b in blocks && b.id != blockId)
  {
    if !IsTeacher(actor) then Reject(Unauthorized)
    else match Find(blocks, (b: Block) => b.id == blockId && b.teacherId == actor.id)
      case None => Reject(NotFound)
      case Some(k) =>
        KeepDrops(blocks, (b: Block) => b.id != blockId, k);
        Accept(Keep(blocks, (b: Block) => b.id != blockId))
  }

  /** Dropping a row that fails the test shortens the table. */
  lemma {:induction false} KeepDrops<T>(rows: seq<T>, p: T -> bool, k: int)
    requires 0 <= k < |rows| && !p(rows[k])
    ensures |Keep(rows, p)| < |rows|
  {
    if k > 0 {
      KeepDrops(rows[1..], p, k - 1);
    }
  }

  // ---------------------------------------------------------------------
  // set_day_free

  /** What the upsert writes: nothing, a new `is_free` on an existing row, or a new row. */
  datatype Upsert = Unchanged | SetAt(index: nat, isFree: bool) | Insert(row: Override)

  function ApplyUpsert(overrides: seq<Override>, u: Upsert): seq<Override>
    requires u.SetAt? ==> u.index < |overrides|
  {
    match u
      case Unchanged => overrides
      case SetAt(k, isFree) => overrides[k := overrides[k].(isFree := isFree)]
      case Insert(row) => overrides + [row]
  }

  /** The row for a teacher and a date, as the handler's SELECT finds it. */
  function OverrideFor(overrides: seq<Override>, teacher: int, date: string): (r: Option<nat>)
    ensures r.Some? ==> r.value < |overrides| && overrides[r.value].teacherId == teacher && overrides[r.value].date == date
    ensures r.None? ==> forall i :: 0 <= i < |overrides| ==> !(overrides[i].teacherId == teacher && overrides[i].date == date)
  {
    Find(overrides, (o: Override) => o.teacherId == teacher && o.date == date)
  }

  /**
    * What `POST /crm/set_day_free` does: a teacher marks a YYYY-MM-DD date
    * free (`is_free` absent or "1") or not free (anything else); an existing
    * row with the same value is left alone.
    */
  function DayFreeVerdict(overrides: seq<Override>, next: int, actor: Actor,
                          date: Option<string>, isFreeField: Option<string>): (v: Verdict<Upsert>)
    ensures v == Reject(Unauthorized) <==> !IsTeacher(actor)
    ensures v == Reject(MissingFields) <==> IsTeacher(actor) && !Filled(date)
    ensures v == Reject(InvalidValue) <==> IsTeacher(actor) && Filled(date) && ParseDate(date.value).None?
    ensures v.Reject? ==> v.failure in {Unauthorized, MissingFields, InvalidValue}
    ensures v.Accept? <==> IsTeacher(actor) && Filled(date) && ParseDate(date.value).Some?
    ensures v.Accept? ==> (IsTeacher(actor) && Filled(date) && ParseDate(date.value).Some? &&
      var isFree := isFreeField.GetOr("1") == "1";
      match OverrideFor(overrides, actor.id, date.value)
        case None => v.value == Insert(Override(next, actor.id, date.value, isFree))
        case Some(k) =>
          if overrides[k].isFree == isFree then v.value == Unchanged else v.value == SetAt(k, isFree))
  {
    if !IsTeacher(actor) then Reject(Unauthorized)
    else if !Filled(date) then Reject(MissingFields)
    else if ParseDate(date.value).None? then Reject(InvalidValue)
    else
      var isFree := isFreeField.GetOr("1") == "1";
      match OverrideFor(overrides, actor.id, date.value)
        case None => Accept(Insert(Override(next, actor.id, date.value, isFree)))
        case Some(k) =>
          if overrides[k].isFree == isFree then Accept(Unchanged) else Accept(SetAt(k, isFree))
  }

  /** An accepted upsert keeps one row per (teacher, date) and the ids increasing. */
  lemma UpsertKeepsInvariants(overrides: seq<Override>, next: int, actor: Actor,
                              date: Option<string>, isFreeField: Option<string>)
    requires UniqueOverrides(overrides) && IdsBelow(Ids(overrides, OverrideId), next) && next >= 1
    requires DayFreeVerdict(overrides, next, actor, date, isFreeField).Accept?
    ensures var u := DayFreeVerdict(overrides, next, actor, date, isFreeField).value;
      var after := ApplyUpsert(overrides, u);
      UniqueOverrides(after) &&
      IdsBelow(Ids(after, OverrideId), if u.Insert? then next + 1 else next)
  {
    var u := DayFreeVerdict(overrides, next, actor, date, isFreeField).value;
    var after := ApplyUpsert(overrides, u);
    if u.Insert? {
      assert Ids(after, OverrideId) == Ids(overrides, OverrideId) + [next];
      IdsBelowAppend(Ids(overrides, OverrideId), next);
    } else if u.SetAt? {
      assert Ids(after, OverrideId) == Ids(overrides, OverrideId);
      forall i, j | 0 <= i < j < |after|
        ensures (after[i].teacherId, after[i].date) != (after[j].teacherId, after[j].date)
      {
        assert after[i].teacherId == overrides[i].teacherId && after[i].date == overrides[i].date;
        assert after[j].teacherId == overrides[j].teacherId && after[j].date == overrides[j].date;
      }
    }
  }

  /** After an accepted call, the teacher's row for the date holds the requested value. */
  lemma UpsertTakesEffect(overrides: seq<Override>, next: int, actor: Actor,
                          date: Option<string>, isFreeField: Option<string>)
    requires DayFreeVerdict(overrides, next, actor, date, isFreeField).Accept?
    ensures var after := ApplyUpsert(overrides, DayFreeVerdict(overrides, next, actor, date, isFreeField).value);
      var r := OverrideFor(after, actor.id, date.value);
      r.Some? && after[r.value].isFree == (isFreeField.GetOr("1") == "1")
  {
    var u := DayFreeVerdict(overrides, next, actor, date, isFreeField).value;
    var after := ApplyUpsert(overrides, u);
    if u.Insert? {
      assert after[|overrides|].teacherId == actor.id && after[|overrides|].date == date.value;
      var r := OverrideFor(after, actor.id, date.value);
      assert r.value == |overrides|;
    } else {
      var k := OverrideFor(overrides, actor.id, date.value).value;
      assert after[k].teacherId == actor.id && after[k].date == date.value;
      var r := OverrideFor(after, actor.id, date.value);
      assert r.value == k;
    }
  }

  /** Repeating an accepted call writes nothing the second time. */
  lemma UpsertIdempotent(overrides: seq<Override>, next: int, actor: Actor,
                         date: Option<string>, isFreeField: Option<string>)
    requires DayFreeVerdict(overrides, next, actor, date, isFreeField).Accept?
    ensures var u := DayFreeVerdict(overrides, next, actor, date, isFreeField).value;
      var next' := if u.Insert? then next + 1 else next;
      DayFreeVerdict(ApplyUpsert(overrides, u), next', actor, date, isFreeField) == Accept(Unchanged)
  {
    UpsertTakesEffect(overrides, next, actor, date, isFreeField);
  }
}
