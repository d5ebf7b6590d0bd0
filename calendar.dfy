/**
  * The time-slot calendar of app.py: reading and re-rendering clock times
  * (`normalize_time`), canonicalising "start - end" labels
  * (`normalize_time_slot`), the fixed day grid (`generate_time_slots`), the
  * Polish day names and the `%Y-%m-%d` date check `set_day_free` relies on.
  */
module Calendar {
  import opened Wrappers
  import opened Text

  /** A wall-clock time of day. */
  datatype Clock = Clock(hour: int, minute: int)

  predicate ValidClock(c: Clock) {
    0 <= c.hour <= 23 && 0 <= c.minute <= 59
  }

  /** Minutes since midnight. */
  function MinuteOfDay(c: Clock): int {
    c.hour * 60 + c.minute
  }

  /**
    * `datetime.strptime(s, '%H:%M')`: the hour is `2[0-3]|[0-1]\d|\d`, the
    * minute `[0-5]\d|\d`, and the match must cover all of `s`.
    */
  function ParseTime(s: string): (r: Option<Clock>)
    ensures r.Some? ==> ValidClock(r.value)
  {
    var i := if |s| >= 2 && s[1] == ':' then 1 else 2;
    if |s| < 3 || i >= |s| || s[i] != ':' then None
    else
      var hs, ms := s[..i], s[i + 1..];
      if 1 <= |ms| <= 2 && AllDigits(hs) && AllDigits(ms) && Value(hs) <= 23 && Value(ms) <= 59
      then Some(Clock(Value(hs), Value(ms)))
      else None
  }

  /** `t.strftime('%H:%M')`: both fields zero-padded to two digits. */
  function Render(c: Clock): string
    requires ValidClock(c)
  {
    Pad2(c.hour) + ":" + Pad2(c.minute)
  }

  /** The number `n` written with one or two digits, as `%H` and `%M` accept it. */
  predicate FieldText(t: string, n: int)
    requires 0 <= n <= 99
  {
    t == Decimal(n) || t == Pad2(n)
  }

  /** `s` is one of the ways of writing `c` as "H:MM": unpadded or zero-padded hour and minute. */
  predicate Spells(s: string, c: Clock) {
    ValidClock(c) &&
    exists k :: 1 <= k <= 2 && k < |s| && s[k] == ':' && FieldText(s[..k], c.hour) && FieldText(s[k + 1..], c.minute)
  }

  /** A text made of digits and colons: no white space, no separator. */
  predicate ClockChars(s: string) {
    forall i :: 0 <= i < |s| ==> IsDigit(s[i]) || s[i] == ':'
  }

  lemma ParseJoin(hs: string, ms: string)
    requires AllDigits(hs) && AllDigits(ms) && 1 <= |hs| <= 2 && 1 <= |ms| <= 2
    requires Value(hs) <= 23 && Value(ms) <= 59
    ensures ParseTime(hs + ":" + ms) == Some(Clock(Value(hs), Value(ms)))
  {
    var s := hs + ":" + ms;
    var i := |hs|;
    assert s[i] == ':';
    assert i == 2 ==> s[1] == hs[1] && IsDigit(s[1]);
    assert s[..i] == hs && s[i + 1..] == ms;
  }

  /** `strptime` reads exactly the spellings of valid clocks, and reads each as its clock. */
  lemma ParseTimeSpells(s: string, c: Clock)
    ensures ParseTime(s) == Some(c) <==> Spells(s, c)
  {
    if ParseTime(s) == Some(c) {
      ParsedSpells(s);
    }
    if Spells(s, c) {
      SpellingParses(s, c);
    }
  }

  /** Every spelling of a clock reads as that clock. */
  lemma SpellingParses(s: string, c: Clock)
    requires Spells(s, c)
    ensures ParseTime(s) == Some(c)
  {
    var k :| 1 <= k <= 2 && k < |s| && s[k] == ':' && FieldText(s[..k], c.hour) && FieldText(s[k + 1..], c.minute);
    var hs, ms := s[..k], s[k + 1..];
    FieldTextDigits(hs, c.hour);
    FieldTextDigits(ms, c.minute);
    CutAt(s, k);
    assert [s[k]] == ":";
    ParseJoin(hs, ms);
  }

  lemma FieldTextDigits(t: string, n: int)
    requires 0 <= n <= 99 && FieldText(t, n)
    ensures AllDigits(t) && 1 <= |t| <= 2 && Value(t) == n
  {
  }

  /** Whatever `strptime` reads is a spelling of the clock it returns. */
  lemma ParsedSpells(s: string)
    requires ParseTime(s).Some?
    ensures Spells(s, ParseTime(s).value)
  {
    var c := ParseTime(s).value;
    var i := if |s| >= 2 && s[1] == ':' then 1 else 2;
    DigitsAreDecimalOrPad2(s[..i]);
    DigitsAreDecimalOrPad2(s[i + 1..]);
    assert FieldText(s[..i], c.hour) && FieldText(s[i + 1..], c.minute);
  }

  /** Reading a rendered clock gives the clock back. */
  lemma RenderParses(c: Clock)
    requires ValidClock(c)
    ensures ParseTime(Render(c)) == Some(c)
    ensures ClockChars(Render(c))
  {
    ParseJoin(Pad2(c.hour), Pad2(c.minute));
  }

  /** `normalize_time`: re-render a readable time zero-padded; leave anything else as it is. */
  function NormalizeTime(s: string): string {
    match ParseTime(s)
    case Some(c) => Render(c)
    case None => s
  }

  /** Every spelling of a valid clock normalises to its zero-padded "HH:MM". */
  lemma NormalizeTimeOfSpelling(s: string, c: Clock)
    requires Spells(s, c)
    ensures NormalizeTime(s) == Render(c)
  {
    ParseTimeSpells(s, c);
  }

  /** A text that spells no clock is returned unchanged. */
  lemma NormalizeTimeUnparsed(s: string)
    requires forall c :: !Spells(s, c)
    ensures NormalizeTime(s) == s
  {
    if ParseTime(s).Some? {
      ParseTimeSpells(s, ParseTime(s).value);
    }
  }

  lemma NormalizeTimeIdempotent(s: string)
    ensures NormalizeTime(NormalizeTime(s)) == NormalizeTime(s)
  {
    if ParseTime(s).Some? {
      RenderParses(ParseTime(s).value);
    }
  }

  /** `normalize_time_slot`: split on " - "; with exactly two pieces, strip and normalise each. */
  function NormalizeTimeSlot(s: string): string {
    var parts := Split(s);
    if |parts| != 2 then s
    else NormalizeTime(Strip(parts[0])) + Sep + NormalizeTime(Strip(parts[1]))
  }

  /** What normalising leaves of one piece of a split. */
  lemma NormalizedPiece(p: string)
    requires NoSep(p)
    ensures NoSep(NormalizeTime(Strip(p)))
    ensures Strip(NormalizeTime(Strip(p))) == NormalizeTime(Strip(p))
    ensures NormalizeTime(NormalizeTime(Strip(p))) == NormalizeTime(Strip(p))
  {
    var z := Strip(p);
    NoSepStrip(p);
    StripIdempotent(p);
    NormalizeTimeIdempotent(z);
    match ParseTime(z)
    case None =>
    case Some(c) =>
      RenderParses(c);
      ClockCharsNoSep(Render(c));
  }

  lemma ClockCharsNoSep(s: string)
    requires ClockChars(s)
    ensures NoSep(s) && !EndsWithSpaceDash(s) && Strip(s) == s
  {
    if s != [] {
      StripNoEdgeSpace(s);
    }
  }

  /** A label that splits into two pieces normalises piece by piece. */
  lemma NormalizeTimeSlotOfSplit(s: string, x: string, y: string)
    requires Split(s) == [x, y]
    ensures NormalizeTimeSlot(s) == NormalizeTime(Strip(x)) + Sep + NormalizeTime(Strip(y))
  {
  }

  /** Two separator-free pieces, the first not ending in " -", split apart again after joining. */
  lemma SplitPair(x: string, y: string)
    requires NoSep(x) && !EndsWithSpaceDash(x) && NoSep(y)
    ensures Split(x + Sep + y) == [x, y]
  {
    SplitJoin(x, y);
    SplitNoSep(y);
  }

  /** A rendered clock is its own strip and its own normal form. */
  lemma RenderNormal(c: Clock)
    requires ValidClock(c)
    ensures NoSep(Render(c)) && !EndsWithSpaceDash(Render(c))
    ensures Strip(Render(c)) == Render(c) && ParseTime(Render(c)) == Some(c)
    ensures NormalizeTime(Strip(Render(c))) == Render(c)
  {
    RenderParses(c);
    ClockCharsNoSep(Render(c));
  }

  /**
    * `normalize_time_slot` is idempotent except when the normalised start
    * ends with " -": there the separator is found one character early on
    * the second pass.
    */
  lemma NormalizeTimeSlotIdempotent(s: string)
    requires |Split(s)| == 2 ==> !EndsWithSpaceDash(NormalizeTime(Strip(Split(s)[0])))
    ensures NormalizeTimeSlot(NormalizeTimeSlot(s)) == NormalizeTimeSlot(s)
  {
    var parts := Split(s);
    if |parts| == 2 {
      NormalizeTwoPiecesIdempotent(s, parts[0], parts[1]);
    } else {
      assert NormalizeTimeSlot(s) == s;
    }
  }

  lemma NormalizeTwoPiecesIdempotent(s: string, p: string, q: string)
    requires Split(s) == [p, q] && !EndsWithSpaceDash(NormalizeTime(Strip(p)))
    ensures NormalizeTimeSlot(NormalizeTimeSlot(s)) == NormalizeTimeSlot(s)
  {
    var x, y := NormalizeTime(Strip(p)), NormalizeTime(Strip(q));
    SplitPartsNoSep(s);
    assert NoSep(Split(s)[0]) && NoSep(Split(s)[1]);
    NormalizedPiece(p);
    NormalizedPiece(q);
    NormalizeTimeSlotOfSplit(s, p, q);
    SplitPair(x, y);
    NormalizeTimeSlotOfSplit(x + Sep + y, x, y);
  }

  /** A label made of two clock spellings normalises to the zero-padded label. */
  lemma NormalizeTimeSlotOfClocks(a: string, b: string, c1: Clock, c2: Clock)
    requires Spells(a, c1) && Spells(b, c2)
    ensures NormalizeTimeSlot(a + Sep + b) == Render(c1) + Sep + Render(c2)
  {
    SpellsChars(a, c1);
    SpellsChars(b, c2);
    ClockCharsNoSep(a);
    ClockCharsNoSep(b);
    SplitPair(a, b);
    NormalizeTimeSlotOfSplit(a + Sep + b, a, b);
    NormalizeTimeOfSpelling(a, c1);
    NormalizeTimeOfSpelling(b, c2);
  }

  lemma SpellsChars(s: string, c: Clock)
    requires Spells(s, c)
    ensures ClockChars(s)
  {
    var k :| 1 <= k <= 2 && k < |s| && s[k] == ':' && FieldText(s[..k], c.hour) && FieldText(s[k + 1..], c.minute);
    forall i | 0 <= i < |s|
      ensures IsDigit(s[i]) || s[i] == ':'
    {
      if i < k {
        assert s[i] == s[..k][i];
      } else if i > k {
        assert s[i] == s[k + 1..][i - k - 1];
      }
    }
  }

  /**
    * First pass over "a\t -\t - b": the separator is found after the tab,
    * the start strips to "a\t -", and neither piece reads as a time.
    */
  lemma FirstPass(s: string)
    requires s == "a\t -\t - b"
    ensures NormalizeTimeSlot(s) == "a\t - - b"
  {
    FirstPassText(s);
    var p, q := s[..5], s[8..];
    FirstPassStart(p);
    LetterPiece(q);
    SplitPair(p, q);
    NormalizeTimeSlotOfSplit(s, p, q);
    assert p[..4] == s[..4];
  }

  lemma FirstPassText(s: string)
    requires s == "a\t -\t - b"
    ensures s == s[..5] + Sep + s[8..]
    ensures s[..4] + Sep + s[8..] == "a\t - - b"
    ensures var p := s[..5]; |p| == 5 && p[0] == 'a' && p[1] == '\t' && p[2] == ' ' && p[3] == '-' && p[4] == '\t'
    ensures |s[8..]| == 1 && s[8..][0] == 'b'
  {
  }

  /** "a\t -\t" has no separator, does not end with " -", and strips to "a\t -", which is no time. */
  lemma FirstPassStart(p: string)
    requires |p| == 5 && p[0] == 'a' && p[1] == '\t' && p[2] == ' ' && p[3] == '-' && p[4] == '\t'
    ensures NoSep(p) && !EndsWithSpaceDash(p)
    ensures NormalizeTime(Strip(p)) == p[..4]
  {
    var p' := p[..4];
    assert Strip(p) == p' by {
      assert StripLeft(p) == p;
    }
    assert p'[1] == '\t' && p'[2] == ' ';
    assert ParseTime(p') == None;
  }

  /** "b" has no separator, no white space at its edges and is no time: it normalises to itself. */
  lemma LetterPiece(q: string)
    requires |q| == 1 && q[0] == 'b'
    ensures NoSep(q) && NormalizeTime(Strip(q)) == q
  {
    assert !IsSpace(q[0]);
    assert StripLeft(q) == q;
    assert StripRight(q) == q;
    assert |q| < 3;
  }

  /** So does "- b". */
  lemma DashPiece(q: string)
    requires |q| == 3 && q[0] == '-' && q[1] == ' ' && q[2] == 'b'
    ensures NoSep(q) && NormalizeTime(Strip(q)) == q
  {
    assert StripLeft(q) == q;
    assert StripRight(q) == q;
    assert ParseTime(q) == None;
  }

  /** Second pass over "a\t - - b": now the separator is found right after the tab. */
  lemma SecondPass(s: string)
    requires s == "a\t - - b"
    ensures NormalizeTimeSlot(s) == "a - - b"
  {
    SecondPassText(s);
    var p, q := s[..2], s[5..];
    SecondPassStart(p);
    DashPiece(q);
    SplitPair(p, q);
    NormalizeTimeSlotOfSplit(s, p, q);
    assert p[..1] == s[..1];
  }

  lemma SecondPassText(s: string)
    requires s == "a\t - - b"
    ensures s == s[..2] + Sep + s[5..]
    ensures s[..1] + Sep + s[5..] == "a - - b"
    ensures var p := s[..2]; |p| == 2 && p[0] == 'a' && p[1] == '\t'
    ensures var q := s[5..]; |q| == 3 && q[0] == '-' && q[1] == ' ' && q[2] == 'b'
  {
  }

  /** "a\t" has no separator and strips to "a", which is no time. */
  lemma SecondPassStart(p: string)
    requires |p| == 2 && p[0] == 'a' && p[1] == '\t'
    ensures NoSep(p) && !EndsWithSpaceDash(p)
    ensures NormalizeTime(Strip(p)) == p[..1]
  {
    assert Strip(p) == p[..1] by {
      assert StripLeft(p) == p;
    }
    assert ParseTime(p[..1]) == None;
  }

  /** Without the side condition idempotence fails: the second pass finds an earlier separator. */
  lemma NormalizeTimeSlotNotIdempotent(s: string)
    requires s == "a\t -\t - b"
    ensures NormalizeTimeSlot(NormalizeTimeSlot(s)) != NormalizeTimeSlot(s)
  {
    FirstPass(s);
    var r := NormalizeTimeSlot(s);
    SecondPass(r);
    assert |NormalizeTimeSlot(r)| < |r|;
  }

  /** `format_time_slot`: the label of a start and an end. */
  function FormatTimeSlot(start: string, end: string): string {
    start + Sep + end
  }

  /** Splitting a formatted label gives its two times back, and the label is already normal. */
  lemma FormatTimeSlotSplits(c1: Clock, c2: Clock)
    requires ValidClock(c1) && ValidClock(c2)
    ensures Split(FormatTimeSlot(Render(c1), Render(c2))) == [Render(c1), Render(c2)]
    ensures NormalizeTimeSlot(FormatTimeSlot(Render(c1), Render(c2))) == FormatTimeSlot(Render(c1), Render(c2))
  {
    var x, y := Render(c1), Render(c2);
    RenderNormal(c1);
    RenderNormal(c2);
    SplitPair(x, y);
    NormalizeTimeSlotOfSplit(x + Sep + y, x, y);
  }

  /** The first lesson of the day starts at 08:00 ... */
  const DayStart: int := 8 * 60
  /** ... and lessons last half an hour. */
  const SlotLength: int := 30

  /** "HH:MM" for a minute of the day. */
  function MinuteText(t: int): string
    requires 0 <= t < 24 * 60
  {
    Render(Clock(t / 60, t % 60))
  }

  /** The label of the half-hour slot starting at minute `t`. */
  function SlotLabel(t: int): string
    requires 0 <= t && t + SlotLength < 24 * 60
  {
    MinuteText(t) + Sep + MinuteText(t + SlotLength)
  }

  /** The day grid: 24 half-hour labels from 08:00 to 20:00. */
  function DaySlots(): seq<string> {
    seq(24, i requires 0 <= i < 24 => SlotLabel(DayStart + SlotLength * i))
  }

  /**
    * `generate_time_slots`: for each hour 8..19 and minute 0, 30, the
    * label from that time to thirty minutes later, carrying into the next
    * hour when the minutes reach 60.
    */
  method GenerateTimeSlots() returns (slots: seq<string>)
    ensures slots == DaySlots()
    ensures |slots| == 24 && slots[0] == "08:00 - 08:30" && slots[23] == "19:30 - 20:00"
  {
    slots := [];
    for hour := 8 to 20
      invariant |slots| == 2 * (hour - 8)
      invariant forall i :: 0 <= i < |slots| ==> slots[i] == DaySlots()[i]
    {
      var minutes := [0, 30];
      for k := 0 to 2
        invariant |slots| == 2 * (hour - 8) + k
        invariant forall i :: 0 <= i < |slots| ==> slots[i] == DaySlots()[i]
      {
        var minute := minutes[k];
        var startTime := Pad2(hour) + ":" + Pad2(minute);
        var endMinute := minute + 30;
        var endHour := hour;
        if endMinute >= 60 {
          endMinute := 0;
          endHour := endHour + 1;
        }
        var endTime := Pad2(endHour) + ":" + Pad2(endMinute);
        DaySlotAt(|slots|, hour, minute, endHour, endMinute);
        slots := slots + [startTime + Sep + endTime];
      }
    }
    DaySlotsEnds();
  }

  /** Slot `i` of the grid is the one the loop builds from its hour and minute. */
  lemma DaySlotAt(i: int, hour: int, minute: int, endHour: int, endMinute: int)
    requires 0 <= i < 24 && hour == 8 + i / 2 && minute == 30 * (i % 2)
    requires (minute + 30 < 60 && endHour == hour && endMinute == minute + 30) || (minute + 30 >= 60 && endHour == hour + 1 && endMinute == 0)
    ensures DaySlots()[i] == Pad2(hour) + ":" + Pad2(minute) + Sep + Pad2(endHour) + ":" + Pad2(endMinute)
  {
    var t := DayStart + SlotLength * i;
    assert t / 60 == hour && t % 60 == minute;
    assert (t + 30) / 60 == endHour && (t + 30) % 60 == endMinute;
  }

  /** The grid runs from "08:00 - 08:30" to "19:30 - 20:00". */
  lemma DaySlotsEnds()
    ensures DaySlots()[0] == "08:00 - 08:30" && DaySlots()[23] == "19:30 - 20:00"
  {
    assert DaySlots()[0] == SlotLabel(480);
    assert DaySlots()[23] == SlotLabel(1170);
    assert Pad2(8) == "08" && Pad2(0) == "00" && Pad2(30) == "30";
    assert Pad2(19) == "19" && Pad2(20) == "20";
  }

  /** Earlier minutes of the day render to lexicographically smaller texts. */
  lemma MinuteTextLess(t1: int, t2: int)
    requires 0 <= t1 < t2 < 24 * 60
    ensures LexLess(MinuteText(t1), MinuteText(t2))
  {
    var h1, m1, h2, m2 := t1 / 60, t1 % 60, t2 / 60, t2 % 60;
    if h1 < h2 {
      Pad2Less(h1, h2);
      LexLessExtend(Pad2(h1), Pad2(h2), ":" + Pad2(m1), ":" + Pad2(m2));
      assert MinuteText(t1) == Pad2(h1) + (":" + Pad2(m1));
      assert MinuteText(t2) == Pad2(h2) + (":" + Pad2(m2));
    } else {
      assert h1 == h2 && m1 < m2;
      Pad2Less(m1, m2);
      LexLessPrefix(Pad2(h1) + ":", Pad2(m1), Pad2(m2));
    }
  }

  /** The day grid is strictly increasing: the order the booking page lists the slots in. */
  lemma DaySlotsIncreasing(i: int, j: int)
    requires 0 <= i < j < 24
    ensures LexLess(DaySlots()[i], DaySlots()[j])
  {
    var t1, t2 := DayStart + SlotLength * i, DayStart + SlotLength * j;
    MinuteTextLess(t1, t2);
    assert |MinuteText(t1)| == |MinuteText(t2)|;
    LexLessExtend(MinuteText(t1), MinuteText(t2), Sep + MinuteText(t1 + SlotLength), Sep + MinuteText(t2 + SlotLength));
    assert DaySlots()[i] == MinuteText(t1) + (Sep + MinuteText(t1 + SlotLength));
    assert DaySlots()[j] == MinuteText(t2) + (Sep + MinuteText(t2 + SlotLength));
  }

  /**
    * The duration in minutes of a label, read as `get_booking_stats` reads
    * it: split on " - ", strip both pieces, parse both as "%H:%M". A label
    * whose end is before its start has a negative duration.
    */
  function SlotDuration(slot: string): Option<int> {
    var parts := Split(slot);
    if |parts| != 2 then None
    else
      match (ParseTime(Strip(parts[0])), ParseTime(Strip(parts[1])))
      case (Some(a), Some(b)) => Some(MinuteOfDay(b) - MinuteOfDay(a))
      case _ => None
  }

  /** A label of two rendered clocks lasts from the first to the second. */
  lemma SlotDurationOfClocks(c1: Clock, c2: Clock)
    requires ValidClock(c1) && ValidClock(c2)
    ensures SlotDuration(FormatTimeSlot(Render(c1), Render(c2))) == Some(MinuteOfDay(c2) - MinuteOfDay(c1))
  {
    FormatTimeSlotSplits(c1, c2);
    RenderNormal(c1);
    RenderNormal(c2);
  }

  /**
    * Label `i` of the day grid is canonical, starts at 08:00 + 30*i and
    * lasts exactly thirty minutes.
    */
  lemma DaySlotsShape(i: int)
    requires 0 <= i < 24
    ensures |Split(DaySlots()[i])| == 2 && Split(DaySlots()[i])[0] == Render(Clock(8 + i / 2, 30 * (i % 2)))
    ensures NormalizeTimeSlot(DaySlots()[i]) == DaySlots()[i]
    ensures SlotDuration(DaySlots()[i]) == Some(SlotLength)
  {
    var t := DayStart + SlotLength * i;
    var c1, c2 := Clock(t / 60, t % 60), Clock((t + 30) / 60, (t + 30) % 60);
    assert t / 60 == 8 + i / 2 && t % 60 == 30 * (i % 2);
    assert c1 == Clock(8 + i / 2, 30 * (i % 2));
    var slot := DaySlots()[i];
    assert slot == FormatTimeSlot(Render(c1), Render(c2));
    FormatTimeSlotSplits(c1, c2);
    assert Split(slot) == [Render(c1), Render(c2)];
    SlotDurationOfClocks(c1, c2);
  }

  const DayNames: seq<string> := ["Poniedziałek", "Wtorek", "Środa", "Czwartek", "Piątek", "Sobota", "Niedziela"]

  /** `get_day_name`: Monday is day 0; a number outside 0..6 is "Nieznany" (unknown). */
  function GetDayName(day: int): (name: string)
    ensures name == "Nieznany" <==> !(0 <= day < 7)
    ensures 0 <= day < 7 ==> name == DayNames[day]
  {
    if 0 <= day < 7 then DayNames[day] else "Nieznany"
  }

  /** A calendar date. */
  datatype Date = Date(year: int, month: int, day: int)

  predicate LeapYear(y: int) {
    (y % 4 == 0 && y % 100 != 0) || y % 400 == 0
  }

  function DaysInMonth(y: int, m: int): int
    requires 1 <= m <= 12
  {
    if m == 2 then (if LeapYear(y) then 29 else 28)
    else if m == 4 || m == 6 || m == 9 || m == 11 then 30
    else 31
  }

  predicate ValidDate(d: Date) {
    1 <= d.year <= 9999 && 1 <= d.month <= 12 && 1 <= d.day <= DaysInMonth(d.year, d.month)
  }

  /** `%m` followed by '-': `1[0-2]|0[1-9]` as two characters. */
  predicate MonthText2(a: char, b: char) {
    (a == '1' && '0' <= b <= '2') || (a == '0' && '1' <= b <= '9')
  }

  /**
    * `%d` at the end of the text: `3[01]|[12]\d|0[1-9]|[1-9]| [1-9]`; the
    * first alternative that matches must reach the end.
    */
  function DayText(t: string): Option<int> {
    if |t| == 1 && '1' <= t[0] <= '9' then Some(DigitValue(t[0]))
    else if |t| == 2 && ((t[0] == '3' && '0' <= t[1] <= '1') || ('1' <= t[0] <= '2' && IsDigit(t[1])) || (t[0] == '0' && '1' <= t[1] <= '9'))
    then Some(DigitValue(t[0]) * 10 + DigitValue(t[1]))
    else if |t| == 2 && t[0] == ' ' && '1' <= t[1] <= '9' then Some(DigitValue(t[1]))
    else None
  }

  /**
    * `datetime.strptime(s, '%Y-%m-%d')`: four-digit year, one- or two-digit
    * month, the day as `DayText` reads it, and a date that exists.
    */
  function ParseDate(s: string): (r: Option<Date>)
    ensures r.Some? ==> ValidDate(r.value)
  {
    if |s| < 7 || !AllDigits(s[..4]) || s[4] != '-' then None
    else
      var year := Value(s[..4]);
      var (month, rest) :=
        if |s| >= 8 && MonthText2(s[5], s[6]) && s[7] == '-' then (DigitValue(s[5]) * 10 + DigitValue(s[6]), s[8..])
        else if '1' <= s[5] <= '9' && s[6] == '-' then (DigitValue(s[5]), s[7..])
        else (0, "");
      match DayText(rest)
      case Some(day) =>
        if 1 <= month <= 12 && ValidDate(Date(year, month, day)) then Some(Date(year, month, day)) else None
      case None => None
  }

  /** "YYYY-MM-DD", the form every booking and override date is stored in. */
  function IsoDate(d: Date): string
    requires ValidDate(d)
  {
    Pad2(d.year / 100) + Pad2(d.year % 100) + "-" + Pad2(d.month) + "-" + Pad2(d.day)
  }

  /** Every existing date written as "YYYY-MM-DD" passes the check and reads back as itself. */
  lemma ParseIsoDate(d: Date)
    requires ValidDate(d)
    ensures ParseDate(IsoDate(d)) == Some(d)
  {
    var s := IsoDate(d);
    var y := Pad2(d.year / 100) + Pad2(d.year % 100);
    assert s[..4] == y;
    assert AllDigits(y);
    assert y[..2] == Pad2(d.year / 100) && y[..3] == y[..2] + [y[2]] && y[..1] == [y[0]] && y[..0] == [];
    assert Value(y) == d.year;
    var mm, dd := Pad2(d.month), Pad2(d.day);
    assert s[5] == mm[0] && s[6] == mm[1] && s[7] == '-' && s[8..] == dd;
    if d.month >= 10 {
      assert MonthText2(s[5], s[6]);
    } else {
      assert MonthText2(s[5], s[6]);
    }
    assert DayText(dd) == Some(d.day);
  }
}
