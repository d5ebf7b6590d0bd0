/**
  * String primitives the handlers rely on, stated with Python's meaning:
  * `str.isspace`, `str.strip`, `str.split(" - ")`, the `in` test on strings,
  * ASCII digits and the binary (code point) ordering SQLite uses for TEXT.
  */
module Text {

  /** The separator every time-slot label uses between its start and its end. */
  const Sep: string := " - "

  /** Python's `str.isspace` for one character (the Unicode White_Space set it uses). */
  predicate IsSpace(c: char) {
    var n := c as int;
    (9 <= n <= 13) || (28 <= n <= 32) || n == 0x85 || n == 0xA0 || n == 0x1680
    || (0x2000 <= n <= 0x200A) || n == 0x2028 || n == 0x2029 || n == 0x202F
    || n == 0x205F || n == 0x3000
  }

  /** `s.lstrip()` */
  function StripLeft(s: string): (r: string)
    ensures |r| <= |s| && r == s[|s| - |r|..]
    ensures r == [] || !IsSpace(r[0])
    ensures forall i :: 0 <= i < |s| - |r| ==> IsSpace(s[i])
  {
    if s != [] && IsSpace(s[0]) then StripLeft(s[1..]) else s
  }

  /** `s.rstrip()` */
  function StripRight(s: string): (r: string)
    ensures |r| <= |s| && r == s[..|r|]
    ensures r == [] || !IsSpace(r[|r| - 1])
    ensures forall i :: |r| <= i < |s| ==> IsSpace(s[i])
  {
    if s != [] && IsSpace(s[|s| - 1]) then StripRight(s[..|s| - 1]) else s
  }

  /** `s.strip()`: the longest slice of `s` that neither starts nor ends with white space. */
  function Strip(s: string): (r: string)
    ensures |r| <= |s|
    ensures r == [] || (!IsSpace(r[0]) && !IsSpace(r[|r| - 1]))
  {
    StripRight(StripLeft(s))
  }

  lemma StripIdempotent(s: string)
    ensures Strip(Strip(s)) == Strip(s)
  {
    var r := Strip(s);
    assert StripLeft(r) == r;
    assert StripRight(r) == r;
  }

  /** A string that neither starts nor ends with white space is its own strip. */
  lemma StripNoEdgeSpace(s: string)
    requires s == [] || (!IsSpace(s[0]) && !IsSpace(s[|s| - 1]))
    ensures Strip(s) == s
  {
  }

  /** The separator `" - "` starts at index `i` of `s`. */
  predicate SepAt(s: string, i: int) {
    0 <= i && i + 3 <= |s| && s[i] == ' ' && s[i + 1] == '-' && s[i + 2] == ' '
  }

  /** `" - "` does not occur in `s`. */
  predicate NoSep(s: string) {
    forall i :: 0 <= i < |s| ==> !SepAt(s, i)
  }

  /** `s` ends with `" -"`: followed by `" - "`, such a string makes the separator start early. */
  predicate EndsWithSpaceDash(s: string) {
    |s| >= 2 && s[|s| - 2] == ' ' && s[|s| - 1] == '-'
  }

  /** A slice of a string without the separator has none either. */
  lemma NoSepSlice(s: string, a: int, b: int)
    requires 0 <= a <= b <= |s| && NoSep(s)
    ensures NoSep(s[a..b])
  {
    forall i | 0 <= i < b - a
      ensures !SepAt(s[a..b], i)
    {
      assert SepAt(s[a..b], i) ==> SepAt(s, a + i);
    }
  }

  lemma NoSepStrip(s: string)
    requires NoSep(s)
    ensures NoSep(Strip(s))
  {
    var l := StripLeft(s);
    var r := StripRight(l);
    NoSepSlice(s, |s| - |l|, |s|);
    assert l == s[|s| - |l|..|s|];
    NoSepSlice(l, 0, |r|);
    assert r == l[0..|r|];
  }

  /**
    * Python's `s.split(" - ")`: cut at every occurrence of the separator,
    * scanning from the left and never reusing characters of a cut.
    */
  function Split(s: string): (parts: seq<string>)
    ensures |parts| >= 1
    ensures |parts[0]| <= |s| && parts[0] == s[..|parts[0]|]
    decreases |s|
  {
    if |s| < 3 then [s]
    else if SepAt(s, 0) then [""] + Split(s[3..])
    else
      var rest := Split(s[1..]);
      [[s[0]] + rest[0]] + rest[1..]
  }

  /** A string without the separator is not cut at all. */
  lemma {:induction false} SplitNoSep(s: string)
    requires NoSep(s)
    ensures Split(s) == [s]
    decreases |s|
  {
    if |s| >= 3 {
      assert !SepAt(s, 0);
      NoSepSlice(s, 1, |s|);
      assert s[1..|s|] == s[1..];
      SplitNoSep(s[1..]);
      assert [s[0]] + s[1..] == s;
    }
  }

  /** Every piece `split` returns is free of the separator. */
  lemma {:induction false} SplitPartsNoSep(s: string)
    ensures forall k :: 0 <= k < |Split(s)| ==> NoSep(Split(s)[k])
    decreases |s|
  {
    if |s| < 3 {
    } else if SepAt(s, 0) {
      SplitPartsNoSep(s[3..]);
      assert Split(s) == [""] + Split(s[3..]);
    } else {
      var rest := Split(s[1..]);
      SplitPartsNoSep(s[1..]);
      var head := [s[0]] + rest[0];
      assert head == s[..|head|];
      forall i | 0 <= i < |head|
        ensures !SepAt(head, i)
      {
        if i > 0 {
          assert SepAt(head, i) ==> SepAt(rest[0], i - 1);
        } else {
          assert SepAt(head, 0) ==> SepAt(s, 0);
        }
      }
      assert Split(s) == [head] + rest[1..];
    }
  }

  /**
    * Joining two pieces with the separator and splitting again gives the
    * first piece back, unless the first piece ends with `" -"`.
    */
  lemma {:induction false} SplitJoin(x: string, y: string)
    requires NoSep(x) && !EndsWithSpaceDash(x)
    ensures Split(x + Sep + y) == [x] + Split(y)
    decreases |x|
  {
    var s := x + Sep + y;
    if |x| == 0 {
      assert s == Sep + y;
      assert SepAt(s, 0);
      assert s[3..] == y;
    } else {
      assert !SepAt(s, 0) by {
        if |x| >= 3 {
          assert SepAt(s, 0) ==> SepAt(x, 0);
        } else if |x| == 2 {
          assert s[1] == x[1] && s[2] == ' ';
        } else {
          assert s[1] == ' ';
        }
      }
      var x' := x[1..];
      NoSepSlice(x, 1, |x|);
      assert x[1..|x|] == x';
      assert !EndsWithSpaceDash(x') by {
        if |x'| >= 2 {
          assert x'[|x'| - 2] == x[|x| - 2] && x'[|x'| - 1] == x[|x| - 1];
        }
      }
      SplitJoin(x', y);
      assert s[1..] == x' + Sep + y;
      assert [s[0]] + x' == x;
    }
  }

  /** The two pieces of a two-piece split, joined with the separator, give the input back. */
  lemma {:induction false} SplitTwoJoin(s: string)
    requires |Split(s)| == 2
    ensures s == Split(s)[0] + Sep + Split(s)[1]
    decreases |s|
  {
    if |s| < 3 {
    } else if SepAt(s, 0) {
      SplitNoSepTail(s[3..]);
      SepThenRest(s);
    } else {
      var rest := Split(s[1..]);
      SplitTwoJoin(s[1..]);
      ConsJoin(s, rest[0], rest[1]);
    }
  }

  lemma SepThenRest(s: string)
    requires SepAt(s, 0)
    ensures s == "" + Sep + s[3..]
  {
    assert s[..3] == Sep;
    assert s == s[..3] + s[3..];
  }

  lemma ConsJoin(s: string, a: string, b: string)
    requires s != [] && s[1..] == a + Sep + b
    ensures s == ([s[0]] + a) + Sep + b
  {
    assert s == [s[0]] + s[1..];
  }

  /** A one-piece split returns the whole input. */
  lemma {:induction false} SplitNoSepTail(s: string)
    requires |Split(s)| == 1
    ensures Split(s) == [s]
    decreases |s|
  {
    if |s| >= 3 {
      if !SepAt(s, 0) {
        SplitNoSepTail(s[1..]);
        assert [s[0]] + s[1..] == s;
      }
    }
  }

  /** `needle` occurs in `haystack` starting at index `i`. */
  predicate OccursAt(haystack: string, needle: string, i: int) {
    0 <= i <= |haystack| - |needle| && haystack[i..i + |needle|] == needle
  }

  /** Python's `needle in haystack` on strings. */
  ghost predicate Contains(haystack: string, needle: string) {
    exists i :: OccursAt(haystack, needle, i)
  }

  /** A left-to-right scan for `needle`, the executable form of `Contains`. */
  function ContainsFrom(haystack: string, needle: string, i: nat): (r: bool)
    requires i <= |haystack|
    ensures r <==> exists j :: i <= j && OccursAt(haystack, needle, j)
    decreases |haystack| - i
  {
    if i + |needle| > |haystack| then false
    else if haystack[i..i + |needle|] == needle then assert OccursAt(haystack, needle, i); true
    else ContainsFrom(haystack, needle, i + 1)
  }

  predicate IsAsciiUpper(c: char) { 'A' <= c <= 'Z' }

  /** ASCII lower-casing: the only letters in the words the handlers compare against. */
  function AsciiLower(s: string): (r: string)
    ensures |r| == |s|
    ensures forall i :: 0 <= i < |s| ==> r[i] == if IsAsciiUpper(s[i]) then (s[i] as int + 32) as char else s[i]
  {
    if s == [] then [] else [if IsAsciiUpper(s[0]) then (s[0] as int + 32) as char else s[0]] + AsciiLower(s[1..])
  }

  predicate IsDigit(c: char) { '0' <= c <= '9' }

  predicate AllDigits(s: string) { forall i :: 0 <= i < |s| ==> IsDigit(s[i]) }

  function DigitValue(c: char): int requires IsDigit(c) { c as int - '0' as int }

  function Digit(d: int): (c: char)
    requires 0 <= d <= 9
    ensures IsDigit(c) && DigitValue(c) == d
  {
    ('0' as int + d) as char
  }

  /** A string is its part before `k`, its `k`-th character and its part after. */
  lemma CutAt(s: string, k: int)
    requires 0 <= k < |s|
    ensures s == s[..k] + [s[k]] + s[k + 1..]
  {
  }

  /** The decimal value of a string of ASCII digits. */
  function Value(s: string): (n: nat)
    requires AllDigits(s)
  {
    if s == [] then 0 else Value(s[..|s| - 1]) * 10 + DigitValue(s[|s| - 1])
  }

  /** `f"{n:02d}"` for 0 <= n <= 99. */
  function Pad2(n: int): (s: string)
    requires 0 <= n <= 99
    ensures |s| == 2 && AllDigits(s) && Value(s) == n
  {
    var hi, lo := n / 10, n % 10;
    var s := [Digit(hi), Digit(lo)];
    assert s[..1] == [Digit(hi)] && s[..1][..0] == [];
    assert Value(s[..1]) == hi;
    assert hi * 10 + lo == n;
    s
  }

  /** `str(n)` for 0 <= n <= 99. */
  function Decimal(n: int): (s: string)
    requires 0 <= n <= 99
    ensures 1 <= |s| <= 2 && AllDigits(s) && Value(s) == n
  {
    if n < 10 then
      var s := [Digit(n)];
      assert s[..0] == [];
      s
    else Pad2(n)
  }

  /** The only one- or two-digit strings worth `n` are `str(n)` and `f"{n:02d}"`. */
  lemma DigitsAreDecimalOrPad2(s: string)
    requires AllDigits(s) && 1 <= |s| <= 2 && Value(s) <= 99
    ensures s == Decimal(Value(s)) || s == Pad2(Value(s))
  {
    if |s| == 1 {
      assert s[..0] == [];
      assert s == [Digit(DigitValue(s[0]))];
    } else {
      assert s[..1] == [s[0]] && [s[0]][..0] == [];
      var a, b := DigitValue(s[0]), DigitValue(s[1]);
      assert Value(s) == a * 10 + b;
      assert Value(s) / 10 == a && Value(s) % 10 == b;
      assert s == [Digit(a), Digit(b)];
    }
  }

  /** Strict lexicographic order by code point (SQLite's binary collation on TEXT). */
  predicate LexLess(a: string, b: string)
    decreases |a|
  {
    if a == [] then b != []
    else if b == [] then false
    else a[0] < b[0] || (a[0] == b[0] && LexLess(a[1..], b[1..]))
  }

  /** `a <= b` in the binary collation. */
  predicate LexLeq(a: string, b: string) {
    a == b || LexLess(a, b)
  }

  /** Between strings of the same length the order is decided before either ends. */
  lemma {:induction false} LexLessExtend(a: string, b: string, x: string, y: string)
    requires |a| == |b| && LexLess(a, b)
    ensures LexLess(a + x, b + y)
    decreases |a|
  {
    assert a != [] && b != [];
    if a[0] == b[0] && !(a[0] < b[0]) {
      LexLessExtend(a[1..], b[1..], x, y);
      assert (a + x)[1..] == a[1..] + x && (b + y)[1..] == b[1..] + y;
    }
  }

  /** A common prefix does not change the order. */
  lemma {:induction false} LexLessPrefix(p: string, x: string, y: string)
    requires LexLess(x, y)
    ensures LexLess(p + x, p + y)
    decreases |p|
  {
    if p == [] {
      assert p + x == x && p + y == y;
    } else {
      LexLessPrefix(p[1..], x, y);
      assert (p + x)[1..] == p[1..] + x && (p + y)[1..] == p[1..] + y;
    }
  }

  lemma Pad2Less(m: int, n: int)
    requires 0 <= m < n <= 99
    ensures LexLess(Pad2(m), Pad2(n))
  {
    var a, b := Pad2(m), Pad2(n);
    assert a[1..] == [Digit(m % 10)] && b[1..] == [Digit(n % 10)];
    if m / 10 == n / 10 {
      assert m % 10 < n % 10;
      assert a[1..][1..] == [] && b[1..][1..] == [];
    }
  }
}
