/**
  * The small pure checks and mappings of app.py: the e-mail pattern used at
  * registration, the picture-extension check, the two directions between
  * role names and role numbers, and Python's `int()` on the day-of-week
  * field of the booking form.
  */
module Validators {
  import opened Wrappers
  import opened Text

  /** `[a-zA-Z]` */
  predicate IsAsciiLetter(c: char) {
    ('a' <= c <= 'z') || ('A' <= c <= 'Z')
  }

  /** `[a-zA-Z0-9._%+-]`, the characters of the part before '@'. */
  predicate IsLocalChar(c: char) {
    IsAsciiLetter(c) || IsDigit(c) || c == '.' || c == '_' || c == '%' || c == '+' || c == '-'
  }

  /** `[a-zA-Z0-9.-]`, the characters of the domain before its last dot. */
  predicate IsDomainChar(c: char) {
    IsAsciiLetter(c) || IsDigit(c) || c == '.' || c == '-'
  }

  predicate AllLocal(s: string) { forall i :: 0 <= i < |s| ==> IsLocalChar(s[i]) }
  predicate AllDomain(s: string) { forall i :: 0 <= i < |s| ==> IsDomainChar(s[i]) }
  predicate AllLetters(s: string) { forall i :: 0 <= i < |s| ==> IsAsciiLetter(s[i]) }

  /**
    * The pattern `^[a-zA-Z0-9._%+-]+@[a-zA-Z0-9.-]+\.[a-zA-Z]{2,}$` matched
    * with '@' at `at`, the final dot at `dot` and `$` at `end`: `$` matches
    * at the very end or just before one final newline.
    */
  predicate EmailAt(s: string, at: int, dot: int, end: int) {
    (end == |s| || (0 <= end == |s| - 1 && s[end] == '\n')) &&
    0 < at < dot - 1 && dot + 2 < end &&
    s[at] == '@' && s[dot] == '.' &&
    AllLocal(s[..at]) && AllDomain(s[at + 1..dot]) && AllLetters(s[dot + 1..end])
  }

  /** The regular expression's language: some placement of '@', the last dot and the end matches. */
  ghost predicate EmailGrammar(s: string) {
    exists at, dot, end :: EmailAt(s, at, dot, end)
  }

  /** Where `$` has to match: before a final newline, if there is one. */
  function EmailEnd(s: string): int {
    if |s| > 0 && s[|s| - 1] == '\n' then |s| - 1 else |s|
  }

  /** The index of the first `c` in `s`. */
  function FirstIndex(s: string, c: char): (r: Option<nat>)
    ensures r.Some? ==> r.value < |s| && s[r.value] == c && forall j :: 0 <= j < r.value ==> s[j] != c
    ensures r.None? ==> forall j :: 0 <= j < |s| ==> s[j] != c
  {
    if s == [] then None
    else if s[0] == c then Some(0)
    else match FirstIndex(s[1..], c)
      case None => None
      case Some(k) => Some(k + 1)
  }

  /** The index of the last `c` in `s`. */
  function LastIndex(s: string, c: char): (r: Option<nat>)
    ensures r.Some? ==> r.value < |s| && s[r.value] == c && forall j :: r.value < j < |s| ==> s[j] != c
    ensures r.None? ==> forall j :: 0 <= j < |s| ==> s[j] != c
  {
    if s == [] then None
    else if s[|s| - 1] == c then Some(|s| - 1)
    else LastIndex(s[..|s| - 1], c)
  }

  /**
    * `is_valid_email`: decided by one scan, with '@' taken as the first '@'
    * and the dot as the last '.' before the end.
    */
  function IsValidEmail(s: string): bool {
    var end := EmailEnd(s);
    var t := s[..end];
    match (FirstIndex(t, '@'), LastIndex(t, '.'))
    case (Some(at), Some(dot)) => EmailAt(s, at, dot, end)
    case _ => false
  }

  /** The scan accepts exactly the language of the pattern. */
  lemma IsValidEmailGrammar(s: string)
    ensures IsValidEmail(s) <==> EmailGrammar(s)
  {
    var end := EmailEnd(s);
    var t := s[..end];
    if IsValidEmail(s) {
      var at, dot := FirstIndex(t, '@').value, LastIndex(t, '.').value;
      assert EmailAt(s, at, dot, end);
    }
    if EmailGrammar(s) {
      var at, dot, e :| EmailAt(s, at, dot, e);
      assert e == end by {
        if e == |s| && |s| > 0 {
          assert s[|s| - 1] == s[dot + 1..e][e - dot - 2];
        }
      }
      EmailWitnessesUnique(s, at, dot, end);
    }
  }

  /** A match pins '@' to the first '@' and the dot to the last dot. */
  lemma EmailWitnessesUnique(s: string, at: int, dot: int, end: int)
    requires EmailAt(s, at, dot, end) && end == EmailEnd(s)
    ensures FirstIndex(s[..end], '@') == Some(at)
    ensures LastIndex(s[..end], '.') == Some(dot)
  {
    var t := s[..end];
    forall j | 0 <= j < at
      ensures t[j] != '@'
    {
      assert t[j] == s[..at][j];
    }
    forall j | dot < j < end
      ensures t[j] != '.'
    {
      assert t[j] == s[dot + 1..end][j - dot - 1];
    }
    assert t[at] == '@' && t[dot] == '.';
    match FirstIndex(t, '@')
    case None =>
    case Some(k) =>
    match LastIndex(t, '.')
    case None =>
    case Some(m) =>
  }

  /** A concrete address with a trailing newline is accepted, because `$` matches before it. */
  lemma TrailingNewlineAccepted(s: string)
    requires s == "a@b.pl\n"
    ensures IsValidEmail(s)
  {
    assert EmailAt(s, 1, 3, 6) by {
      assert s[..1] == "a" && s[2..3] == "b" && s[4..6] == "pl";
    }
    IsValidEmailGrammar(s);
  }

  /** A one-letter top-level domain is refused. */
  lemma ShortTopLevelRefused(s: string)
    requires s == "a@b.c"
    ensures !IsValidEmail(s)
  {
    assert EmailEnd(s) == 5;
  }

  /** `app.config['ALLOWED_EXTENSIONS']` */
  const AllowedExtensions: set<string> := {"png", "jpg", "jpeg", "gif"}

  /**
    * `allowed_file`: the name has a dot and the text after its last dot,
    * lower-cased, is an allowed picture extension.
    */
  function AllowedFile(filename: string): bool {
    match LastIndex(filename, '.')
    case None => false
    case Some(k) => AsciiLower(filename[k + 1..]) in AllowedExtensions
  }

  /** An occurrence with none after it is the last one. */
  lemma LastIndexIs(s: string, c: char, k: int)
    requires 0 <= k < |s| && s[k] == c
    requires forall j :: k < j < |s| ==> s[j] != c
    ensures LastIndex(s, c) == Some(k)
  {
    var r := LastIndex(s, c);
    assert r.Some? && r.value >= k;
  }

  /** The last dot of `base + "." + ext` is the one added, when `ext` has none. */
  lemma LastDotOfJoin(base: string, ext: string)
    requires forall i :: 0 <= i < |ext| ==> ext[i] != '.'
    ensures LastIndex(base + "." + ext, '.') == Some(|base|)
    ensures (base + "." + ext)[|base| + 1..] == ext
  {
    NoDotAfterJoin(base, ext);
    LastIndexIs(base + "." + ext, '.', |base|);
  }

  lemma NoDotAfterJoin(base: string, ext: string)
    requires forall i :: 0 <= i < |ext| ==> ext[i] != '.'
    ensures forall j :: |base| < j < |base + "." + ext| ==> (base + "." + ext)[j] != '.'
    ensures (base + "." + ext)[|base| + 1..] == ext
  {
    var s := base + "." + ext;
    assert s[|base| + 1..] == ext;
    forall j | |base| < j < |s|
      ensures s[j] != '.'
    {
      assert s[j] == ext[j - |base| - 1];
    }
  }

  /** A name is judged by its extension alone, whatever precedes the last dot. */
  lemma AllowedFileExtension(base: string, ext: string)
    requires forall i :: 0 <= i < |ext| ==> ext[i] != '.'
    ensures AllowedFile(base + "." + ext) <==> AsciiLower(ext) in AllowedExtensions
  {
    LastDotOfJoin(base, ext);
  }

  /** A name without a dot is never allowed. */
  lemma AllowedFileNeedsDot(filename: string)
    requires forall i :: 0 <= i < |filename| ==> filename[i] != '.'
    ensures !AllowedFile(filename)
  {
  }

  const RoleUser: int := 0
  const RoleTeacher: int := 1
  const RoleRegionalTeacher: int := 2
  const RoleAdmin: int := 3

  /** The role names, indexed by role number. */
  const RoleNames: seq<string> := ["user", "teacher", "regional_teacher", "admin"]

  /**
    * `role_mapping.get(role_str.lower(), ROLE_USER)` at registration and in
    * the user editor: a known name in any letter case gives its number,
    * anything else the student role.
    */
  function RoleMapping(roleStr: string): (role: int)
    ensures 0 <= role < |RoleNames|
    ensures role != RoleUser ==> RoleNames[role] == AsciiLower(roleStr)
  {
    match AsciiLower(roleStr)
    case "user" => RoleUser
    case "teacher" => RoleTeacher
    case "regional_teacher" => RoleRegionalTeacher
    case "admin" => RoleAdmin
    case _ => RoleUser
  }

  /** `get_role_name`: the name of a role number; an unknown number reads as "user". */
  function GetRoleName(roleId: int): (name: string)
    ensures name in RoleNames
    ensures name == "user" <==> !(RoleTeacher <= roleId <= RoleAdmin)
  {
    if 0 <= roleId < |RoleNames| then RoleNames[roleId] else "user"
  }

  /** Mapping a role's name back gives the role: the session name and the stored number agree. */
  lemma RoleRoundTrip(roleId: int)
    requires 0 <= roleId < |RoleNames|
    ensures RoleMapping(GetRoleName(roleId)) == roleId
  {
    var name := GetRoleName(roleId);
    LowerRoleName(roleId);
    assert AsciiLower(name) == RoleNames[roleId];
  }

  /** The role names are written in lower case. */
  lemma LowerRoleName(roleId: int)
    requires 0 <= roleId < |RoleNames|
    ensures AsciiLower(RoleNames[roleId]) == RoleNames[roleId]
  {
    var name := RoleNames[roleId];
    forall i | 0 <= i < |name|
      ensures !IsAsciiUpper(name[i])
    {
    }
    AsciiLowerOfLower(name);
  }

  /** Lower-casing leaves a text without capitals as it is. */
  lemma AsciiLowerOfLower(s: string)
    requires forall i :: 0 <= i < |s| ==> !IsAsciiUpper(s[i])
    ensures AsciiLower(s) == s
  {
  }

  /** Naming the mapped number gives the lower-cased input back, or "user" for an unknown name. */
  lemma RoleNameRoundTrip(roleStr: string)
    ensures GetRoleName(RoleMapping(roleStr)) == if AsciiLower(roleStr) in RoleNames then AsciiLower(roleStr) else "user"
  {
  }

  /** Letter case is irrelevant to the mapping. */
  lemma RoleMappingCaseInsensitive(roleStr: string)
    ensures RoleMapping(roleStr) == RoleMapping(AsciiLower(roleStr))
  {
    AsciiLowerIdempotent(roleStr);
  }

  lemma AsciiLowerIdempotent(s: string)
    ensures AsciiLower(AsciiLower(s)) == AsciiLower(s)
  {
    var l := AsciiLower(s);
    forall i | 0 <= i < |l|
      ensures AsciiLower(l)[i] == l[i]
    {
    }
  }

  /** Digits with single underscores between them, as `int()` allows. */
  predicate DigitGroups(s: string) {
    |s| > 0 && IsDigit(s[0]) &&
    (|s| == 1 || (s[1] == '_' && DigitGroups(s[2..])) || (s[1] != '_' && DigitGroups(s[1..])))
  }

  /** The digits of a grouped number, underscores dropped. */
  function GroupDigits(s: string): (r: string)
    requires DigitGroups(s)
    ensures |r| > 0 && AllDigits(r)
  {
    if |s| == 1 then [s[0]]
    else if s[1] == '_' then [s[0]] + GroupDigits(s[2..])
    else [s[0]] + GroupDigits(s[1..])
  }

  /** The length of a leading sign: one for '+' or '-', else none. */
  function SignLength(t: string): (k: nat)
    ensures k <= |t|
  {
    if |t| > 0 && (t[0] == '-' || t[0] == '+') then 1 else 0
  }

  /** `int()` after white space is stripped: an optional sign, then grouped digits. */
  function IntOfStripped(t: string): Option<int> {
    var body := t[SignLength(t)..];
    if !DigitGroups(body) then None
    else
      var n: int := Value(GroupDigits(body));
      Some(if SignLength(t) == 1 && t[0] == '-' then -n else n)
  }

  /**
    * Python's `int(text)` on ASCII text: surrounding white space, an
    * optional sign, then decimal digits possibly grouped by single
    * underscores; anything else raises `ValueError` (here `None`).
    */
  function IntText(text: string): Option<int> {
    IntOfStripped(Strip(text))
  }

  /** The grammar `int()` accepts once white space is stripped: grouped digits after at most one sign. */
  predicate SignedDigits(t: string) {
    DigitGroups(t) || (|t| > 0 && (t[0] == '+' || t[0] == '-') && DigitGroups(t[1..]))
  }

  /** `int(text)` succeeds exactly when the stripped text is a signed digit group. */
  lemma IntTextGrammar(text: string)
    ensures IntText(text).Some? <==> SignedDigits(Strip(text))
  {
    var t := Strip(text);
    if DigitGroups(t) {
      assert IsDigit(t[0]);
      assert SignLength(t) == 0 && t[0..] == t;
    }
  }

  /** A run of plain digits is one digit group whose digits are itself. */
  lemma {:induction false} PlainDigits(s: string)
    requires s != [] && AllDigits(s)
    ensures DigitGroups(s) && GroupDigits(s) == s
  {
    if |s| > 1 {
      assert s[1] != '_';
      PlainDigits(s[1..]);
    }
  }

  /** `int()` reads a string of digits as its decimal value. */
  lemma IntTextDigits(s: string)
    requires s != [] && AllDigits(s)
    ensures IntText(s) == Some(Value(s))
  {
    StripNoEdgeSpace(s);
    PlainDigits(s);
    assert SignLength(s) == 0 && s[0..] == s;
  }

  /** A leading minus sign negates: `int("-" + digits)` is minus their value. */
  lemma IntTextNegated(s: string)
    requires s != [] && AllDigits(s)
    ensures IntText("-" + s) == Some(-(Value(s) as int))
  {
    var t := ['-'] + s;
    NegatedDigits(s);
    assert t[0] == '-' && t[|t| - 1] == s[|s| - 1] && IsDigit(s[|s| - 1]);
    StripNoEdgeSpace(t);
  }

  /** The signed step of IntTextNegated, before white space is considered. */
  lemma NegatedDigits(s: string)
    requires s != [] && AllDigits(s)
    ensures IntOfStripped(['-'] + s) == Some(-(Value(s) as int))
  {
    var t := ['-'] + s;
    assert t[1..] == s;
    assert SignLength(t) == 1;
    PlainDigits(s);
  }

  /** `int(str(n))` is `n`: a weekday or an hour printed by the handlers reads back as itself. */
  lemma IntTextDecimal(n: int)
    requires 0 <= n <= 99
    ensures IntText(Decimal(n)) == Some(n)
  {
    IntTextDigits(Decimal(n));
  }

  /** Grouping underscores do not change the number, and a minus sign negates: "-1_0" is minus ten. */
  lemma IntOfGrouped(t: string)
    requires t == "-1_0"
    ensures IntOfStripped(t) == Some(-10)
  {
    var body := t[1..];
    assert body == "1_0";
    assert body[2..] == "0";
    assert SignLength(t) == 1;
    assert DigitGroups(body[2..]) && GroupDigits(body[2..]) == "0";
    assert DigitGroups(body);
    assert GroupDigits(body) == "10";
    assert "10"[..1] == "1" && "1"[..0] == [];
    assert Value("10") == 10;
  }
}
