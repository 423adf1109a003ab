/**
 * The deadline key of `sort_dataframe` (master-fees-app/app.py:91-116): the
 * deadline text is cleaned, parsed with the format "%d %b %Y" (pandas
 * `to_datetime` with `errors="coerce"`), and scored so that 2025 comes first,
 * 2026 second and every other year after them, with unparseable dates last.
 */
module Deadlines {

  import opened Wrappers
  import opened Text

  datatype Date = Date(year: int, month: int, day: int)

  /** A sorting score: a number, or +infinity for a deadline that did not parse. */
  datatype Score = Finite(value: int) | Infinity

  /** Ascending order on scores, with infinity above every number. */
  predicate ScoreLe(a: Score, b: Score) {
    match (a, b)
    case (_, Infinity) => true
    case (Infinity, Finite(_)) => false
    case (Finite(x), Finite(y)) => x <= y
  }

  // ---------------------------------------------------------------------------
  // Cleaning: str.replace(r"\(.*\)", ""), strip, upper, then r"^(\d) " -> r"0\1 "
  // ---------------------------------------------------------------------------

  /** Index of the first line break of `s`, or `|s|`: where `.` stops matching. */
  function LineEnd(s: string): (k: nat)
    ensures k <= |s| && '\n' !in s[..k]
    ensures k < |s| ==> s[k] == '\n'
  {
    if s == [] || s[0] == '\n' then 0 else 1 + LineEnd(s[1..])
  }

  /** Index of the last ')' of `s`, or -1 when it has none. */
  function LastClose(s: string): (k: int)
    ensures -1 <= k < |s|
    ensures k >= 0 ==> s[k] == ')'
    ensures forall i :: k < i < |s| ==> s[i] != ')'
  {
    if s == [] then -1
    else if s[|s| - 1] == ')' then |s| - 1
    else LastClose(s[..|s| - 1])
  }

  /**
   * `re.sub(r"\(.*\)", "", s)`: scanning left to right, a '(' that has a ')'
   * later on the same line starts a match, which runs greedily to the last ')'
   * of that line; the match is dropped and the scan resumes after it.
   */
  function RemoveParenthetical(s: string): (r: string)
    ensures |r| <= |s|
    ensures '(' !in s ==> r == s
  {
    if s == [] then []
    else
      var k := LastClose(s[..LineEnd(s)]);
      if s[0] == '(' && k > 0 then RemoveParenthetical(s[k + 1..])
      else [s[0]] + RemoveParenthetical(s[1..])
  }

  /** `str.replace(r"^(\d) ", r"0\1 ")`: a single leading digit followed by a space gets a leading zero. */
  function PadDay(t: string): (r: string)
    ensures |t| >= 2 && IsDigit(t[0]) && t[1] == ' ' ==> r == "0" + t
    ensures !(|t| >= 2 && IsDigit(t[0]) && t[1] == ' ') ==> r == t
  {
    if |t| >= 2 && IsDigit(t[0]) && t[1] == ' ' then "0" + t else t
  }

  lemma PadDayNoLower(u: string)
    requires NoLower(u)
    ensures NoLower(PadDay(u))
  {
    var r := PadDay(u);
    forall i | 0 <= i < |r|
      ensures !IsLower(r[i])
    {
      if r != u && i > 0 {
        assert r[i] == u[i - 1];
      }
    }
  }

  /** The cleaning of app.py:93-100, in its order. */
  function CleanDeadline(s: string): (t: string)
    ensures NoLower(t)
  {
    var u := Upper(Strip(RemoveParenthetical(s)));
    PadDayNoLower(u);
    PadDay(u)
  }

  /** A first character other than '(' is always kept. */
  lemma RemoveParentheticalKeep(s: string)
    requires s != [] && s[0] != '('
    ensures RemoveParenthetical(s) == [s[0]] + RemoveParenthetical(s[1..])
  {
  }

  /** A '(' closed later on its line starts a match that ends at the line's last ')'. */
  lemma RemoveParentheticalDrop(s: string)
    requires s != [] && s[0] == '(' && LastClose(s[..LineEnd(s)]) > 0
    ensures RemoveParenthetical(s) == RemoveParenthetical(s[LastClose(s[..LineEnd(s)]) + 1..])
  {
  }

  /** A character other than '(' put in front is kept in front. */
  lemma RemoveParentheticalCons(c: char, s: string)
    requires c != '('
    ensures RemoveParenthetical([c] + s) == [c] + RemoveParenthetical(s)
  {
    var x := [c] + s;
    assert x[0] == c && x[1..] == s;
    RemoveParentheticalKeep(x);
  }

  /** Text before the first '(' passes through the removal unchanged. */
  lemma {:induction false} RemoveParentheticalPrefix(p: string, s: string)
    requires '(' !in p
    ensures RemoveParenthetical(p + s) == p + RemoveParenthetical(s)
  {
    if p == [] {
      assert p + s == s;
    } else {
      assert p[0] != '(' && '(' !in p[1..] by {
        assert p[0] in p;
        assert forall x :: x in p[1..] ==> x in p;
      }
      RemoveParentheticalPrefix(p[1..], s);
      RemoveParentheticalPrefixStep(p, s);
    }
  }

  /** One more kept character in front of a prefix that passes through. */
  lemma RemoveParentheticalPrefixStep(p: string, s: string)
    requires p != [] && p[0] != '('
    requires RemoveParenthetical(p[1..] + s) == p[1..] + RemoveParenthetical(s)
    ensures RemoveParenthetical(p + s) == p + RemoveParenthetical(s)
  {
    var c, q, r := p[0], p[1..], RemoveParenthetical(s);
    HeadTail(p, s);
    HeadTail(p, r);
    RemoveParentheticalCons(c, q + s);
  }

  /** A non-empty text in front of another is its head in front of the rest. */
  lemma HeadTail(p: string, s: string)
    requires p != []
    ensures p + s == [p[0]] + (p[1..] + s)
  {
  }

  /** A text without ')' has nothing removed. */
  lemma {:induction false} RemoveParentheticalNoClose(s: string)
    requires ')' !in s
    ensures RemoveParenthetical(s) == s
  {
    if s != [] {
      var line := s[..LineEnd(s)];
      assert ')' !in line;
      RemoveParentheticalNoClose(s[1..]);
    }
  }

  lemma {:induction false} LineEndWhole(s: string)
    requires '\n' !in s
    ensures LineEnd(s) == |s|
  {
    if s != [] {
      LineEndWhole(s[1..]);
    }
  }

  lemma {:induction false} LastCloseAt(a: string, q: string)
    requires ')' !in q
    ensures LastClose(a + ")" + q) == |a|
  {
    var s := a + ")" + q;
    if q == [] {
      assert s[|s| - 1] == ')';
    } else {
      assert s[|s| - 1] == q[|q| - 1];
      assert s[..|s| - 1] == a + ")" + q[..|q| - 1];
      LastCloseAt(a, q[..|q| - 1]);
    }
  }

  lemma GroupLastClose(mid: string, q: string)
    requires ')' !in q && '\n' !in mid && '\n' !in q
    ensures var g := "(" + mid + ")" + q; LastClose(g[..LineEnd(g)]) == |mid| + 1
  {
    var g := "(" + mid + ")" + q;
    assert '\n' !in g;
    LineEndWhole(g);
    assert g[..LineEnd(g)] == g;
    assert g == ("(" + mid) + ")" + q;
    LastCloseAt("(" + mid, q);
  }

  /** A group opened at the start of a line is dropped up to the line's last ')'. */
  lemma GroupRemoved(mid: string, q: string)
    requires ')' !in q && '\n' !in mid && '\n' !in q
    ensures RemoveParenthetical("(" + mid + ")" + q) == q
  {
    var g := "(" + mid + ")" + q;
    GroupLastClose(mid, q);
    RemoveParentheticalDrop(g);
    assert g[|mid| + 2..] == q;
    RemoveParentheticalNoClose(q);
  }

  /**
   * On one line the removal is greedy: everything from the first '(' to the
   * last ')' goes, parentheses nested or repeated inside included.
   */
  lemma RemoveParentheticalGreedy(p: string, mid: string, q: string)
    requires '(' !in p && ')' !in q
    requires '\n' !in mid && '\n' !in q
    ensures RemoveParenthetical(p + "(" + mid + ")" + q) == p + q
  {
    var g := "(" + mid + ")" + q;
    assert p + "(" + mid + ")" + q == p + g;
    assert RemoveParenthetical(p + g) == p + RemoveParenthetical(g) by {
      RemoveParentheticalPrefix(p, g);
    }
    assert RemoveParenthetical(g) == q by {
      GroupRemoved(mid, q);
    }
  }

  // ---------------------------------------------------------------------------
  // Parsing: the "%d %b %Y" format with errors="coerce"
  // ---------------------------------------------------------------------------

  /** Length of the longest prefix of `s` made of whitespace (the regular expression `\s+`). */
  function SpaceSpan(s: string): (n: nat)
    ensures n <= |s|
    ensures forall i :: 0 <= i < n ==> IsSpace(s[i])
    ensures n == |s| || !IsSpace(s[n])
  {
    if s != [] && IsSpace(s[0]) then 1 + SpaceSpan(s[1..]) else 0
  }

  const MonthNames: seq<string> :=
    ["JAN", "FEB", "MAR", "APR", "MAY", "JUN", "JUL", "AUG", "SEP", "OCT", "NOV", "DEC"]

  /** The number of an upper-case English month abbreviation (`%b`). */
  function MonthNumber(t: string): (r: Option<int>)
    ensures r.Some? ==> 1 <= r.value <= 12 && MonthNames[r.value - 1] == t
    ensures r.None? ==> t !in MonthNames
  {
    if t == "JAN" then Some(1) else if t == "FEB" then Some(2)
    else if t == "MAR" then Some(3) else if t == "APR" then Some(4)
    else if t == "MAY" then Some(5) else if t == "JUN" then Some(6)
    else if t == "JUL" then Some(7) else if t == "AUG" then Some(8)
    else if t == "SEP" then Some(9) else if t == "OCT" then Some(10)
    else if t == "NOV" then Some(11) else if t == "DEC" then Some(12)
    else None
  }

  predicate LeapYear(y: int) {
    y % 4 == 0 && (y % 100 != 0 || y % 400 == 0)
  }

  function DaysInMonth(y: int, m: int): int
    requires 1 <= m <= 12
  {
    if m == 2 then (if LeapYear(y) then 29 else 28)
    else if m == 4 || m == 6 || m == 9 || m == 11 then 30
    else 31
  }

  /** Day, month and year compared in calendar order. */
  predicate DateLe(a: Date, b: Date) {
    a.year < b.year || (a.year == b.year && (a.month < b.month || (a.month == b.month && a.day <= b.day)))
  }

  /** The first and last whole days a pandas nanosecond timestamp can hold. */
  const FirstTimestampDay := Date(1677, 9, 22)
  const LastTimestampDay := Date(2262, 4, 11)

  /** A calendar day that `to_datetime` accepts rather than coercing it to NaT. */
  predicate ValidDate(d: Date) {
    && 1 <= d.month <= 12
    && 1 <= d.day <= DaysInMonth(d.year, d.month)
    && DateLe(FirstTimestampDay, d) && DateLe(d, LastTimestampDay)
  }

  /**
   * `to_datetime(t, format="%d %b %Y", errors="coerce")` on one cleaned text:
   * one or two digits for a day in 1..31, whitespace, a month abbreviation in
   * any case, whitespace, exactly four digits, and nothing else; None is NaT.
   */
  function ParseDate(t: string): (r: Option<Date>)
    ensures r.Some? ==> ValidDate(r.value)
  {
    var n := DigitSpan(t);
    if 1 <= n <= 2 then ParseAfterDay(ParseDigits(t[..n]), t[n..]) else None
  }

  /** The rest of the format once the day is read: whitespace, then the month. */
  function ParseAfterDay(day: nat, s: string): (r: Option<Date>)
    ensures r.Some? ==> ValidDate(r.value)
  {
    var gap := SpaceSpan(s);
    if gap == 0 || |s| < gap + 3 then None
    else ParseAfterMonth(day, MonthNumber(Upper(s[gap..gap + 3])), s[gap + 3..])
  }

  /** The rest of the format once the month is read: whitespace, then the year and the end. */
  function ParseAfterMonth(day: nat, month: Option<int>, s: string): (r: Option<Date>)
    ensures r.Some? ==> ValidDate(r.value)
  {
    var gap := SpaceSpan(s);
    var year := s[gap..];
    if month.None? || gap == 0 || |year| != 4 || !AllDigits(year) then None
    else Checked(Date(ParseDigits(year), month.value, day))
  }

  /** The day itself must exist and fit a timestamp. */
  function Checked(d: Date): (r: Option<Date>)
    ensures r == Some(d) <==> ValidDate(d)
    ensures r.None? <==> !ValidDate(d)
  {
    if ValidDate(d) then Some(d) else None
  }

  lemma {:induction false} SpaceSpanSplit(sp: string, q: string)
    requires forall i :: 0 <= i < |sp| ==> IsSpace(sp[i])
    requires q == [] || !IsSpace(q[0])
    ensures SpaceSpan(sp + q) == |sp|
  {
    if sp == [] {
      assert sp + q == q;
    } else {
      assert (sp + q)[1..] == sp[1..] + q;
      SpaceSpanSplit(sp[1..], q);
    }
  }

  lemma ParseDayShape(dd: string, rest: string)
    requires 1 <= |dd| <= 2 && AllDigits(dd)
    requires rest == [] || !IsDigit(rest[0])
    ensures ParseDate(dd + rest) == ParseAfterDay(ParseDigits(dd), rest)
  {
    var t := dd + rest;
    DigitSpanSplit(dd, rest);
    assert t[..|dd|] == dd && t[|dd|..] == rest;
  }

  lemma ParseMonthShape(day: nat, mm: string, rest: string)
    requires |mm| == 3 && !IsSpace(mm[0])
    ensures ParseAfterDay(day, " " + mm + rest) == ParseAfterMonth(day, MonthNumber(Upper(mm)), rest)
  {
    var s := " " + mm + rest;
    assert s == " " + (mm + rest);
    SpaceSpanSplit(" ", mm + rest);
    assert s[1..4] == mm && s[4..] == rest;
  }

  lemma ParseYearShape(day: nat, month: Option<int>, yy: string)
    requires |yy| == 4 && AllDigits(yy)
    ensures ParseAfterMonth(day, month, " " + yy) ==
      if month.None? then None else Checked(Date(ParseDigits(yy), month.value, day))
  {
    SpaceSpanSplit(" ", yy);
    assert (" " + yy)[1..] == yy;
  }

  /**
   * The format accepts a day of one or two digits, a space, three letters, a
   * space and four digits exactly when the letters name a month and the
   * result is a calendar day a timestamp can hold.
   */
  lemma ParseDateShape(dd: string, mm: string, yy: string)
    requires 1 <= |dd| <= 2 && AllDigits(dd)
    requires |mm| == 3 && !IsSpace(mm[0])
    requires |yy| == 4 && AllDigits(yy)
    ensures ParseDate(dd + " " + mm + " " + yy) ==
      if MonthNumber(Upper(mm)).None? then None
      else Checked(Date(ParseDigits(yy), MonthNumber(Upper(mm)).value, ParseDigits(dd)))
  {
    var rest := " " + mm + " " + yy;
    assert dd + " " + mm + " " + yy == dd + rest;
    assert rest[0] == ' ';
    ParseDayShape(dd, rest);
    ParseMonthYearShape(ParseDigits(dd), mm, yy);
  }

  lemma ParseMonthYearShape(day: nat, mm: string, yy: string)
    requires |mm| == 3 && !IsSpace(mm[0])
    requires |yy| == 4 && AllDigits(yy)
    ensures ParseAfterDay(day, " " + mm + " " + yy) ==
      if MonthNumber(Upper(mm)).None? then None
      else Checked(Date(ParseDigits(yy), MonthNumber(Upper(mm)).value, day))
  {
    var afterMonth := " " + yy;
    assert " " + mm + " " + yy == " " + mm + afterMonth;
    ParseMonthShape(day, mm, afterMonth);
    ParseYearShape(day, MonthNumber(Upper(mm)), yy);
  }

  /** A single-digit day is read the same with or without the zero that cleaning adds. */
  lemma PadDayParse(t: string)
    ensures ParseDate(PadDay(t)) == ParseDate(t)
  {
    if |t| >= 2 && IsDigit(t[0]) && t[1] == ' ' {
      var c, rest := t[0], t[1..];
      assert t == [c] + rest && PadDay(t) == ['0', c] + rest;
      ZeroDayParse(c, rest);
    }
  }

  lemma ZeroDayParse(c: char, rest: string)
    requires IsDigit(c) && rest != [] && rest[0] == ' '
    ensures ParseDate(['0', c] + rest) == ParseDate([c] + rest)
  {
    ZeroDigits(c);
    SameDayParse(['0', c], [c], rest);
  }

  /** Two day fields of the same value give the same date. */
  lemma SameDayParse(a: string, b: string, rest: string)
    requires 1 <= |a| <= 2 && AllDigits(a)
    requires 1 <= |b| <= 2 && AllDigits(b)
    requires ParseDigits(a) == ParseDigits(b)
    requires rest == [] || !IsDigit(rest[0])
    ensures ParseDate(a + rest) == ParseDate(b + rest)
  {
    ParseDayShape(a, rest);
    ParseDayShape(b, rest);
  }

  /** A leading zero does not change a number. */
  lemma ZeroDigits(c: char)
    requires IsDigit(c)
    ensures ParseDigits(['0', c]) == ParseDigits([c])
  {
    assert ['0', c][..1] == ['0'];
    assert [c][..0] == [];
  }

  // ---------------------------------------------------------------------------
  // Scoring: compute_sort_score
  // ---------------------------------------------------------------------------

  /** 2025 and 2026 are collapsed to the first two bands; any other year keeps year * 10000. */
  function YearBand(y: int): (b: int)
    ensures b % 10000 == 0
    ensures 3 <= y ==> (b == 10000 <==> y == 2025) && (b == 20000 <==> y == 2026)
    ensures 3 <= y && y != 2025 && y != 2026 ==> b > 20000
  {
    if y == 2025 then 10000 else if y == 2026 then 20000 else y * 10000
  }

  function DateScore(d: Date): (s: int)
    ensures ValidDate(d) ==> YearBand(d.year) < s < YearBand(d.year) + 10000
  {
    YearBand(d.year) + d.month * 100 + d.day
  }

  /** The column "Date triée" for one cell: the parsed deadline, or None for NaT. */
  function DeadlineDate(cell: Cell): (r: Option<Date>)
    ensures r.Some? ==> ValidDate(r.value)
  {
    ParseDate(CleanDeadline(CellText(cell)))
  }

  /** The column "Sort_Score" for one cell: NaT scores +infinity. */
  function DeadlineScore(cell: Cell): (s: Score)
    ensures s.Infinity? <==> DeadlineDate(cell).None?
  {
    match DeadlineDate(cell)
    case None => Infinity
    case Some(d) => Finite(DateScore(d))
  }

  /** The order the year bands put years in: 2025, then 2026, then every other year in turn. */
  function YearRank(y: int): int {
    if y == 2025 then 1 else if y == 2026 then 2 else y
  }

  /** Day, month and year compared with the years put in band order. */
  predicate BandLe(a: Date, b: Date) {
    DateLe(Date(YearRank(a.year), a.month, a.day), Date(YearRank(b.year), b.month, b.day))
  }

  /**
   * On dates that parse, the score orders exactly as (year band, month, day):
   * the day never reaches 100 and month and day never reach 10000.
   */
  lemma ScoreOrder(a: Date, b: Date)
    requires ValidDate(a) && ValidDate(b)
    ensures DateScore(a) <= DateScore(b) <==> BandLe(a, b)
  {
    assert YearBand(a.year) == 10000 * YearRank(a.year);
    assert YearBand(b.year) == 10000 * YearRank(b.year);
  }

  /** Two dates that parse score the same only when they are the same day. */
  lemma ScoreInjective(a: Date, b: Date)
    requires ValidDate(a) && ValidDate(b)
    requires DateScore(a) == DateScore(b)
    ensures a == b
  {
    ScoreOrder(a, b);
    ScoreOrder(b, a);
  }

  /**
   * Every 2025 deadline scores below every 2026 deadline, and every 2026
   * deadline below any deadline in another year, whatever that year is.
   */
  lemma YearBands(a: Date, b: Date)
    requires ValidDate(a) && ValidDate(b)
    ensures a.year == 2025 && b.year != 2025 ==> DateScore(a) < DateScore(b)
    ensures a.year == 2026 && b.year != 2025 && b.year != 2026 ==> DateScore(a) < DateScore(b)
  {
    ScoreOrder(a, b);
    ScoreOrder(b, a);
    if DateScore(a) == DateScore(b) {
      ScoreInjective(a, b);
    }
  }

  /** Within one year, or between two years other than 2025 and 2026, scores follow the calendar. */
  lemma ScoreCalendar(a: Date, b: Date)
    requires ValidDate(a) && ValidDate(b)
    requires a.year == b.year || (a.year !in {2025, 2026} && b.year !in {2025, 2026})
    ensures DateScore(a) <= DateScore(b) <==> DateLe(a, b)
  {
    ScoreOrder(a, b);
  }

  // ---------------------------------------------------------------------------
  // Deadlines as the catalog writes them
  // ---------------------------------------------------------------------------

  const MonthTitles: seq<string> :=
    ["Jan", "Feb", "Mar", "Apr", "May", "Jun", "Jul", "Aug", "Sep", "Oct", "Nov", "Dec"]

  /** A deadline written "5 Mar 2025": day without padding, month abbreviation, year. */
  function WrittenDate(d: Date): string
    requires ValidDate(d)
  {
    ShowNat(d.day) + " " + MonthTitles[d.month - 1] + " " + ShowNat(d.year)
  }

  lemma MonthTitleUpper(m: int)
    requires 1 <= m <= 12
    ensures Upper(MonthTitles[m - 1]) == MonthNames[m - 1]
  {
    var t := MonthTitles[m - 1];
    assert |t| == 3;
    forall i | 0 <= i < 3 ensures Upper(t)[i] == MonthNames[m - 1][i] {
    }
  }

  /** Every month's upper-case abbreviation is read back as that month. */
  lemma MonthNameNumber(m: int)
    requires 1 <= m <= 12
    ensures MonthNumber(MonthNames[m - 1]) == Some(m)
  {
  }

  lemma MonthNameShape(m: int)
    requires 1 <= m <= 12
    ensures |MonthNames[m - 1]| == 3 && !IsSpace(MonthNames[m - 1][0]) && !IsSpace(MonthNames[m - 1][2])
    ensures NoLower(MonthNames[m - 1])
  {
  }

  lemma MonthTitleChars(m: int)
    requires 1 <= m <= 12
    ensures '(' !in MonthTitles[m - 1] && ')' !in MonthTitles[m - 1] && '\n' !in MonthTitles[m - 1]
    ensures |MonthTitles[m - 1]| == 3
  {
  }

  /** Upper-casing a written deadline only upper-cases its month. */
  lemma UpperWritten(d: Date)
    requires ValidDate(d)
    ensures Upper(WrittenDate(d)) == ShowNat(d.day) + " " + MonthNames[d.month - 1] + " " + ShowNat(d.year)
  {
    var dd, yy := ShowNat(d.day), ShowNat(d.year);
    var mt := MonthTitles[d.month - 1];
    MonthTitleUpper(d.month);
    UpperAppend(dd + " " + mt + " ", yy);
    UpperAppend(dd + " " + mt, " ");
    UpperAppend(dd + " ", mt);
    UpperAppend(dd, " ");
    UpperNoLower(dd);
    UpperNoLower(yy);
  }

  /** The upper-cased parts of a written deadline parse as the date. */
  lemma ParseWrittenParts(d: Date)
    requires ValidDate(d)
    ensures ParseDate(ShowNat(d.day) + " " + MonthNames[d.month - 1] + " " + ShowNat(d.year)) == Some(d)
  {
    var dd, yy := ShowNat(d.day), ShowNat(d.year);
    var mn := MonthNames[d.month - 1];
    MonthNameNumber(d.month);
    MonthNameShape(d.month);
    ShowNatLength(d.day);
    ShowNatLength(d.year);
    ParseDateShape(dd, mn, yy);
    UpperNoLower(mn);
    ParseShowNat(d.day);
    ParseShowNat(d.year);
  }

  /** After upper-casing, a written deadline is read back as the date it names. */
  lemma ParseWrittenUpper(d: Date)
    requires ValidDate(d)
    ensures ParseDate(PadDay(Upper(WrittenDate(d)))) == Some(d)
  {
    UpperWritten(d);
    PadDayParse(Upper(WrittenDate(d)));
    ParseWrittenParts(d);
  }

  lemma WrittenDateChars(d: Date)
    requires ValidDate(d)
    ensures '(' !in WrittenDate(d) && ')' !in WrittenDate(d) && '\n' !in WrittenDate(d)
    ensures WrittenDate(d) != [] && !IsSpace(WrittenDate(d)[0]) && !IsSpace(WrittenDate(d)[|WrittenDate(d)| - 1])
  {
    var dd, yy := ShowNat(d.day), ShowNat(d.year);
    var mt := MonthTitles[d.month - 1];
    MonthTitleChars(d.month);
    var w := WrittenDate(d);
    assert w[0] == dd[0];
    assert w[|w| - 1] == yy[|yy| - 1];
    forall i | 0 <= i < |w| ensures w[i] != '(' && w[i] != ')' && w[i] != '\n' {
      if i < |dd| { assert w[i] == dd[i]; }
      else if i == |dd| { assert w[i] == ' '; }
      else if i < |dd| + 4 { assert w[i] == mt[i - |dd| - 1]; }
      else if i == |dd| + 4 { assert w[i] == ' '; }
      else { assert w[i] == yy[i - |dd| - 5]; }
    }
  }

  /** A deadline written as the catalog writes it scores as the date it names. */
  lemma ScoreWrittenDeadline(d: Date)
    requires ValidDate(d)
    ensures DeadlineScore(Some(WrittenDate(d))) == Finite(DateScore(d))
  {
    var w := WrittenDate(d);
    WrittenDateChars(d);
    RemoveParentheticalNoClose(w);
    StripTrimmed(w);
    ParseWrittenUpper(d);
  }

  /**
   * A trailing remark in parentheses, such as "(estimated)", does not change
   * the score: it is removed before parsing.
   */
  lemma ScoreAnnotatedDeadline(d: Date, note: string)
    requires ValidDate(d) && '\n' !in note
    ensures DeadlineScore(Some(WrittenDate(d) + " (" + note + ")")) == Finite(DateScore(d))
  {
    var w := WrittenDate(d);
    WrittenDateChars(d);
    assert w + " (" + note + ")" == (w + " ") + "(" + note + ")" + "";
    assert '(' !in w + " ";
    RemoveParentheticalGreedy(w + " ", note, "");
    assert (w + " ") + "" == w + " ";
    StripTrailing(w, " ");
    ParseWrittenUpper(d);
  }

  lemma WrittenExample()
    ensures ValidDate(Date(2025, 3, 5)) && WrittenDate(Date(2025, 3, 5)) == "5 Mar 2025"
    ensures DateScore(Date(2025, 3, 5)) == 10305
  {
    assert ShowNat(5) == "5";
    assert ShowNat(20) == "20";
    assert ShowNat(202) == "202";
    assert ShowNat(2025) == "2025";
  }

  /** "5 Mar 2025" scores 10305: band 10000, March 300, day 5. */
  lemma ScoreExample()
    ensures DeadlineScore(Some("5 Mar 2025")) == Finite(10305)
  {
    WrittenExample();
    ScoreWrittenDeadline(Date(2025, 3, 5));
  }
}
