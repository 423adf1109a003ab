/**
 * Character classes and the small string operations that the fee, deadline,
 * percentage and ranking cleaners are built from: ASCII digits, Python's
 * whitespace set, ASCII upper-casing, `strip`, `replace(c, "")`, substring
 * search and the regular expression search `(\d+)`.
 */
module Text {

  import opened Wrappers

  /** A table cell: None is a missing value (pandas NaN). */
  type Cell = Option<string>

  /** `astype(str)` of a cell: a missing value reads as "nan". */
  function CellText(c: Cell): string {
    c.GetOr("nan")
  }

  predicate IsDigit(c: char) { '0' <= c <= '9' }

  function DigitValue(c: char): (v: nat)
    requires IsDigit(c)
    ensures v < 10
  {
    c as int - '0' as int
  }

  function DigitChar(v: nat): (c: char)
    requires v < 10
    ensures IsDigit(c) && DigitValue(c) == v
  {
    ('0' as int + v) as char
  }

  /** The characters Python's `str.isspace` (and the regular expression `\s`) accept. */
  predicate IsSpace(c: char) {
    || '\t' <= c <= '\r'
    || '\U{1C}' <= c <= ' '
    || c == '\U{85}' || c == '\U{A0}' || c == '\U{1680}'
    || '\U{2000}' <= c <= '\U{200A}'
    || c == '\U{2028}' || c == '\U{2029}' || c == '\U{202F}' || c == '\U{205F}' || c == '\U{3000}'
  }

  predicate IsLower(c: char) { 'a' <= c <= 'z' }

  function UpperChar(c: char): char {
    if IsLower(c) then (c as int - 32) as char else c
  }

  /** `str.upper()`, restricted to the ASCII letters. */
  function Upper(s: string): (u: string)
    ensures |u| == |s| && NoLower(u)
  {
    seq(|s|, i requires 0 <= i < |s| => UpperChar(s[i]))
  }

  predicate AllDigits(s: string) {
    forall i :: 0 <= i < |s| ==> IsDigit(s[i])
  }

  predicate NoDigit(s: string) {
    forall i :: 0 <= i < |s| ==> !IsDigit(s[i])
  }

  predicate NoLower(s: string) {
    forall i :: 0 <= i < |s| ==> !IsLower(s[i])
  }

  /** Upper-casing leaves a text without lower-case letters as it is. */
  lemma UpperNoLower(s: string)
    requires NoLower(s)
    ensures Upper(s) == s
  {
  }

  function StripStart(s: string): (r: string)
    ensures |r| <= |s| && r == s[|s| - |r|..]
    ensures r == [] || !IsSpace(r[0])
    ensures forall i :: 0 <= i < |s| - |r| ==> IsSpace(s[i])
  {
    if s != [] && IsSpace(s[0]) then StripStart(s[1..]) else s
  }

  function StripEnd(s: string): (r: string)
    ensures |r| <= |s| && r == s[..|r|]
    ensures r == [] || !IsSpace(r[|r| - 1])
    ensures forall i :: |r| <= i < |s| ==> IsSpace(s[i])
  {
    if s != [] && IsSpace(s[|s| - 1]) then StripEnd(s[..|s| - 1]) else s
  }

  /** `str.strip()`: drop the whitespace at both ends. */
  function Strip(s: string): string {
    StripEnd(StripStart(s))
  }

  /** A text that neither starts nor ends with whitespace is its own strip. */
  lemma StripTrimmed(s: string)
    requires s != [] ==> !IsSpace(s[0]) && !IsSpace(s[|s| - 1])
    ensures Strip(s) == s
  {
  }

  lemma UpperAppend(a: string, b: string)
    ensures Upper(a + b) == Upper(a) + Upper(b)
  {
  }

  /** Trailing whitespace after a trimmed text is all that `strip` removes. */
  lemma {:induction false} StripTrailing(w: string, sp: string)
    requires w != [] && !IsSpace(w[0]) && !IsSpace(w[|w| - 1])
    requires forall i :: 0 <= i < |sp| ==> IsSpace(sp[i])
    ensures Strip(w + sp) == w
  {
    assert StripStart(w + sp) == w + sp by {
      assert (w + sp)[0] == w[0];
    }
    StripEndTrailing(w, sp);
  }

  lemma {:induction false} StripEndTrailing(w: string, sp: string)
    requires w != [] && !IsSpace(w[|w| - 1])
    requires forall i :: 0 <= i < |sp| ==> IsSpace(sp[i])
    ensures StripEnd(w + sp) == w
  {
    if sp == [] {
      assert w + sp == w;
    } else {
      var s := w + sp;
      assert s[|s| - 1] == sp[|sp| - 1];
      assert s[..|s| - 1] == w + sp[..|sp| - 1];
      StripEndTrailing(w, sp[..|sp| - 1]);
    }
  }

  /** `str.replace(c, "")`. */
  function RemoveAll(s: string, c: char): (r: string)
    ensures c !in r
  {
    if s == [] then []
    else if s[0] == c then RemoveAll(s[1..], c)
    else [s[0]] + RemoveAll(s[1..], c)
  }

  /** Removing `c` keeps every other character, and creates none. */
  lemma {:induction false} RemoveAllKeeps(s: string, c: char, x: char)
    requires x != c
    ensures x in RemoveAll(s, c) <==> x in s
  {
    if s != [] {
      RemoveAllKeeps(s[1..], c, x);
      assert s == [s[0]] + s[1..];
    }
  }

  lemma {:induction false} RemoveAllAbsent(s: string, c: char)
    requires c !in s
    ensures RemoveAll(s, c) == s
  {
    if s != [] {
      RemoveAllAbsent(s[1..], c);
    }
  }

  lemma {:induction false} RemoveAllAppend(a: string, b: string, c: char)
    ensures RemoveAll(a + b, c) == RemoveAll(a, c) + RemoveAll(b, c)
  {
    if a == [] {
      assert a + b == b;
    } else {
      assert (a + b)[1..] == a[1..] + b;
      RemoveAllAppend(a[1..], b, c);
    }
  }

  /** Python's `sub in s`. */
  predicate Contains(s: string, sub: string)
    decreases |s|
  {
    |sub| <= |s| && (s[..|sub|] == sub || (s != [] && Contains(s[1..], sub)))
  }

  /** A text can only contain a non-empty pattern if it holds the pattern's first character. */
  lemma {:induction false} ContainsFirstChar(s: string, sub: string)
    requires sub != [] && Contains(s, sub)
    ensures sub[0] in s
  {
    if s[..|sub|] == sub {
      assert s[0] == sub[0];
    } else {
      ContainsFirstChar(s[1..], sub);
    }
  }

  lemma ContainsPrefix(s: string, sub: string)
    requires |sub| <= |s| && s[..|sub|] == sub
    ensures Contains(s, sub)
  {
  }

  /** A suffix of a text that contains a pattern is found in the whole text. */
  lemma {:induction false} ContainsSuffix(p: string, s: string, sub: string)
    requires Contains(s, sub)
    ensures Contains(p + s, sub)
  {
    if p == [] {
      assert p + s == s;
    } else {
      assert (p + s)[1..] == p[1..] + s;
      ContainsSuffix(p[1..], s, sub);
    }
  }

  /** Removing `c` from a text made only of `c` leaves nothing. */
  lemma {:induction false} RemoveAllOnly(s: string, c: char)
    requires forall i :: 0 <= i < |s| ==> s[i] == c
    ensures RemoveAll(s, c) == []
  {
    if s != [] {
      RemoveAllOnly(s[1..], c);
    }
  }

  /** Digits in front of a text cannot start a pattern that does not begin with a digit. */
  lemma {:induction false} ContainsSkipDigits(d: string, s: string, sub: string)
    requires AllDigits(d)
    requires sub != [] && !IsDigit(sub[0])
    ensures Contains(d + s, sub) <==> Contains(s, sub)
  {
    if Contains(s, sub) {
      ContainsSuffix(d, s, sub);
    }
    if d == [] {
      assert d + s == s;
    } else {
      assert (d + s)[1..] == d[1..] + s;
      ContainsSkipDigits(d[1..], s, sub);
    }
  }

  /** Length of the longest prefix of `s` made of digits. */
  function DigitSpan(s: string): (n: nat)
    ensures n <= |s|
    ensures AllDigits(s[..n])
    ensures n == |s| || !IsDigit(s[n])
  {
    if s != [] && IsDigit(s[0]) then 1 + DigitSpan(s[1..]) else 0
  }

  /** Index of the first digit of `s`, or `|s|` when it has none. */
  function FirstDigit(s: string): (i: nat)
    ensures i <= |s|
    ensures NoDigit(s[..i])
    ensures i < |s| ==> IsDigit(s[i])
  {
    if s == [] || IsDigit(s[0]) then 0 else 1 + FirstDigit(s[1..])
  }

  /**
   * `re.search(r"(\d+)", s)`: the leftmost, longest run of digits, or None when
   * `s` holds no digit at all.
   */
  function FirstDigitRun(s: string): (r: Option<string>)
    ensures r.None? <==> NoDigit(s)
    ensures r.Some? ==> r.value != [] && AllDigits(r.value)
  {
    var i := FirstDigit(s);
    if i == |s| then
      assert s[..i] == s;
      None
    else
      var n := DigitSpan(s[i..]);
      assert s[i..i + n] == s[i..][..n];
      Some(s[i..i + n])
  }

  lemma {:induction false} DigitSpanSplit(d: string, q: string)
    requires AllDigits(d)
    requires q == [] || !IsDigit(q[0])
    ensures DigitSpan(d + q) == |d|
  {
    if d == [] {
      assert d + q == q;
    } else {
      assert (d + q)[1..] == d[1..] + q;
      DigitSpanSplit(d[1..], q);
    }
  }

  lemma {:induction false} FirstDigitSplit(p: string, t: string)
    requires NoDigit(p)
    requires t != [] && IsDigit(t[0])
    ensures FirstDigit(p + t) == |p|
  {
    if p == [] {
      assert p + t == t;
    } else {
      assert (p + t)[1..] == p[1..] + t;
      FirstDigitSplit(p[1..], t);
    }
  }

  /**
   * The regular expression search finds exactly the run `d` in `p + d + q` when
   * `p` holds no digit and `q` does not continue the run: leftmost and longest.
   */
  lemma FirstDigitRunSplit(p: string, d: string, q: string)
    requires NoDigit(p)
    requires d != [] && AllDigits(d)
    requires q == [] || !IsDigit(q[0])
    ensures FirstDigitRun(p + d + q) == Some(d)
  {
    var s := p + d + q;
    FirstDigitSplit(p, d + q);
    assert s == p + (d + q);
    assert s[|p|..] == d + q;
    DigitSpanSplit(d, q);
    assert s[|p|..|p| + |d|] == d;
  }

  /** A text that starts with a run of digits yields that run. */
  lemma FirstDigitRunStart(d: string, q: string)
    requires d != [] && AllDigits(d)
    requires q == [] || !IsDigit(q[0])
    ensures FirstDigitRun(d + q) == Some(d)
  {
    assert (d + q)[0] == d[0];
    DigitSpanSplit(d, q);
    assert (d + q)[0..|d|] == d;
  }

  /** The value of a string of decimal digits, most significant first. */
  function ParseDigits(d: string): nat
    requires AllDigits(d)
  {
    if d == [] then 0
    else 10 * ParseDigits(d[..|d| - 1]) + DigitValue(d[|d| - 1])
  }

  /** Decimal notation of a natural number, without leading zeros. */
  function ShowNat(n: nat): (s: string)
    ensures s != [] && AllDigits(s)
  {
    if n < 10 then [DigitChar(n)] else ShowNat(n / 10) + [DigitChar(n % 10)]
  }

  /** Numbers below 100 take one or two digits; the years a timestamp can hold take four. */
  lemma ShowNatLength(n: nat)
    ensures 1 <= n < 100 ==> 1 <= |ShowNat(n)| <= 2
    ensures 1000 <= n < 10000 ==> |ShowNat(n)| == 4
  {
    if n >= 10 {
      assert |ShowNat(n)| == |ShowNat(n / 10)| + 1;
      if n >= 100 {
        assert |ShowNat(n / 10)| == |ShowNat(n / 100)| + 1;
        if n >= 1000 {
          assert |ShowNat(n / 100)| == |ShowNat(n / 1000)| + 1;
        }
      }
    }
  }

  /** Reading back the decimal notation of `n` gives `n`. */
  lemma {:induction false} ParseShowNat(n: nat)
    ensures ParseDigits(ShowNat(n)) == n
  {
    if n >= 10 {
      var s := ShowNat(n);
      assert s[..|s| - 1] == ShowNat(n / 10);
      ParseShowNat(n / 10);
    }
  }
}
