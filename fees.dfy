/**
 * The fee converter `convert_to_eur` (master-fees-app/app.py:26-66): a free-text
 * application fee such as "90$" or "80 GBP" is cleaned, its currency is found by
 * substring search in a fixed priority order, its amount is the first run of
 * digits, and the amount is multiplied by a fixed rate into euros.
 */
module Fees {

  import opened Wrappers
  import opened Text

  datatype Currency = EUR | USD | GBP | CHF

  /** Fixed exchange rates (app.py:12-15). */
  const UsdToEur: real := 0.86
  const GbpToEur: real := 1.15
  const ChfToEur: real := 1.07
  const EurToTnd: real := 3.5

  /** Euros per unit of each currency; the reference currency converts at 1. */
  function Rate(c: Currency): (r: real)
    ensures r > 0.0
    ensures r == 1.0 <==> c == EUR
  {
    match c
    case EUR => 1.0
    case USD => UsdToEur
    case GBP => GbpToEur
    case CHF => ChfToEur
  }

  /** An amount of the given currency, in euros. */
  function InEuros(amount: nat, c: Currency): (eur: real)
    ensures eur >= 0.0
    ensures eur == 0.0 <==> amount == 0
  {
    amount as real * Rate(c)
  }

  /**
   * `str(fee).upper().strip()`, then every narrow no-break space (U+202F) and
   * every ordinary space removed.
   */
  function CleanFee(s: string): (t: string)
    ensures ' ' !in t && '\U{202F}' !in t
  {
    var u := RemoveAll(Strip(Upper(s)), '\U{202F}');
    RemoveAllKeeps(u, ' ', '\U{202F}');
    RemoveAll(u, ' ')
  }

  /** Currency detection, first match wins: "GBP" or "£", then "$", then "CHF", else euros. */
  function DetectCurrency(t: string): (c: Currency)
    ensures c == GBP <==> Contains(t, "GBP") || '£' in t
    ensures c == EUR <==> !Contains(t, "GBP") && '£' !in t && '$' !in t && !Contains(t, "CHF")
  {
    if Contains(t, "GBP") || '£' in t then GBP
    else if '$' in t then USD
    else if Contains(t, "CHF") then CHF
    else EUR
  }

  /**
   * `convert_to_eur`: a missing fee, or one whose cleaned text holds no digit,
   * is worth 0; otherwise the first digit run times the detected currency's rate.
   */
  function ConvertToEur(fee: Cell): (eur: real)
    ensures eur >= 0.0
    ensures fee.None? ==> eur == 0.0
  {
    match fee
    case None => 0.0
    case Some(s) => ConvertCleaned(CleanFee(s))
  }

  /** The conversion of an already cleaned fee text. */
  function ConvertCleaned(t: string): (eur: real)
    ensures eur >= 0.0
    ensures NoDigit(t) ==> eur == 0.0
  {
    match FirstDigitRun(t)
    case None => 0.0
    case Some(d) => InEuros(ParseDigits(d), DetectCurrency(t))
  }

  /**
   * Whenever the cleaned fee reads as digit-free text, a run of digits and text
   * not starting with a digit, the fee is worth that run's value at the rate of
   * the currency detected in the whole cleaned text.
   */
  lemma ConvertSplit(s: string, p: string, d: string, q: string)
    requires CleanFee(s) == p + d + q
    requires NoDigit(p) && d != [] && AllDigits(d)
    requires q == [] || !IsDigit(q[0])
    ensures ConvertToEur(Some(s)) == InEuros(ParseDigits(d), DetectCurrency(CleanFee(s)))
  {
    FirstDigitRunSplit(p, d, q);
  }

  /** A cleaned fee that starts with its digit run. */
  lemma ConvertLeadingRun(s: string, d: string, q: string)
    requires CleanFee(s) == d + q
    requires d != [] && AllDigits(d)
    requires q == [] || !IsDigit(q[0])
    ensures ConvertToEur(Some(s)) == InEuros(ParseDigits(d), DetectCurrency(d + q))
  {
    var none: string := [];
    assert none + d + q == d + q;
    ConvertSplit(s, none, d, q);
  }

  /** The characters that cleaning can neither create nor drop: no whitespace, no letter. */
  predicate Kept(c: char) {
    !IsSpace(c) && !IsLower(c) && !('A' <= c <= 'Z')
  }

  lemma StripKeeps(s: string, c: char)
    requires !IsSpace(c)
    ensures c in Strip(s) <==> c in s
  {
    if c in s {
      StripKeepsInner(s, c);
    }
    if c in Strip(s) {
      StripCreatesNone(s, c);
    }
  }

  lemma StripKeepsInner(s: string, c: char)
    requires !IsSpace(c) && c in s
    ensures c in Strip(s)
  {
    var i :| 0 <= i < |s| && s[i] == c;
    var a := StripStart(s);
    var k := i - (|s| - |a|);
    StripStartKeeps(s, i);
    StripEndKeeps(a, k);
    assert StripEnd(a)[k] == c;
  }

  /** A character other than whitespace survives `lstrip`, shifted by what was dropped. */
  lemma StripStartKeeps(s: string, i: nat)
    requires i < |s| && !IsSpace(s[i])
    ensures |s| - |StripStart(s)| <= i && StripStart(s)[i - (|s| - |StripStart(s)|)] == s[i]
  {
  }

  /** A character other than whitespace survives `rstrip` in place. */
  lemma StripEndKeeps(a: string, k: int)
    requires 0 <= k < |a| && !IsSpace(a[k])
    ensures k < |StripEnd(a)| && StripEnd(a)[k] == a[k]
  {
  }

  lemma StripCreatesNone(s: string, c: char)
    requires c in Strip(s)
    ensures c in s
  {
    var a := StripStart(s);
    var b := StripEnd(a);
    var k :| 0 <= k < |b| && b[k] == c;
    assert a[k] == c;
    assert s[k + (|s| - |a|)] == c;
  }

  /** Cleaning keeps exactly the digits, currency symbols and punctuation the raw text holds. */
  lemma CleanFeeKeeps(s: string, c: char)
    requires Kept(c)
    ensures c in CleanFee(s) <==> c in s
  {
    var u := Upper(s);
    if c in s {
      var i :| 0 <= i < |s| && s[i] == c;
      assert u[i] == c;
    }
    if c in u {
      var i :| 0 <= i < |u| && u[i] == c;
      assert s[i] == c;
    }
    StripKeeps(u, c);
    RemoveAllKeeps(Strip(u), '\U{202F}', c);
    RemoveAllKeeps(RemoveAll(Strip(u), '\U{202F}'), ' ', c);
  }

  /** The cleaned fee holds a digit exactly when the raw text does. */
  lemma CleanFeeDigits(s: string)
    ensures NoDigit(CleanFee(s)) <==> NoDigit(s)
  {
    var t := CleanFee(s);
    if !NoDigit(s) {
      var i :| 0 <= i < |s| && IsDigit(s[i]);
      CleanFeeKeeps(s, s[i]);
    }
    if !NoDigit(t) {
      var i :| 0 <= i < |t| && IsDigit(t[i]);
      CleanFeeKeeps(s, t[i]);
    }
  }

  /**
   * A fee text with no digit at all converts to 0, whatever currency marker it
   * carries; one with a digit always has an amount to convert.
   */
  lemma ConvertNoDigit(s: string)
    ensures NoDigit(s) <==> FirstDigitRun(CleanFee(s)).None?
    ensures NoDigit(s) ==> ConvertToEur(Some(s)) == 0.0
  {
    CleanFeeDigits(s);
  }

  /**
   * Currency priority, read on the raw text: a pound sign, or "GBP" in the
   * cleaned text, means GBP whatever else is present; a dollar sign means USD unless a GBP marker is present,
   * even next to "CHF"; "CHF" only counts when neither of those is present;
   * anything else is euros.
   */
  lemma CurrencyPriority(s: string)
    ensures '£' in s ==> DetectCurrency(CleanFee(s)) == GBP
    ensures Contains(CleanFee(s), "GBP") ==> DetectCurrency(CleanFee(s)) == GBP
    ensures '£' !in s && !Contains(CleanFee(s), "GBP") && '$' in s ==> DetectCurrency(CleanFee(s)) == USD
    ensures '£' !in s && !Contains(CleanFee(s), "GBP") && '$' !in s && Contains(CleanFee(s), "CHF")
      ==> DetectCurrency(CleanFee(s)) == CHF
    ensures '£' !in s && !Contains(CleanFee(s), "GBP") && '$' !in s && !Contains(CleanFee(s), "CHF")
      ==> DetectCurrency(CleanFee(s)) == EUR
  {
    CleanFeeKeeps(s, '£');
    CleanFeeKeeps(s, '$');
  }

  /** A text made of spaces only. */
  predicate Spaces(sep: string) {
    forall i :: 0 <= i < |sep| ==> sep[i] == ' '
  }

  /** A currency marker as written after an amount: no digit, no lower case, no whitespace. */
  predicate Marker(m: string) {
    NoDigit(m) && NoLower(m) && forall i :: 0 <= i < |m| ==> !IsSpace(m[i])
  }

  lemma WrittenFeeShape(d: string, sep: string, m: string)
    requires d != [] && AllDigits(d) && Spaces(sep) && Marker(m)
    requires m == [] ==> sep == []
    ensures NoLower(d + sep + m) && '\U{202F}' !in d + sep + m
    ensures !IsSpace((d + sep + m)[0]) && !IsSpace((d + sep + m)[|d + sep + m| - 1])
  {
    var s := d + sep + m;
    forall i | 0 <= i < |s| ensures !IsLower(s[i]) && s[i] != '\U{202F}' {
      if i < |d| { assert s[i] == d[i]; }
      else if i < |d| + |sep| { assert s[i] == sep[i - |d|]; }
      else { assert s[i] == m[i - |d| - |sep|]; }
    }
    assert s[0] == d[0];
    assert s[|s| - 1] == if m == [] then d[|d| - 1] else m[|m| - 1];
  }

  /** Cleaning a written fee only drops the spaces between amount and marker. */
  lemma CleanWrittenFee(d: string, sep: string, m: string)
    requires d != [] && AllDigits(d) && Spaces(sep) && Marker(m)
    requires m == [] ==> sep == []
    ensures CleanFee(d + sep + m) == d + m
  {
    var s := d + sep + m;
    WrittenFeeShape(d, sep, m);
    UpperNoLower(s);
    StripTrimmed(s);
    RemoveAllAbsent(s, '\U{202F}');
    assert RemoveAll(Strip(Upper(s)), '\U{202F}') == s;
    SpacesRemoved(d, sep, m);
  }

  lemma SpacesRemoved(d: string, sep: string, m: string)
    requires AllDigits(d) && Spaces(sep) && Marker(m)
    ensures RemoveAll(d + sep + m, ' ') == d + m
  {
    assert RemoveAll(d, ' ') == d by {
      assert ' ' !in d;
      RemoveAllAbsent(d, ' ');
    }
    assert RemoveAll(m, ' ') == m by {
      assert ' ' !in m;
      RemoveAllAbsent(m, ' ');
    }
    assert RemoveAll(d + sep, ' ') == d by {
      RemoveAllAppend(d, sep, ' ');
      RemoveAllOnly(sep, ' ');
      assert d + [] == d;
    }
    RemoveAllAppend(d + sep, m, ' ');
  }

  /** Digits in front of a marker do not change the currency it names. */
  lemma DetectAfterDigits(d: string, m: string)
    requires AllDigits(d) && Marker(m)
    ensures DetectCurrency(d + m) == DetectCurrency(m)
  {
    ContainsSkipDigits(d, m, "GBP");
    ContainsSkipDigits(d, m, "CHF");
    assert '£' in d + m <==> '£' in m;
    assert '$' in d + m <==> '$' in m;
  }

  /** The conversion of a fee written as digits, spaces and a currency marker. */
  lemma ConvertWrittenAmount(d: string, sep: string, m: string)
    requires d != [] && AllDigits(d) && Spaces(sep) && Marker(m)
    requires m == [] ==> sep == []
    ensures ConvertToEur(Some(d + sep + m)) == InEuros(ParseDigits(d), DetectCurrency(m))
  {
    var s := d + sep + m;
    var t := d + m;
    CleanWrittenFee(d, sep, m);
    DetectAfterDigits(d, m);
    assert m == [] || !IsDigit(m[0]);
    ConvertLeadingRun(s, d, m);
  }

  /**
   * A fee written as a number, spaces, and a currency marker converts to that
   * number times the rate of the currency the marker names: "90$" gives
   * 90 * 0.86, "80 GBP" gives 80 * 1.15, "75" gives 75.
   */
  lemma ConvertWrittenFee(n: nat, sep: string, m: string)
    requires Spaces(sep) && Marker(m)
    requires m == [] ==> sep == []
    ensures ConvertToEur(Some(ShowNat(n) + sep + m)) == InEuros(n, DetectCurrency(m))
  {
    ConvertWrittenAmount(ShowNat(n), sep, m);
    ParseShowNat(n);
  }

  /** The first example of the docstring (app.py:32): "90$" is 90 dollars. */
  lemma ConvertDollarExample()
    ensures ConvertToEur(Some("90$")) == 77.4
  {
    var m := "$";
    assert Marker(m) && DetectCurrency(m) == USD by {
      assert !Contains(m, "GBP");
    }
    assert "90" + "" + m == "90$";
    assert ParseDigits("90") == 90;
    ConvertWrittenAmount("90", "", m);
    assert InEuros(90, USD) == 77.4;
  }

  /** The second example of the docstring (app.py:32): "80 GBP" is 80 pounds. */
  lemma ConvertPoundExample()
    ensures ConvertToEur(Some("80 GBP")) == 92.0
  {
    var gbp := "GBP";
    assert gbp[..|gbp|] == gbp;
    assert DetectCurrency(gbp) == GBP;
    assert Marker(gbp);
    assert "80" + " " + gbp == "80 GBP";
    ConvertWrittenAmount("80", " ", gbp);
    assert ParseDigits("80") == 80;
  }

  /** A bare number carries no currency marker and is read as euros. */
  lemma ConvertEuroExample()
    ensures ConvertToEur(Some("75")) == 75.0
  {
    var d, none := "75", "";
    assert d + none + none == "75";
    assert ParseDigits(d) == 75 by {
      assert d[..1] == "7" && "7"[..0] == [];
    }
    assert DetectCurrency(none) == EUR by {
      assert !Contains(none, "GBP") && !Contains(none, "CHF");
    }
    ConvertWrittenAmount(d, none, none);
  }
}
