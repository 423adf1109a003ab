/**
 * The key of the two percentage columns, `nettoyer_taux`
 * (master-fees-app/app.py:121-130): every character other than a digit or a
 * dot is removed, an empty result becomes "0", and the rest is read as a
 * float, which fails on a text such as "1.2.3" or ".".
 */
module Percentages {

  import opened Wrappers
  import opened Text

  predicate IsRateChar(c: char) { IsDigit(c) || c == '.' }

  /** `str.replace(r"[^\d\.]", "")`: keep digits and dots. */
  function CleanRate(s: string): (t: string)
    ensures forall i :: 0 <= i < |t| ==> IsRateChar(t[i])
  {
    if s == [] then []
    else if IsRateChar(s[0]) then [s[0]] + CleanRate(s[1..])
    else CleanRate(s[1..])
  }

  function DotCount(t: string): nat {
    if t == [] then 0 else (if t[0] == '.' then 1 else 0) + DotCount(t[1..])
  }

  /** Index of the first dot of `t`, or `|t|`. */
  function DotIndex(t: string): (i: nat)
    ensures i <= |t| && '.' !in t[..i]
    ensures i < |t| ==> t[i] == '.'
  {
    if t == [] || t[0] == '.' then 0 else 1 + DotIndex(t[1..])
  }

  function Pow10(n: nat): (p: nat)
    ensures p >= 1
  {
    if n == 0 then 1 else 10 * Pow10(n - 1)
  }

  /** The value of digits, an optional dot and more digits: "12" is 12, "12.5" is 12.5, ".5" is 0.5. */
  function DecimalValue(t: string): (v: real)
    requires forall i :: 0 <= i < |t| ==> IsRateChar(t[i])
    requires DotCount(t) <= 1
    ensures v >= 0.0
  {
    var i := DotIndex(t);
    if i == |t| then
      assert t[..i] == t;
      NoDotDigits(t);
      ParseDigits(t) as real
    else
      DotsAfterFirst(t);
      var whole, frac := t[..i], t[i + 1..];
      NoDotDigits(whole);
      NoDotDigits(frac);
      var fraction := FractionValue(ParseDigits(frac), Pow10(|frac|));
      ParseDigits(whole) as real + fraction
  }

  /** The digits after the dot, over the power of ten their count gives. */
  function FractionValue(digits: nat, scale: nat): (f: real)
    requires scale >= 1
    ensures f >= 0.0
  {
    digits as real / scale as real
  }

  /** Digits, a dot and digits are read as the whole part plus the fraction. */
  lemma DecimalSplit(w: string, f: string)
    requires AllDigits(w) && AllDigits(f)
    ensures forall i :: 0 <= i < |w + "." + f| ==> IsRateChar((w + "." + f)[i])
    ensures DotCount(w + "." + f) == 1
    ensures DecimalValue(w + "." + f) == ParseDigits(w) as real + FractionValue(ParseDigits(f), Pow10(|f|))
  {
    var t := w + "." + f;
    forall i | 0 <= i < |t|
      ensures IsRateChar(t[i])
    {
      if i < |w| { assert t[i] == w[i]; }
      else if i > |w| { assert t[i] == f[i - |w| - 1]; }
    }
    DotCountDigits(w);
    DotCountDigits(f);
    DotCountAppend(w, "." + f);
    DotCountAppend(".", f);
    assert t == w + ("." + f);
    DotIndexDigits(w, "." + f);
    assert t[..|w|] == w && t[|w| + 1..] == f;
  }

  lemma {:induction false} DotCountAppend(a: string, b: string)
    ensures DotCount(a + b) == DotCount(a) + DotCount(b)
  {
    if a != [] {
      assert (a + b)[1..] == a[1..] + b;
      DotCountAppend(a[1..], b);
    } else {
      assert a + b == b;
    }
  }

  lemma {:induction false} DotIndexDigits(d: string, q: string)
    requires AllDigits(d)
    requires q != [] && q[0] == '.'
    ensures DotIndex(d + q) == |d|
  {
    if d != [] {
      assert (d + q)[1..] == d[1..] + q;
      assert (d + q)[0] == d[0];
      DotIndexDigits(d[1..], q);
    } else {
      assert d + q == q;
    }
  }

  lemma NoDotDigits(t: string)
    requires forall i :: 0 <= i < |t| ==> IsRateChar(t[i])
    requires '.' !in t
    ensures AllDigits(t)
  {
    forall i | 0 <= i < |t| ensures IsDigit(t[i]) {
      assert t[i] in t;
    }
  }

  lemma {:induction false} DotsAfterFirst(t: string)
    requires DotIndex(t) < |t| && DotCount(t) <= 1
    ensures '.' !in t[DotIndex(t) + 1..]
  {
    if t[0] != '.' {
      DotsAfterFirst(t[1..]);
      assert t[DotIndex(t) + 1..] == t[1..][DotIndex(t[1..]) + 1..];
    } else {
      DotCountNone(t[1..]);
    }
  }

  lemma {:induction false} DotCountNone(t: string)
    ensures DotCount(t) == 0 <==> '.' !in t
  {
    if t != [] {
      DotCountNone(t[1..]);
      assert t == [t[0]] + t[1..];
    }
  }

  /**
   * `.replace("", "0").astype(float)` on one cleaned text: the empty text is 0;
   * a text with two dots or without any digit does not parse (None).
   */
  function ParseRate(t: string): (r: Option<real>)
    requires forall i :: 0 <= i < |t| ==> IsRateChar(t[i])
    ensures t == [] ==> r == Some(0.0)
    ensures r.None? <==> t != [] && (DotCount(t) >= 2 || NoDigit(t))
    ensures r.Some? ==> r.value >= 0.0
  {
    if t == [] then Some(0.0)
    else if DotCount(t) >= 2 || NoDigit(t) then None
    else Some(DecimalValue(t))
  }

  /** The percentage key of one cell; None when the float conversion raises. */
  function RateKey(cell: Cell): (r: Option<real>)
    ensures r.Some? ==> r.value >= 0.0
    ensures cell.None? ==> r == Some(0.0)
  {
    var text := CellText(cell);
    assert cell.None? ==> CleanRate(text) == [] by {
      if cell.None? {
        CleanRateNone(text);
      }
    }
    ParseRate(CleanRate(text))
  }

  lemma {:induction false} CleanRateAppend(a: string, b: string)
    ensures CleanRate(a + b) == CleanRate(a) + CleanRate(b)
  {
    if a == [] {
      assert a + b == b;
    } else {
      assert (a + b)[1..] == a[1..] + b;
      CleanRateAppend(a[1..], b);
    }
  }

  lemma {:induction false} CleanRateNone(s: string)
    requires forall i :: 0 <= i < |s| ==> !IsRateChar(s[i])
    ensures CleanRate(s) == []
  {
    if s != [] {
      CleanRateNone(s[1..]);
    }
  }

  lemma {:induction false} CleanRateAll(s: string)
    requires forall i :: 0 <= i < |s| ==> IsRateChar(s[i])
    ensures CleanRate(s) == s
  {
    if s != [] {
      CleanRateAll(s[1..]);
      assert s == [s[0]] + s[1..];
    }
  }

  /**
   * A cell with neither digit nor dot, a missing one ("nan") included, counts
   * as 0 rather than failing.
   */
  lemma RateWithoutNumber(cell: Cell)
    requires forall i :: 0 <= i < |CellText(cell)| ==> !IsRateChar(CellText(cell)[i])
    ensures RateKey(cell) == Some(0.0)
  {
    CleanRateNone(CellText(cell));
  }

  lemma {:induction false} DotCountDigits(d: string)
    requires AllDigits(d)
    ensures DotCount(d) == 0 && DotIndex(d) == |d|
  {
    if d != [] {
      DotCountDigits(d[1..]);
    }
  }

  /**
   * A rate written as a whole percentage, with any surrounding text that holds
   * no digit and no dot, reads as that number: "68%" is 68.
   */
  lemma RateWrittenWhole(p: string, n: nat, q: string)
    requires forall i :: 0 <= i < |p| ==> !IsRateChar(p[i])
    requires forall i :: 0 <= i < |q| ==> !IsRateChar(q[i])
    ensures RateKey(Some(p + ShowNat(n) + q)) == Some(n as real)
  {
    var d := ShowNat(n);
    CleanRateAppend(p + d, q);
    CleanRateAppend(p, d);
    CleanRateNone(p);
    CleanRateNone(q);
    CleanRateAll(d);
    assert CleanRate(p + d + q) == d;
    DotCountDigits(d);
    ParseShowNat(n);
  }

  /** Two dots make the float conversion raise: "1.2.3%" has no key. */
  lemma RateTwoDots(t: string)
    requires forall i :: 0 <= i < |t| ==> IsRateChar(t[i])
    requires DotCount(t) >= 2
    ensures ParseRate(t) == None
  {
  }

  /** "68%" reads as 68. */
  lemma RateWholeExample()
    ensures RateKey(Some("68%")) == Some(68.0)
  {
    assert ShowNat(68) == "68";
    RateWrittenWhole("", 68, "%");
    assert "" + "68" + "%" == "68%";
  }

  /** "12.5%" reads as 12.5. */
  lemma RateDecimalExample()
    ensures RateKey(Some("12.5%")) == Some(12.5)
  {
    CleanTwelveAndAHalf();
    TwelveAndAHalfValue();
    assert !NoDigit("12.5") by {
      assert "12.5"[0] == '1';
    }
  }

  lemma CleanTwelveAndAHalf()
    ensures CleanRate(CellText(Some("12.5%"))) == "12.5"
  {
    var t := "12.5";
    CleanRateAppend(t, "%");
    CleanRateAll(t);
    CleanRateNone("%");
    assert t + "%" == "12.5%";
  }

  lemma TwelveAndAHalfValue()
    ensures forall i :: 0 <= i < |"12.5"| ==> IsRateChar("12.5"[i])
    ensures DotCount("12.5") == 1
    ensures DecimalValue("12.5") == 12.5
  {
    var w, f := "12", "5";
    assert AllDigits(w) && AllDigits(f);
    assert w + "." + f == "12.5";
    assert ParseDigits(w) == 12 by {
      TwelveDigits();
    }
    assert ParseDigits(f) == 5 by {
      assert f[..0] == [];
    }
    assert Pow10(|f|) == 10;
    DecimalSplit(w, f);
  }

  lemma TwelveDigits()
    ensures ParseDigits("12") == 12
  {
    assert "12"[..1] == "1" && "1"[..0] == [];
  }

  /** "1.2.3" makes the conversion raise. */
  lemma RateFailureExample()
    ensures RateKey(Some("1.2.3")) == None
  {
    var t := "1.2.3";
    CleanRateAll(t);
    assert DotCount(t) == 2;
  }
}
