/**
 * The totals shown for the selected programmes (master-fees-app/app.py:185-196,
 * 232-233): the sum of their euro fees, the GRE/TOEFL score-sending surcharge
 * beyond the fourth programme, the total, and the total in dinars.
 */
module Totals {

  import opened Wrappers
  import opened Fees
  import opened Rows

  /** Score reports included with the test registration. */
  const IncludedSends: nat := 4
  /** The price of each further score report, in US dollars. */
  const SendCostUsd: nat := 60

  /** The figures the page shows for a non-empty selection. */
  datatype Summary = Summary(count: nat, base: real, surcharge: real, total: real, tnd: real)

  /** `df[df["Sélectionner"]]`: the selected rows, in table order. */
  function Selected(rows: seq<Row>): (sel: seq<Row>)
    ensures |sel| <= |rows|
    ensures forall i :: 0 <= i < |sel| ==> sel[i].selected
    ensures (forall i :: 0 <= i < |rows| ==> rows[i].selected) ==> sel == rows
    ensures (forall i :: 0 <= i < |rows| ==> !rows[i].selected) ==> sel == []
  {
    if rows == [] then []
    else if rows[0].selected then [rows[0]] + Selected(rows[1..])
    else Selected(rows[1..])
  }

  /** The selection holds exactly the ticked rows of the table. */
  lemma {:induction false} SelectedMembers(rows: seq<Row>)
    ensures forall r :: r in Selected(rows) <==> r in rows && r.selected
  {
    if rows != [] {
      SelectedMembers(rows[1..]);
      assert rows == [rows[0]] + rows[1..];
    }
  }

  /** `selected_df["Frais en EUR"].sum()`. */
  function SumEur(rows: seq<Row>): (total: real)
    ensures (forall i :: 0 <= i < |rows| ==> rows[i].eur >= 0.0) ==> total >= 0.0
  {
    if rows == [] then 0.0 else rows[0].eur + SumEur(rows[1..])
  }

  /** The surcharge in euros for `n` selected programmes. */
  function Surcharge(n: nat): (s: real)
    ensures s >= 0.0
    ensures s == 0.0 <==> n <= IncludedSends
  {
    if n > IncludedSends then InEuros((n - IncludedSends) * SendCostUsd, USD) else 0.0
  }

  /**
   * The totals block: nothing when no row is selected (the page says
   * "Aucun programme sélectionné."), otherwise the summary.
   */
  function ComputeTotals(rows: seq<Row>): (t: Option<Summary>)
    ensures t.None? <==> forall i :: 0 <= i < |rows| ==> !rows[i].selected
    ensures t.Some? ==> t.value.count == |Selected(rows)| >= 1
    ensures t.Some? ==> t.value.base == SumEur(Selected(rows))
    ensures t.Some? ==> t.value.surcharge == Surcharge(t.value.count)
    ensures t.Some? ==> t.value.total == t.value.base + t.value.surcharge
    ensures t.Some? ==> t.value.tnd == t.value.total * EurToTnd
    ensures t.Some? ==> (t.value.surcharge == 0.0 <==> t.value.count <= IncludedSends)
  {
    var sel := Selected(rows);
    SelectedMembers(rows);
    if sel == [] then
      assert forall i :: 0 <= i < |rows| ==> rows[i] in rows;
      None
    else
      assert sel[0] in rows;
      var base := SumEur(sel);
      var extra := Surcharge(|sel|);
      Some(Summary(|sel|, base, extra, base + extra, InTnd(base + extra)))
  }

  /** Euros converted to Tunisian dinars at the fixed rate (app.py:15, 196). */
  function InTnd(eur: real): (tnd: real)
    ensures tnd >= 0.0 <==> eur >= 0.0
    ensures tnd == 0.0 <==> eur == 0.0
  {
    eur * EurToTnd
  }

  // ---------------------------------------------------------------------------
  // Properties
  // ---------------------------------------------------------------------------

  /** Each programme beyond the fourth adds 60 dollars, 51.6 euros. */
  lemma SurchargeStep(n: nat)
    ensures Surcharge(n + 1) == Surcharge(n) + (if n >= IncludedSends then 51.6 else 0.0)
  {
    if n >= IncludedSends {
      assert (n + 1 - IncludedSends) * SendCostUsd == (n - IncludedSends) * SendCostUsd + 60;
    }
  }

  lemma {:induction false} SelectedAppend(a: seq<Row>, b: seq<Row>)
    ensures Selected(a + b) == Selected(a) + Selected(b)
    decreases |a|
  {
    if a == [] {
      assert a + b == b;
    } else {
      assert (a + b)[1..] == a[1..] + b;
      SelectedAppend(a[1..], b);
    }
  }

  lemma {:induction false} SumEurAppend(a: seq<Row>, b: seq<Row>)
    ensures SumEur(a + b) == SumEur(a) + SumEur(b)
    decreases |a|
  {
    if a == [] {
      assert a + b == b;
    } else {
      assert (a + b)[1..] == a[1..] + b;
      SumEurAppend(a[1..], b);
    }
  }

  /** The base fee is never negative: every euro fee is a conversion, and conversions are not negative. */
  lemma {:induction false} SumEurNonNegative(rows: seq<Row>)
    requires forall i :: 0 <= i < |rows| ==> Consistent(rows[i])
    ensures SumEur(rows) >= 0.0
    decreases |rows|
  {
    if rows != [] {
      assert rows[0].eur == ConvertToEur(rows[0].fee);
      SumEurNonNegative(rows[1..]);
    }
  }

  /** For a loaded table, every figure shown is non-negative, and the total is at least the base. */
  lemma TotalsNonNegative(rows: seq<Row>)
    requires forall i :: 0 <= i < |rows| ==> Consistent(rows[i])
    ensures ComputeTotals(rows).Some? ==>
      var t := ComputeTotals(rows).value;
      0.0 <= t.base <= t.total && t.tnd >= 0.0
  {
    var sel := Selected(rows);
    SelectedMembers(rows);
    forall i | 0 <= i < |sel|
      ensures Consistent(sel[i])
    {
      assert sel[i] in rows;
    }
    SumEurNonNegative(sel);
  }

  /** `TotalsNonNegative`, for a table that may or may not be consistent. */
  lemma TotalsNonNegativeWhen(rows: seq<Row>)
    ensures (forall i :: 0 <= i < |rows| ==> Consistent(rows[i])) && ComputeTotals(rows).Some? ==>
      var t := ComputeTotals(rows).value;
      0.0 <= t.base <= t.total && t.tnd >= 0.0
  {
    if forall i :: 0 <= i < |rows| ==> Consistent(rows[i]) {
      TotalsNonNegative(rows);
    }
  }

  /** The selection of a table split in three is the three selections, in order. */
  lemma SelectedSplit(a: seq<Row>, r: Row, b: seq<Row>)
    ensures Selected(a + [r] + b) == Selected(a) + Selected([r]) + Selected(b)
    ensures Selected(a + b) == Selected(a) + Selected(b)
  {
    SelectedAppend(a + [r], b);
    SelectedAppend(a, [r]);
    SelectedAppend(a, b);
  }

  lemma SelectedSingle(r: Row)
    ensures Selected([r]) == if r.selected then [r] else []
  {
    assert [r][1..] == [];
  }

  /** Taking a row out of the table takes it out of the selection. */
  lemma RemoveAt(a: seq<Row>, r: Row, b: seq<Row>)
    ensures multiset(Selected(a + [r] + b)) ==
      multiset(Selected(a + b)) + (if r.selected then multiset{r} else multiset{})
  {
    SelectedSplit(a, r, b);
    SelectedSingle(r);
  }

  /** Taking a row out of the table takes its fee out of the selection's sum. */
  lemma RemoveAtSum(a: seq<Row>, r: Row, b: seq<Row>)
    ensures SumEur(Selected(a + [r] + b)) ==
      SumEur(Selected(a + b)) + (if r.selected then r.eur else 0.0)
  {
    SelectedSplit(a, r, b);
    var one := Selected([r]);
    SelectedSingle(r);
    assert SumEur(one) == if r.selected then r.eur else 0.0 by {
      assert SumEur([r]) == r.eur + SumEur([r][1..]) && [r][1..] == [];
    }
    SumEurAppend(Selected(a) + one, Selected(b));
    SumEurAppend(Selected(a), one);
    SumEurAppend(Selected(a), Selected(b));
  }

  lemma Reassemble(t: seq<Row>, k: nat)
    requires k < |t|
    ensures t[..k] + [t[k]] + t[k + 1..] == t
  {
  }

  /** Dropping the first row of one side and its copy from the other keeps two tables permutations. */
  lemma DropMatching(s: seq<Row>, t: seq<Row>, k: nat)
    requires multiset(s) == multiset(t) && s != [] && k < |t| && t[k] == s[0]
    ensures multiset(s[1..]) == multiset(t[..k] + t[k + 1..])
  {
    assert t == t[..k] + [s[0]] + t[k + 1..];
    assert s == [s[0]] + s[1..];
    calc {
      multiset(s[1..]);
      multiset(s) - multiset{s[0]};
      multiset(t[..k]) + multiset{s[0]} + multiset(t[k + 1..]) - multiset{s[0]};
      multiset(t[..k] + t[k + 1..]);
    }
  }

  /** Reordering the rows changes neither the selection (as a multiset) nor its sum. */
  lemma {:induction false} SelectionPermutation(s: seq<Row>, t: seq<Row>)
    requires multiset(s) == multiset(t)
    ensures multiset(Selected(s)) == multiset(Selected(t))
    ensures SumEur(Selected(s)) == SumEur(Selected(t))
    decreases |s|
  {
    if s == [] {
      assert |t| == |multiset(t)| == 0;
    } else {
      var r := s[0];
      assert r in multiset(t);
      var k :| 0 <= k < |t| && t[k] == r;
      var rest := t[..k] + t[k + 1..];
      DropMatching(s, t, k);
      SelectionPermutation(s[1..], rest);
      Reassemble(t, k);
      RemoveAt(t[..k], r, t[k + 1..]);
      RemoveAtSum(t[..k], r, t[k + 1..]);
      Reassemble(s, 0);
      RemoveAt(s[..0], r, s[1..]);
      RemoveAtSum(s[..0], r, s[1..]);
      assert s[..0] + s[1..] == s[1..];
    }
  }

  /** The totals do not depend on the order of the table: sorting never changes them. */
  lemma TotalsPermutation(s: seq<Row>, t: seq<Row>)
    requires multiset(s) == multiset(t)
    ensures ComputeTotals(s) == ComputeTotals(t)
  {
    SelectionPermutation(s, t);
    assert |Selected(s)| == |multiset(Selected(s))| == |Selected(t)|;
  }

  /**
   * Ticking one more programme adds its euro fee, plus 51.6 euros once
   * four are already selected, to the total.
   */
  lemma SelectOneMore(rows: seq<Row>, r: Row)
    requires r.selected
    ensures ComputeTotals(rows + [r]).Some?
    ensures ComputeTotals(rows + [r]).value.total ==
      (if ComputeTotals(rows).Some? then ComputeTotals(rows).value.total else 0.0)
      + r.eur + (if |Selected(rows)| >= IncludedSends then 51.6 else 0.0)
  {
    SelectedAppend(rows, [r]);
    assert Selected([r]) == [r];
    SumEurAppend(Selected(rows), [r]);
    SurchargeStep(|Selected(rows)|);
    assert (rows + [r])[|rows|] == r;
  }

  // ---------------------------------------------------------------------------
  // Worked examples
  // ---------------------------------------------------------------------------

  /** A ticked row whose euro fee is `eur`. */
  function Ticked(eur: real): Row {
    Row(1, None, None, None, None, None, eur, true)
  }

  /** Three programmes at 10, 20 and 30 euros: no surcharge, 60 euros, 210 dinars. */
  lemma ThreeProgrammesExample()
    ensures ComputeTotals([Ticked(10.0), Ticked(20.0), Ticked(30.0)]) == Some(Summary(3, 60.0, 0.0, 60.0, 210.0))
  {
    var rows := [Ticked(10.0), Ticked(20.0), Ticked(30.0)];
    assert Selected(rows) == rows by {
      assert rows[1..][1..] == [Ticked(30.0)];
    }
  }

  /** Six free programmes: two extra score reports, (6 - 4) * 60 * 0.86 = 103.2 euros. */
  lemma SixFreeProgrammesExample()
    ensures ComputeTotals(seq(6, _ => Ticked(0.0))).value.total == 103.2
  {
    var rows := seq(6, _ => Ticked(0.0));
    assert Selected(rows) == rows by {
      SelectedAllTicked(rows);
    }
    assert SumEur(rows) == 0.0 by {
      SumEurZero(rows);
    }
  }

  lemma {:induction false} SelectedAllTicked(rows: seq<Row>)
    requires forall i :: 0 <= i < |rows| ==> rows[i].selected
    ensures Selected(rows) == rows
  {
    if rows != [] {
      SelectedAllTicked(rows[1..]);
    }
  }

  lemma {:induction false} SumEurZero(rows: seq<Row>)
    requires forall i :: 0 <= i < |rows| ==> rows[i].eur == 0.0
    ensures SumEur(rows) == 0.0
  {
    if rows != [] {
      SumEurZero(rows[1..]);
    }
  }
}
