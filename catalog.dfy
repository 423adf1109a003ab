/**
 * The table the page works on (master-fees-app/app.py:21, 69-72, 143-184):
 * loaded once, re-sorted by the chosen column, and given back its
 * "Sélectionner" flags from the table editor.
 */
module Table {

  import opened Wrappers
  import opened Rows
  import opened Sorting
  import opened Totals

  class Catalog {
    /** The rows, in the order currently shown. */
    var rows: seq<Row>

    /** Every row's euro fee is the conversion of its own fee text. */
    ghost predicate Valid()
      reads this
    {
      forall i :: 0 <= i < |rows| ==> Consistent(rows[i])
    }

    /** app.py:69-72: annotate the file's rows and index them 1..n. */
    constructor Load(raw: seq<RawRow>)
      ensures Valid()
      ensures rows == LoadRows(raw)
    {
      rows := LoadRows(raw);
    }

    /**
     * app.py:160: reorder the table by `col`. When a percentage column has a
     * cell that is not a number, `sort_values` raises and the table is left
     * as it was.
     */
    method Sort(col: SortColumn) returns (ok: bool)
      requires Valid()
      modifies this
      ensures Valid()
      ensures ok <==> RatesParse(col, old(rows))
      ensures !ok || col == RankHF ==> rows == old(rows)
      ensures ok ==> multiset(rows) == multiset(old(rows)) && (col != RankHF ==> SortedBy(col, rows))
      ensures Totals() == old(Totals())
    {
      var result := SortRows(rows, col);
      if result.Failure? {
        return false;
      }
      forall i | 0 <= i < |result.value|
        ensures Consistent(result.value[i])
      {
        assert result.value[i] in multiset(rows);
      }
      TotalsPermutation(result.value, rows);
      rows := result.value;
      return true;
    }

    /** app.py:184: copy the editor's "Sélectionner" column back onto the rows. */
    method SetSelection(flags: seq<bool>)
      requires Valid() && |flags| == |rows|
      modifies this
      ensures Valid()
      ensures rows == WithSelection(old(rows), flags)
    {
      rows := WithSelection(rows, flags);
    }

    /** app.py:185 and 190-196: the totals of the ticked rows, if any. */
    function Totals(): (t: Option<Summary>)
      reads this
      ensures t.None? <==> forall i :: 0 <= i < |rows| ==> !rows[i].selected
      ensures t.Some? ==> t.value.count == |Selected(rows)| && t.value.base == SumEur(Selected(rows))
      ensures t.Some? ==> t.value.surcharge == Surcharge(t.value.count)
      ensures t.Some? ==> t.value.total == t.value.base + t.value.surcharge
      ensures t.Some? ==> t.value.tnd == t.value.total * Fees.EurToTnd
      ensures Valid() && t.Some? ==> 0.0 <= t.value.base <= t.value.total && t.value.tnd >= 0.0
    {
      TotalsNonNegativeWhen(rows);
      ComputeTotals(rows)
    }
  }
}
