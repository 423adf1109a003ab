/**
 * The key of the "Classement Risk.net" column (master-fees-app/app.py:132-139):
 * the first run of digits read as a number, and 9999 for a cell that has none
 * (`str.extract(r"(\d+)")`, `to_numeric(errors="coerce")`, `fillna(9999)`).
 */
module Rankings {

  import opened Wrappers
  import opened Text

  /** The sentinel an unranked programme sorts by. */
  const Unranked: nat := 9999

  function RankKey(cell: Cell): (r: nat)
    ensures NoDigit(CellText(cell)) ==> r == Unranked
  {
    match FirstDigitRun(CellText(cell))
    case None => Unranked
    case Some(d) => ParseDigits(d)
  }

  /** A missing ranking ("nan" once stringified) is unranked. */
  lemma MissingRank()
    ensures RankKey(None) == Unranked
  {
    assert NoDigit("nan");
  }

  /**
   * A ranking written with text around the number, such as "#12 (2024)", is
   * that number when the text before it has no digit and the text after it
   * does not continue it.
   */
  lemma RankWritten(p: string, n: nat, q: string)
    requires NoDigit(p)
    requires q == [] || !IsDigit(q[0])
    ensures RankKey(Some(p + ShowNat(n) + q)) == n
  {
    FirstDigitRunSplit(p, ShowNat(n), q);
    ParseShowNat(n);
  }
}
