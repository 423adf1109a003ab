/**
 * The sort engine, `sort_dataframe` (master-fees-app/app.py:77-139): each of
 * the six choices of the selector (app.py:149-156) orders the rows by one
 * derived key, or leaves them as they are.
 */
module Sorting {

  import opened Wrappers
  import opened Text
  import opened Deadlines
  import opened Percentages
  import opened Rankings
  import opened Rows

  /** The six entries of the "Trier le tableau par" selector. */
  datatype SortColumn = RankHF | Deadline | Fee | AcceptanceRate | EmploymentRate | RiskNet

  /** `astype(float)` raised: some percentage cell is not a number once cleaned. */
  datatype SortError = RateNotANumber

  predicate IsRateColumn(col: SortColumn) {
    col == AcceptanceRate || col == EmploymentRate
  }

  /** The cell a percentage column is keyed on. */
  function RateCell(col: SortColumn, r: Row): Cell
    requires IsRateColumn(col)
  {
    if col == AcceptanceRate then r.acceptance else r.employment
  }

  /** Every percentage cell of the column parses, so `astype(float)` succeeds. */
  predicate RatesParse(col: SortColumn, rows: seq<Row>) {
    IsRateColumn(col) ==> forall i :: 0 <= i < |rows| ==> RateKey(RateCell(col, rows[i])).Some?
  }

  // ---------------------------------------------------------------------------
  // Sort keys, all ascending
  // ---------------------------------------------------------------------------

  /** An ascending sort key: a number, or `Last` (the deadline score +inf). */
  datatype Key = Value(v: real) | Last

  predicate KeyLe(a: Key, b: Key) {
    match (a, b)
    case (_, Last) => true
    case (Last, Value(_)) => false
    case (Value(x), Value(y)) => x <= y
  }

  lemma KeyTotal(a: Key, b: Key)
    ensures KeyLe(a, b) || KeyLe(b, a)
  {
  }

  lemma KeyTransitive(a: Key, b: Key, c: Key)
    requires KeyLe(a, b) && KeyLe(b, c)
    ensures KeyLe(a, c)
  {
  }

  /**
   * The key each column sorts by, turned ascending: the deadline score, the
   * euro fee negated (descending), the percentage negated (descending; a
   * percentage that does not parse is read as 0 here, but the sort refuses
   * such rows before this key is used), the Risk.net rank. "Rang HF"
   * imposes no order of its own.
   */
  function SortKey(col: SortColumn, r: Row): (k: Key)
    ensures k.Last? <==> col == Deadline && DeadlineDate(r.deadline).None?
  {
    match col
    case RankHF => Value(0.0)
    case Deadline => (match DeadlineScore(r.deadline) case Infinity => Last case Finite(n) => Value(n as real))
    case Fee => Value(-r.eur)
    case AcceptanceRate => Value(-RateKey(r.acceptance).GetOr(0.0))
    case EmploymentRate => Value(-RateKey(r.employment).GetOr(0.0))
    case RiskNet => Value(RankKey(r.riskNet) as real)
  }

  /** The rows are in the order the column asks for. */
  predicate SortedBy(col: SortColumn, s: seq<Row>) {
    forall i, j :: 0 <= i < j < |s| ==> KeyLe(SortKey(col, s[i]), SortKey(col, s[j]))
  }

  /** Sorting by "Frais de candidature" is sorting by euro fee, largest first. */
  lemma FeeOrder(s: seq<Row>)
    ensures SortedBy(Fee, s) <==> forall i, j :: 0 <= i < j < |s| ==> s[i].eur >= s[j].eur
  {
  }

  /** Sorting by a percentage column puts the largest percentage first. */
  lemma RateOrder(col: SortColumn, s: seq<Row>)
    requires IsRateColumn(col) && RatesParse(col, s)
    ensures SortedBy(col, s) <==>
      forall i, j :: 0 <= i < j < |s| ==> RateKey(RateCell(col, s[i])).value >= RateKey(RateCell(col, s[j])).value
  {
    if SortedBy(col, s) {
      forall i, j | 0 <= i < j < |s|
        ensures RateKey(RateCell(col, s[i])).value >= RateKey(RateCell(col, s[j])).value
      {
        assert KeyLe(SortKey(col, s[i]), SortKey(col, s[j]));
      }
    }
  }

  /** Sorting by "Classement Risk.net" is sorting by rank, smallest first. */
  lemma RiskOrder(s: seq<Row>)
    ensures SortedBy(RiskNet, s) <==> forall i, j :: 0 <= i < j < |s| ==> RankKey(s[i].riskNet) <= RankKey(s[j].riskNet)
  {
  }

  /** A row whose Risk.net cell holds no number comes after every row ranked below 9999. */
  lemma UnrankedLast(s: seq<Row>, i: nat, j: nat)
    requires SortedBy(RiskNet, s) && i < |s| && j < |s|
    requires NoDigit(CellText(s[j].riskNet)) && RankKey(s[i].riskNet) < Unranked
    ensures i < j
  {
  }

  /** The deadline key is the score of the parsed date, or `Last` for NaT. */
  lemma DeadlineKey(r: Row)
    ensures DeadlineDate(r.deadline).None? ==> SortKey(Deadline, r) == Last
    ensures DeadlineDate(r.deadline).Some? ==> SortKey(Deadline, r) == Value(DateScore(DeadlineDate(r.deadline).value) as real)
  {
  }

  /** A deadline that does not parse comes after every deadline that does. */
  lemma UnparsedDeadlinesLast(s: seq<Row>, i: nat, j: nat)
    requires SortedBy(Deadline, s) && i < |s| && j < |s|
    requires DeadlineDate(s[i].deadline).Some? && DeadlineDate(s[j].deadline).None?
    ensures i < j
  {
    DeadlineKey(s[i]);
    DeadlineKey(s[j]);
  }

  /**
   * Among parsed deadlines, the sort is by (year band, month, day): the
   * 2025 deadlines first, then the 2026 ones, then every other year in
   * calendar order; within a year, by month and day.
   */
  lemma DeadlineOrder(s: seq<Row>, i: nat, j: nat)
    requires SortedBy(Deadline, s) && i < j < |s|
    requires DeadlineDate(s[i].deadline).Some? && DeadlineDate(s[j].deadline).Some?
    ensures BandLe(DeadlineDate(s[i].deadline).value, DeadlineDate(s[j].deadline).value)
    ensures DeadlineDate(s[j].deadline).value.year == 2025 ==> DeadlineDate(s[i].deadline).value.year == 2025
    ensures DeadlineDate(s[j].deadline).value.year == 2026 ==> DeadlineDate(s[i].deadline).value.year in {2025, 2026}
  {
    var a, b := DeadlineDate(s[i].deadline).value, DeadlineDate(s[j].deadline).value;
    DeadlineKey(s[i]);
    DeadlineKey(s[j]);
    assert KeyLe(SortKey(Deadline, s[i]), SortKey(Deadline, s[j]));
    assert DateScore(a) <= DateScore(b);
    ScoreOrder(a, b);
    YearBands(b, a);
  }

  // ---------------------------------------------------------------------------
  // Insertion sort of keyed rows
  // ---------------------------------------------------------------------------

  /** A row with its key computed once, as `sort_values` computes its key column. */
  datatype Entry = Entry(key: Key, row: Row)

  predicate KeysSorted(s: seq<Entry>) {
    forall i, j :: 0 <= i < j < |s| ==> KeyLe(s[i].key, s[j].key)
  }

  /**
   * While `a[i]` slides left to position `j`: `a[..i+1]` is sorted except
   * around `j`, and the sliding entry's key is at most every key after it.
   */
  predicate Sliding(s: seq<Entry>, i: nat, j: nat) {
    j <= i < |s| &&
    (forall p, q :: 0 <= p < q <= i && q != j ==> KeyLe(s[p].key, s[q].key)) &&
    (forall q :: j < q <= i ==> KeyLe(s[j].key, s[q].key))
  }

  lemma SlideStart(s: seq<Entry>, i: nat)
    requires i < |s| && KeysSorted(s[..i])
    ensures Sliding(s, i, i)
  {
    forall p, q | 0 <= p < q <= i && q != i
      ensures KeyLe(s[p].key, s[q].key)
    {
      assert s[..i][p] == s[p] && s[..i][q] == s[q];
    }
  }

  lemma SlideStep(s: seq<Entry>, i: nat, j: nat)
    requires 0 < j && Sliding(s, i, j) && !KeyLe(s[j - 1].key, s[j].key)
    ensures Sliding(s[j - 1 := s[j]][j := s[j - 1]], i, j - 1)
  {
    KeyTotal(s[j - 1].key, s[j].key);
    var t := s[j - 1 := s[j]][j := s[j - 1]];
    forall q | j - 1 < q <= i
      ensures KeyLe(t[j - 1].key, t[q].key)
    {
      if q > j {
        assert t[q] == s[q];
      }
    }
  }

  lemma SlideDone(s: seq<Entry>, i: nat, j: nat)
    requires Sliding(s, i, j) && (j == 0 || KeyLe(s[j - 1].key, s[j].key))
    ensures KeysSorted(s[..i + 1])
  {
    forall p, q | 0 <= p < q <= i
      ensures KeyLe(s[p].key, s[q].key)
    {
      if q == j && p < j - 1 {
        KeyTransitive(s[p].key, s[j - 1].key, s[j].key);
      }
    }
  }

  /**
   * Slides `a[i]` left until the prefix `a[..i+1]` is sorted: the prefix is
   * permuted, and the entries after it are left where they are.
   */
  method Insert(a: array<Entry>, i: nat)
    requires i < a.Length
    requires KeysSorted(a[..i])
    modifies a
    ensures KeysSorted(a[..i + 1])
    ensures multiset(a[..i + 1]) == multiset(old(a[..i + 1]))
    ensures a[i + 1..] == old(a[i + 1..])
  {
    SlideStart(a[..], i);
    var j: nat := i;
    while j > 0 && !KeyLe(a[j - 1].key, a[j].key)
      invariant Sliding(a[..], i, j)
      invariant multiset(a[..i + 1]) == multiset(old(a[..i + 1]))
      invariant a[i + 1..] == old(a[i + 1..])
    {
      SlideStep(a[..], i, j);
      ghost var before := a[..];
      a[j - 1], a[j] := a[j], a[j - 1];
      SwapPrefix(before, a[..], i + 1, j);
      j := j - 1;
    }
    SlideDone(a[..], i, j);
  }

  /** Swapping two neighbours inside a prefix permutes the prefix and keeps the rest. */
  lemma SwapPrefix(s: seq<Entry>, t: seq<Entry>, n: nat, j: nat)
    requires 0 < j < n <= |s|
    requires t == s[j - 1 := s[j]][j := s[j - 1]]
    ensures multiset(t[..n]) == multiset(s[..n])
    ensures t[n..] == s[n..]
  {
    assert t[..n] == s[..n][j - 1 := s[j]][j := s[j - 1]];
  }

  /**
   * The in-place sort behind `sort_values`: an insertion sort by key.
   * Like `sort_values` (whose default algorithm is not stable), it promises
   * nothing about the order of entries with equal keys.
   */
  method InsertionSort(a: array<Entry>)
    modifies a
    ensures KeysSorted(a[..])
    ensures multiset(a[..]) == multiset(old(a[..]))
  {
    var i := 0;
    while i < a.Length
      invariant 0 <= i <= a.Length
      invariant KeysSorted(a[..i])
      invariant multiset(a[..]) == multiset(old(a[..]))
    {
      ghost var before := a[..];
      Insert(a, i);
      Rejoin(before, a[..], i + 1);
      i := i + 1;
    }
    assert a[..] == a[..a.Length];
  }

  /** A permuted prefix followed by an unchanged rest permutes the whole. */
  lemma Rejoin(s: seq<Entry>, t: seq<Entry>, n: nat)
    requires n <= |s| == |t|
    requires multiset(t[..n]) == multiset(s[..n]) && t[n..] == s[n..]
    ensures multiset(t) == multiset(s)
  {
    assert s == s[..n] + s[n..] && t == t[..n] + t[n..];
  }

  // ---------------------------------------------------------------------------
  // From keyed entries back to rows
  // ---------------------------------------------------------------------------

  function Keyed(col: SortColumn, rows: seq<Row>): (es: seq<Entry>)
    ensures |es| == |rows|
    ensures forall i :: 0 <= i < |es| ==> es[i] == Entry(SortKey(col, rows[i]), rows[i])
  {
    seq(|rows|, i requires 0 <= i < |rows| => Entry(SortKey(col, rows[i]), rows[i]))
  }

  function Unkeyed(es: seq<Entry>): (rows: seq<Row>)
    ensures |rows| == |es|
    ensures forall i :: 0 <= i < |es| ==> rows[i] == es[i].row
  {
    seq(|es|, i requires 0 <= i < |es| => es[i].row)
  }

  lemma UnkeyedAppend(a: seq<Entry>, b: seq<Entry>)
    ensures Unkeyed(a + b) == Unkeyed(a) + Unkeyed(b)
  {
  }

  /** Permuting entries permutes their rows. */
  lemma {:induction false} UnkeyedPermutation(es: seq<Entry>, fs: seq<Entry>)
    requires multiset(es) == multiset(fs)
    ensures multiset(Unkeyed(es)) == multiset(Unkeyed(fs))
    decreases |es|
  {
    if es == [] {
      assert |fs| == |multiset(fs)| == 0;
    } else {
      var e := es[0];
      assert e in multiset(fs);
      var k :| 0 <= k < |fs| && fs[k] == e;
      var rest := fs[..k] + fs[k + 1..];
      assert fs == fs[..k] + [e] + fs[k + 1..];
      assert es == [e] + es[1..];
      calc {
        multiset(es[1..]);
        multiset(es) - multiset{e};
        multiset(fs[..k]) + multiset{e} + multiset(fs[k + 1..]) - multiset{e};
        multiset(rest);
      }
      UnkeyedPermutation(es[1..], rest);
      UnkeyedAppend([e], es[1..]);
      UnkeyedAppend(fs[..k], fs[k + 1..]);
      UnkeyedAppend(fs[..k] + [e], fs[k + 1..]);
      UnkeyedAppend(fs[..k], [e]);
    }
  }

  /** A permutation of freshly keyed rows still carries each row's own key. */
  lemma KeysFollowRows(col: SortColumn, rows: seq<Row>, t: seq<Entry>)
    requires multiset(t) == multiset(Keyed(col, rows))
    ensures forall i :: 0 <= i < |t| ==> t[i].key == SortKey(col, t[i].row)
  {
    forall i | 0 <= i < |t|
      ensures t[i].key == SortKey(col, t[i].row)
    {
      assert t[i] in multiset(Keyed(col, rows));
    }
  }

  lemma SortedRows(col: SortColumn, t: seq<Entry>)
    requires KeysSorted(t)
    requires forall i :: 0 <= i < |t| ==> t[i].key == SortKey(col, t[i].row)
    ensures SortedBy(col, Unkeyed(t))
  {
  }

  // ---------------------------------------------------------------------------
  // sort_dataframe
  // ---------------------------------------------------------------------------

  /**
   * `sort_dataframe`: "Rang HF" hands the rows back unchanged; a percentage
   * column whose cells do not all parse fails as `astype(float)` does;
   * every other choice returns the same rows, ordered by the column's key.
   */
  method SortRows(rows: seq<Row>, col: SortColumn) returns (result: Result<seq<Row>, SortError>)
    ensures col == RankHF ==> result == Success(rows)
    ensures result.Failure? <==> !RatesParse(col, rows)
    ensures result.Success? ==> multiset(result.value) == multiset(rows)
    ensures result.Success? ==> SortedBy(col, result.value)
  {
    if col == RankHF {
      return Success(rows);
    }
    if !RatesParse(col, rows) {
      return Failure(RateNotANumber);
    }
    var es := Keyed(col, rows);
    var a := new Entry[|es|](i requires 0 <= i < |es| => es[i]);
    assert a[..] == es;
    InsertionSort(a);
    var sorted := a[..];
    KeysFollowRows(col, rows, sorted);
    SortedRows(col, sorted);
    UnkeyedPermutation(sorted, es);
    assert Unkeyed(es) == rows;
    return Success(Unkeyed(sorted));
  }
}
