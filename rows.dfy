/**
 * The catalog's rows (master-fees-app/app.py:21, 69-72): the columns the core
 * reads, the euro fee derived once at load time, the 1-based "Rang HF" index
 * and the "Sélectionner" flag.
 */
module Rows {

  import opened Wrappers
  import opened Text
  import opened Fees

  /** A row as read from the catalog file: the cells the core reads. */
  datatype RawRow = RawRow(fee: Cell, deadline: Cell, acceptance: Cell, employment: Cell, riskNet: Cell)

  /**
   * A loaded row: the raw cells, its "Rang HF" (`rank`), its "Frais en EUR"
   * (`eur`) and its "Sélectionner" flag (`selected`).
   */
  datatype Row = Row(
    rank: nat,
    fee: Cell, deadline: Cell, acceptance: Cell, employment: Cell, riskNet: Cell,
    eur: real,
    selected: bool)

  /** The euro fee of a row is the conversion of its own fee text. */
  predicate Consistent(r: Row) {
    r.eur == ConvertToEur(r.fee)
  }

  /** One row of the file, annotated. */
  function LoadRow(raw: RawRow, rank: nat): (r: Row)
    ensures Consistent(r) && !r.selected && r.rank == rank
    ensures r.fee == raw.fee && r.deadline == raw.deadline && r.acceptance == raw.acceptance
    ensures r.employment == raw.employment && r.riskNet == raw.riskNet
  {
    Row(rank, raw.fee, raw.deadline, raw.acceptance, raw.employment, raw.riskNet,
        ConvertToEur(raw.fee), false)
  }

  /**
   * app.py:69-72: add "Frais en EUR" by converting each fee, add
   * "Sélectionner" as false, and index the rows 1..n in file order.
   */
  function LoadRows(raw: seq<RawRow>): (rows: seq<Row>)
    ensures |rows| == |raw|
    ensures forall i :: 0 <= i < |rows| ==> rows[i] == LoadRow(raw[i], i + 1)
  {
    seq(|raw|, i requires 0 <= i < |raw| => LoadRow(raw[i], i + 1))
  }

  /**
   * The loaded table: the file's rows in file order, numbered 1..n, each
   * fee converted, nothing ticked.
   */
  lemma Loaded(raw: seq<RawRow>)
    ensures |LoadRows(raw)| == |raw|
    ensures forall i :: 0 <= i < |raw| ==>
      var r := LoadRows(raw)[i];
      r.rank == i + 1 && Consistent(r) && r.eur >= 0.0 && !r.selected && r.fee == raw[i].fee
  {
    forall i | 0 <= i < |raw|
      ensures LoadRows(raw)[i].eur >= 0.0
    {
      assert LoadRows(raw)[i].eur == ConvertToEur(raw[i].fee);
    }
  }

  /** app.py:184: the flags the table editor hands back are written onto the rows, in order. */
  function WithSelection(rows: seq<Row>, flags: seq<bool>): (r: seq<Row>)
    requires |flags| == |rows|
    ensures |r| == |rows|
    ensures forall i :: 0 <= i < |r| ==> r[i] == rows[i].(selected := flags[i])
  {
    seq(|rows|, i requires 0 <= i < |rows| => rows[i].(selected := flags[i]))
  }
}
