/** The checks both normalisation stages make before touching a table
    (`validate_data` in src/normalize_flux.py and src/data/normalize_flux.py):
    the structural checks, made in the same order in both, and the test for a
    row holding some data. */
module Validation {
  import opened Values
  import opened Tables

  /** Why `validate_data` returns False. */
  datatype Failure = MissingIdColumns | NoWavelengthColumns | NoFluxColumns | NoIvarColumns | EmptyTable | NoValidRows

  /** The first structural check that fails: the `obsid` and `type` columns,
      then a column of each family, then a non-empty table. */
  function StructuralFailure(t: Table): Option<Failure> {
    if !t.hasObsid || !t.hasType then Some(MissingIdColumns)
    else if t.nWave == 0 then Some(NoWavelengthColumns)
    else if t.nFlux == 0 then Some(NoFluxColumns)
    else if t.nIvar == 0 then Some(NoIvarColumns)
    else if |t.rows| == 0 then Some(EmptyTable)
    else None
  }

  /** The structural checks pass exactly when the table has its id columns, a
      column of each family and a row; a failure is never the row verdict. */
  lemma StructuralFailureSpec(t: Table)
    ensures StructuralFailure(t).None? <==>
      t.hasObsid && t.hasType && t.nWave > 0 && t.nFlux > 0 && t.nIvar > 0 && |t.rows| > 0
    ensures StructuralFailure(t) != Some(NoValidRows)
    ensures StructuralFailure(t) == Some(EmptyTable) ==>
      t.hasObsid && t.hasType && t.nWave > 0 && t.nFlux > 0 && t.nIvar > 0
  {
  }

  /** Each family has a value that is not NaN. */
  predicate HasData(row: Row) {
    AnyPresent(row.wavelength) && AnyPresent(row.flux) && AnyPresent(row.ivar)
  }

  /** The number of rows satisfying `p`. */
  function CountRows(rows: seq<Row>, p: Row -> bool): (n: nat)
    ensures n <= |rows|
  {
    if |rows| == 0 then 0
    else CountRows(rows[..|rows| - 1], p) + (if p(rows[|rows| - 1]) then 1 else 0)
  }

  /** Some row satisfies `p` exactly when the count is positive. */
  lemma {:induction false} CountRowsPositive(rows: seq<Row>, p: Row -> bool)
    ensures CountRows(rows, p) > 0 <==> exists k :: 0 <= k < |rows| && p(rows[k])
  {
    if |rows| > 0 {
      var n := |rows| - 1;
      CountRowsPositive(rows[..n], p);
      if exists k :: 0 <= k < n && p(rows[..n][k]) {
        var k :| 0 <= k < n && p(rows[..n][k]);
        assert rows[..n][k] == rows[k];
      }
      if exists k :: 0 <= k < |rows| && p(rows[k]) {
        var k :| 0 <= k < |rows| && p(rows[k]);
        if k < n {
          assert rows[..n][k] == rows[k];
        }
      }
    }
  }

  /** Counting a prefix one row longer. */
  lemma CountRowsStep(rows: seq<Row>, p: Row -> bool, i: nat)
    requires i < |rows|
    ensures CountRows(rows[..i + 1], p) == CountRows(rows[..i], p) + (if p(rows[i]) then 1 else 0)
  {
    assert rows[..i + 1][..i] == rows[..i];
  }
}
