/** The flux normalisation stage of the data pipeline
    (src/data/normalize_flux.py). A table passes validation when its structure
    is complete and some row holds data with no negative inverse variance. Each
    row with a negative inverse variance is then skipped; every other row has
    its negative fluxes raised to 0 and its flux family replaced by the
    standardised values. Nothing but flux cells changes. The standardisation
    (NaN-ignoring mean and standard deviation) is a parameter of the model. */
module DataNormalize {
  import opened Values
  import opened Tables
  import opened Validation

  // ---- validate_data ----

  /** How the row loop of `validate_data` classifies a row. */
  datatype RowCheck = NoData | NegativeIvar | Good

  function CheckRow(row: Row): RowCheck {
    if !HasData(row) then NoData
    else if AnyNegative(row.ivar) then NegativeIvar
    else Good
  }

  predicate IsGood(row: Row) {
    CheckRow(row) == Good
  }

  predicate IsNegativeIvar(row: Row) {
    CheckRow(row) == NegativeIvar
  }

  /** The outcome of `validate_data`, with the two counters it logs. */
  datatype Verdict = Failed(why: Failure) | Passed(validRows: nat, negativeIvarRows: nat)

  function Validate(t: Table): Verdict {
    match StructuralFailure(t)
    case Some(f) => Failed(f)
    case None =>
      var valid := CountRows(t.rows, IsGood);
      if valid == 0 then Failed(NoValidRows) else Passed(valid, CountRows(t.rows, IsNegativeIvar))
  }

  /** `validate_data`: the structural checks, then the counting loop. */
  method ValidateData(t: Table) returns (v: Verdict)
    ensures v == Validate(t)
  {
    var failure := StructuralFailure(t);
    if failure.Some? {
      return Failed(failure.value);
    }
    var valid, negative := 0, 0;
    var i := 0;
    while i < |t.rows|
      invariant 0 <= i <= |t.rows|
      invariant valid == CountRows(t.rows[..i], IsGood)
      invariant negative == CountRows(t.rows[..i], IsNegativeIvar)
    {
      CountRowsStep(t.rows, IsGood, i);
      CountRowsStep(t.rows, IsNegativeIvar, i);
      var row := t.rows[i];
      if !AnyPresent(row.wavelength) || !AnyPresent(row.flux) || !AnyPresent(row.ivar) {
      } else if AnyNegative(row.ivar) {
        negative := negative + 1;
      } else {
        valid := valid + 1;
      }
      i := i + 1;
    }
    assert t.rows[..i] == t.rows;
    if valid == 0 {
      return Failed(NoValidRows);
    }
    return Passed(valid, negative);
  }

  /** Validation passes exactly when the structure is complete and some row has
      a non-NaN value in each family and no negative inverse variance (a NaN
      inverse variance is not negative). The counters then count disjoint sets
      of rows, and at least one row is valid. */
  lemma ValidateIff(t: Table)
    ensures Validate(t).Passed? <==>
      && StructuralFailure(t).None?
      && exists k :: 0 <= k < |t.rows| && HasData(t.rows[k]) && !AnyNegative(t.rows[k].ivar)
    ensures Validate(t).Passed? ==>
      var v := Validate(t);
      v.validRows > 0 && v.validRows + v.negativeIvarRows <= |t.rows|
  {
    CountRowsPositive(t.rows, IsGood);
    if StructuralFailure(t).None? {
      DisjointCounts(t.rows);
    }
  }

  /** Rows counted as valid and rows counted for a negative inverse variance are
      different rows. */
  lemma {:induction false} DisjointCounts(rows: seq<Row>)
    ensures CountRows(rows, IsGood) + CountRows(rows, IsNegativeIvar) <= |rows|
  {
    if |rows| > 0 {
      DisjointCounts(rows[..|rows| - 1]);
    }
  }

  // ---- normalize_flux_data ----

  /** `flux_data[flux_data < 0] = 0`: negative values, including minus
      infinity, become 0; NaN is not negative and stays. */
  function Clip(s: seq<Val>): (r: seq<Val>)
    ensures |r| == |s|
  {
    seq(|s|, i requires 0 <= i < |s| => if IsNegative(s[i]) then Num(0.0) else s[i])
  }

  /** After clipping nothing is negative, a value that was not negative is
      untouched, and clipping again changes nothing. */
  lemma ClipSpec(s: seq<Val>)
    ensures !AnyNegative(Clip(s))
    ensures forall i :: 0 <= i < |s| ==> Clip(s)[i] == (if IsNegative(s[i]) then Num(0.0) else s[i])
    ensures !AnyNegative(s) ==> Clip(s) == s
    ensures Clip(Clip(s)) == Clip(s)
  {
  }

  /** The new flux family of a row, or `None` when the row is skipped: it has a
      negative inverse variance, or the standardised values do not fit the flux
      columns (pandas raises, the handler counts the row as skipped). */
  function NewFlux(row: Row, standardise: seq<Val> -> seq<Val>): Option<seq<Val>> {
    if AnyNegative(row.ivar) then None
    else
      var z := standardise(Clip(row.flux));
      if |z| != |row.flux| then None else Some(z)
  }

  /** The copy with its first `n` rows processed. */
  function NormalizedTo(t: Table, standardise: seq<Val> -> seq<Val>, n: nat): (u: Table)
    requires t.WellFormed()
    ensures u.WellFormed() && |u.rows| == |t.rows|
  {
    t.(rows := seq(|t.rows|, k requires 0 <= k < |t.rows| =>
      if k < n && NewFlux(t.rows[k], standardise).Some? then t.rows[k].(flux := NewFlux(t.rows[k], standardise).value)
      else t.rows[k]))
  }

  /** `normalized_df` once every row is processed. */
  function Normalized(t: Table, standardise: seq<Val> -> seq<Val>): Table
    requires t.WellFormed()
  {
    NormalizedTo(t, standardise, |t.rows|)
  }

  /** `skipped_spectra` after the given rows. */
  function Skipped(rows: seq<Row>, standardise: seq<Val> -> seq<Val>): (n: nat)
    ensures n <= |rows|
  {
    if |rows| == 0 then 0
    else Skipped(rows[..|rows| - 1], standardise) + (if NewFlux(rows[|rows| - 1], standardise).None? then 1 else 0)
  }

  /** How the stage ends. A file pandas cannot read is not part of the model. */
  datatype Result = Rejected(why: Failure) | Saved(table: Table, skipped: nat)

  function NormalizeFlux(t: Table, standardise: seq<Val> -> seq<Val>): Result
    requires t.WellFormed()
  {
    match Validate(t)
    case Failed(f) => Rejected(f)
    case Passed(_, _) => Saved(Normalized(t, standardise), Skipped(t.rows, standardise))
  }

  /** Processing row `n` of a table whose first `n` rows are processed. */
  lemma NormalizedStep(t: Table, standardise: seq<Val> -> seq<Val>, n: nat)
    requires t.WellFormed() && n < |t.rows|
    ensures var u := NormalizedTo(t, standardise, n);
      && u.rows[n] == t.rows[n]
      && (NewFlux(t.rows[n], standardise).Some? ==>
            u.SetFamily(n, Flux, NewFlux(t.rows[n], standardise).value) == NormalizedTo(t, standardise, n + 1))
      && (NewFlux(t.rows[n], standardise).None? ==> u == NormalizedTo(t, standardise, n + 1))
      && Skipped(t.rows[..n + 1], standardise) ==
           Skipped(t.rows[..n], standardise) + (if NewFlux(t.rows[n], standardise).None? then 1 else 0)
  {
    var u := NormalizedTo(t, standardise, n);
    var u' := NormalizedTo(t, standardise, n + 1);
    if NewFlux(t.rows[n], standardise).Some? {
      assert u.SetFamily(n, Flux, NewFlux(t.rows[n], standardise).value).rows == u'.rows;
    } else {
      assert u.rows == u'.rows;
    }
    assert t.rows[..n + 1][..n] == t.rows[..n];
  }

  /** `normalize_flux_data` on a table already read: validate, copy, then per
      row skip, clip, standardise and write the flux family. */
  method NormalizeFluxData(t: Table, standardise: seq<Val> -> seq<Val>) returns (r: Result)
    requires t.WellFormed()
    ensures r == NormalizeFlux(t, standardise)
  {
    var v := ValidateData(t);
    if v.Failed? {
      return Rejected(v.why);
    }
    var out := t;
    assert NormalizedTo(t, standardise, 0).rows == t.rows;
    var skipped := 0;
    var idx := 0;
    while idx < |t.rows|
      invariant 0 <= idx <= |t.rows|
      invariant out == NormalizedTo(t, standardise, idx)
      invariant skipped == Skipped(t.rows[..idx], standardise)
    {
      NormalizedStep(t, standardise, idx);
      var row := t.rows[idx];
      if AnyNegative(row.ivar) {
        skipped := skipped + 1;
      } else {
        var z := standardise(Clip(row.flux));
        if |z| != |row.flux| {
          skipped := skipped + 1;
        } else {
          out := out.SetFamily(idx, Flux, z);
        }
      }
      idx := idx + 1;
    }
    assert t.rows[..idx] == t.rows;
    return Saved(out, skipped);
  }

  /** The stage changes only flux cells: the flags, widths, row count, ids,
      types, wavelengths and inverse variances of the copy are the input's. */
  lemma OnlyFluxChanges(t: Table, standardise: seq<Val> -> seq<Val>)
    requires t.WellFormed()
    ensures var u := Normalized(t, standardise);
      && u.hasObsid == t.hasObsid && u.hasType == t.hasType
      && u.nWave == t.nWave && u.nFlux == t.nFlux && u.nIvar == t.nIvar && |u.rows| == |t.rows|
      && forall k :: 0 <= k < |t.rows| ==>
           && u.rows[k].obsid == t.rows[k].obsid && u.rows[k].stype == t.rows[k].stype
           && u.rows[k].wavelength == t.rows[k].wavelength && u.rows[k].ivar == t.rows[k].ivar
  {
  }

  /** Row by row: a row with a negative inverse variance is left exactly as it
      was and is counted as skipped; any other row whose standardised values
      fit gets the standardisation of its clipped flux. */
  lemma RowOutcome(t: Table, standardise: seq<Val> -> seq<Val>, k: nat)
    requires t.WellFormed() && k < |t.rows|
    ensures var row, out := t.rows[k], Normalized(t, standardise).rows[k];
      && (AnyNegative(row.ivar) ==> out == row && NewFlux(row, standardise).None?)
      && (!AnyNegative(row.ivar) && |standardise(Clip(row.flux))| == |row.flux| ==>
            out == row.(flux := standardise(Clip(row.flux))))
      && (!AnyNegative(row.ivar) && |standardise(Clip(row.flux))| != |row.flux| ==> out == row)
  {
  }

  /** The row has a negative inverse variance. */
  predicate HasNegativeIvar(row: Row) {
    AnyNegative(row.ivar)
  }

  /** `skipped_spectra` is at least the number of rows validation counted for a
      negative inverse variance, and is exactly the number of rows with a
      negative inverse variance when the standardised values fit every row. */
  lemma {:induction false} SkippedCount(rows: seq<Row>, standardise: seq<Val> -> seq<Val>)
    ensures CountRows(rows, IsNegativeIvar) <= Skipped(rows, standardise)
    ensures (forall k :: 0 <= k < |rows| ==> |standardise(Clip(rows[k].flux))| == |rows[k].flux|) ==>
      Skipped(rows, standardise) == CountRows(rows, HasNegativeIvar)
  {
    if |rows| > 0 {
      var n := |rows| - 1;
      SkippedCount(rows[..n], standardise);
      if forall k :: 0 <= k < |rows| ==> |standardise(Clip(rows[k].flux))| == |rows[k].flux| {
        assert forall k :: 0 <= k < n ==> rows[..n][k] == rows[k];
      }
    }
  }
}
