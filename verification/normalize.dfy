/** The flux normalisation stage of the earlier pipeline
    (src/normalize_flux.py). Validation makes the same structural checks as
    the data pipeline's stage but accepts any row holding data, whatever the
    sign of its inverse variances; every row then has its flux family replaced
    by the standardised values, unclipped. Nothing but flux cells changes. The
    standardisation is a parameter of the model. */
module Normalize {
  import opened Values
  import opened Tables
  import opened Validation

  /** The outcome of `validate_data`, with the counter it logs. */
  datatype Verdict = Failed(why: Failure) | Passed(validRows: nat)

  function Validate(t: Table): Verdict {
    match StructuralFailure(t)
    case Some(f) => Failed(f)
    case None =>
      var valid := CountRows(t.rows, HasData);
      if valid == 0 then Failed(NoValidRows) else Passed(valid)
  }

  /** `validate_data`: the structural checks, then the counting loop. */
  method ValidateData(t: Table) returns (v: Verdict)
    ensures v == Validate(t)
  {
    var failure := StructuralFailure(t);
    if failure.Some? {
      return Failed(failure.value);
    }
    var valid := 0;
    var i := 0;
    while i < |t.rows|
      invariant 0 <= i <= |t.rows|
      invariant valid == CountRows(t.rows[..i], HasData)
    {
      CountRowsStep(t.rows, HasData, i);
      var row := t.rows[i];
      if AnyPresent(row.wavelength) && AnyPresent(row.flux) && AnyPresent(row.ivar) {
        valid := valid + 1;
      }
      i := i + 1;
    }
    assert t.rows[..i] == t.rows;
    if valid == 0 {
      return Failed(NoValidRows);
    }
    return Passed(valid);
  }

  /** Validation passes exactly when the structure is complete and some row has
      a non-NaN value in each family; the sign of the inverse variances plays no
      part. */
  lemma ValidateIff(t: Table)
    ensures Validate(t).Passed? <==>
      StructuralFailure(t).None? && exists k :: 0 <= k < |t.rows| && HasData(t.rows[k])
    ensures Validate(t).Passed? ==> 0 < Validate(t).validRows <= |t.rows|
  {
    CountRowsPositive(t.rows, HasData);
  }

  /** The new flux family of a row, or `None` when the standardised values do
      not fit the flux columns (pandas raises and the handler moves on). */
  function NewFlux(row: Row, standardise: seq<Val> -> seq<Val>): Option<seq<Val>> {
    var z := standardise(row.flux);
    if |z| != |row.flux| then None else Some(z)
  }

  /** The copy with its first `n` rows processed. */
  function NormalizedTo(t: Table, standardise: seq<Val> -> seq<Val>, n: nat): (u: Table)
    requires t.WellFormed()
    ensures u.WellFormed() && |u.rows| == |t.rows|
  {
    t.(rows := seq(|t.rows|, k requires 0 <= k < |t.rows| =>
      if k < n && NewFlux(t.rows[k], standardise).Some? then t.rows[k].(flux := NewFlux(t.rows[k], standardise).value)
      else t.rows[k]))
  }

  /** `normalized_df` once every row is processed. */
  function Normalized(t: Table, standardise: seq<Val> -> seq<Val>): Table
    requires t.WellFormed()
  {
    NormalizedTo(t, standardise, |t.rows|)
  }

  /** How the stage ends. A file pandas cannot read is not part of the model. */
  datatype Result = Rejected(why: Failure) | Saved(table: Table)

  function NormalizeFlux(t: Table, standardise: seq<Val> -> seq<Val>): Result
    requires t.WellFormed()
  {
    match Validate(t)
    case Failed(f) => Rejected(f)
    case Passed(_) => Saved(Normalized(t, standardise))
  }

  /** Processing row `n` of a table whose first `n` rows are processed. */
  lemma NormalizedStep(t: Table, standardise: seq<Val> -> seq<Val>, n: nat)
    requires t.WellFormed() && n < |t.rows|
    ensures var u := NormalizedTo(t, standardise, n);
      && u.rows[n] == t.rows[n]
      && (NewFlux(t.rows[n], standardise).Some? ==>
            u.SetFamily(n, Flux, NewFlux(t.rows[n], standardise).value) == NormalizedTo(t, standardise, n + 1))
      && (NewFlux(t.rows[n], standardise).None? ==> u == NormalizedTo(t, standardise, n + 1))
  {
    var u := NormalizedTo(t, standardise, n);
    var u' := NormalizedTo(t, standardise, n + 1);
    if NewFlux(t.rows[n], standardise).Some? {
      assert u.SetFamily(n, Flux, NewFlux(t.rows[n], standardise).value).rows == u'.rows;
    } else {
      assert u.rows == u'.rows;
    }
  }

  /** `normalize_flux_data` on a table already read: validate, copy, then per
      row standardise and write the flux family. */
  method NormalizeFluxData(t: Table, standardise: seq<Val> -> seq<Val>) returns (r: Result)
    requires t.WellFormed()
    ensures r == NormalizeFlux(t, standardise)
  {
    var v := ValidateData(t);
    if v.Failed? {
      return Rejected(v.why);
    }
    var out := t;
    assert NormalizedTo(t, standardise, 0).rows == t.rows;
    var idx := 0;
    while idx < |t.rows|
      invariant 0 <= idx <= |t.rows|
      invariant out == NormalizedTo(t, standardise, idx)
    {
      NormalizedStep(t, standardise, idx);
      var z := standardise(t.rows[idx].flux);
      if |z| == |t.rows[idx].flux| {
        out := out.SetFamily(idx, Flux, z);
      }
      idx := idx + 1;
    }
    return Saved(out);
  }

  /** The stage changes only flux cells, and every row whose standardised values
      fit gets them, negative inverse variances included; a row whose values do
      not fit is left as it was. */
  lemma OnlyFluxChanges(t: Table, standardise: seq<Val> -> seq<Val>)
    requires t.WellFormed()
    ensures var u := Normalized(t, standardise);
      && u.hasObsid == t.hasObsid && u.hasType == t.hasType
      && u.nWave == t.nWave && u.nFlux == t.nFlux && u.nIvar == t.nIvar && |u.rows| == |t.rows|
      && forall k :: 0 <= k < |t.rows| ==>
           var row := t.rows[k];
           u.rows[k] == if |standardise(row.flux)| == |row.flux| then row.(flux := standardise(row.flux)) else row
  {
  }
}
