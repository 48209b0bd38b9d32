/** The fixed-grid resampler (src/interpolate_spectra.py). The first 3909
    columns of each family are read; a spectrum whose usable samples cover
    3700–9000 Å is interpolated onto the 5301 whole Ångströms of that range
    (extrapolation is switched on but never needed), and kept when every
    interpolated value is finite. Every kept spectrum has the same length, so
    the output needs no padding. */
module FixedInterpolate {
  import opened Values
  import opened Stats
  import opened Masking
  import opened Interpolation
  import opened Grids
  import opened Tables
  import opened Resampler

  /** The stage reads the columns `<family>_0` .. `<family>_3908`. */
  const Columns: nat := 3909

  /** The row restricted to the columns the stage reads. */
  function Head(row: Row): (h: Row)
    requires |row.wavelength| >= Columns && |row.flux| >= Columns && |row.ivar| >= Columns
    ensures SameWidth(h) && |h.wavelength| == Columns
    ensures h.obsid == row.obsid && h.stype == row.stype
  {
    Row(row.obsid, row.stype, row.wavelength[..Columns], row.flux[..Columns], row.ivar[..Columns])
  }

  /** The masked samples cover the target range: none starts after 3700 Å and
      none ends before 9000 Å. */
  predicate Covers(xs: seq<real>)
    requires |xs| > 0
  {
    MinOf(xs) <= GridStart as real && MaxOf(xs) >= GridEnd as real
  }

  /** One row of the loop: mask, coverage, interpolation with extrapolation,
      NaN/infinity gate. An empty masked row passes the emptiness test of the
      coverage check but its warning message takes the minimum of nothing, which
      raises and is caught by the loop. */
  function Resample(row: Row): (o: Outcome)
    requires SameWidth(row) && Ordered(row.wavelength)
    ensures o.Accepted? ==>
      && |o.flux| == |o.ivar| == 5301
      && !AnyNonFinite(o.flux) && !AnyNonFinite(o.ivar)
    ensures o.Rejected? ==> o.reason in {RowError, RangeIncomplete, InvalidInterp}
  {
    var xs, c := Waves(row), Masked(row);
    if |xs| == 0 then Rejected(RowError)
    else if !Covers(xs) then Rejected(RangeIncomplete)
    else
      EndsOfIncreasing(xs);
      FixedGridSpec();
      var f := Evaluate(xs, c.flux, FixedGrid(), Extrapolate).value;
      var v := Evaluate(xs, c.ivar, FixedGrid(), Extrapolate).value;
      Gate(f, v, false)
  }

  /** A row is skipped by a caught exception exactly when nothing survives the
      NaN mask, and for an incomplete range exactly when its first usable
      wavelength is above 3700 Å or its last below 9000 Å. */
  lemma CoverageGate(row: Row)
    requires SameWidth(row) && Ordered(row.wavelength)
    ensures Resample(row) == Rejected(RowError) <==> |Masked(row).wl| == 0
    ensures Resample(row) == Rejected(RangeIncomplete) <==>
      |Waves(row)| > 0 && (Waves(row)[0] > GridStart as real || Waves(row)[|Waves(row)| - 1] < GridEnd as real)
  {
    if |Waves(row)| > 0 {
      EndsOfIncreasing(Waves(row));
    }
  }

  /** A row covering the target range has at least two samples and every target
      wavelength lies within them, so no value is extrapolated and the strict
      interpolator would not raise. On finite masked samples the values equal
      the strict interpolator's; with an infinite sample they may not, because
      only the strict mode goes through `np.interp`. */
  lemma ExtrapolationUnused(row: Row)
    requires SameWidth(row) && Ordered(row.wavelength)
    requires |Waves(row)| > 0 && Covers(Waves(row))
    ensures |Waves(row)| >= 2
    ensures forall k :: 0 <= k < |FixedGrid()| ==> Inside(Waves(row), FixedGrid()[k] as real)
    ensures Evaluate(Waves(row), Masked(row).flux, FixedGrid(), Strict).Some?
    ensures Evaluate(Waves(row), Masked(row).ivar, FixedGrid(), Strict).Some?
    ensures (forall i :: 0 <= i < |Masked(row).flux| ==> IsFinite(Masked(row).flux[i])) ==>
      Evaluate(Waves(row), Masked(row).flux, FixedGrid(), Extrapolate)
        == Evaluate(Waves(row), Masked(row).flux, FixedGrid(), Strict)
    ensures (forall i :: 0 <= i < |Masked(row).ivar| ==> IsFinite(Masked(row).ivar[i])) ==>
      Evaluate(Waves(row), Masked(row).ivar, FixedGrid(), Extrapolate)
        == Evaluate(Waves(row), Masked(row).ivar, FixedGrid(), Strict)
  {
    var xs := Waves(row);
    EndsOfIncreasing(xs);
    FixedGridSpec();
    ModesAgreeInside(xs, Masked(row).flux, FixedGrid());
    ModesAgreeInside(xs, Masked(row).ivar, FixedGrid());
  }

  /** A row is kept exactly when it covers the target range and every
      interpolated flux and ivar is finite; a negative inverse variance does not
      stop it. */
  lemma AcceptedIff(row: Row)
    requires SameWidth(row) && Ordered(row.wavelength)
    ensures Resample(row).Accepted? <==>
      && |Waves(row)| > 0 && Covers(Waves(row))
      && !AnyNonFinite(Evaluate(Waves(row), Masked(row).flux, FixedGrid(), Extrapolate).value)
      && !AnyNonFinite(Evaluate(Waves(row), Masked(row).ivar, FixedGrid(), Extrapolate).value)
    ensures Resample(row) != Rejected(NegativeIvar) && Resample(row) != Rejected(OutOfBounds)
  {
    if |Waves(row)| > 0 && Covers(Waves(row)) {
      ExtrapolationUnused(row);
    }
  }

  /** An accepted row holds the interpolant of its masked flux and ivar at each
      of the 5301 whole Ångströms from 3700 to 9000, all finite. */
  lemma AcceptedSpectrum(row: Row)
    requires SameWidth(row) && Ordered(row.wavelength) && Resample(row).Accepted?
    ensures |Waves(row)| >= 2
    ensures var o := Resample(row);
      && |o.flux| == |o.ivar| == 5301
      && forall j :: 0 <= j < 5301 ==>
           && o.flux[j] == Linear(Waves(row), Masked(row).flux, (GridStart + j) as real)
           && o.ivar[j] == Linear(Waves(row), Masked(row).ivar, (GridStart + j) as real)
           && IsFinite(o.flux[j]) && IsFinite(o.ivar[j])
  {
    var xs, c := Waves(row), Masked(row);
    EndsOfIncreasing(xs);
    FixedGridSpec();
    var grid := FixedGrid();
    var f := Evaluate(xs, c.flux, grid, Extrapolate).value;
    var v := Evaluate(xs, c.ivar, grid, Extrapolate).value;
    var o := Gate(f, v, false);
    assert o == Resample(row);
    forall j | 0 <= j < 5301
      ensures o.flux[j] == Linear(xs, c.flux, (GridStart + j) as real)
      ensures o.ivar[j] == Linear(xs, c.ivar, (GridStart + j) as real)
      ensures IsFinite(o.flux[j]) && IsFinite(o.ivar[j])
    {
      assert grid[j] as real == (GridStart + j) as real;
      EvaluateAt(xs, c.flux, grid, Extrapolate, j);
      EvaluateAt(xs, c.ivar, grid, Extrapolate, j);
    }
  }

  /** The rows as the stage reads them. */
  function Selected(t: Table): (rows: seq<Row>)
    requires t.WellFormed() && t.nWave >= Columns && t.nFlux >= Columns && t.nIvar >= Columns
    ensures |rows| == |t.rows|
    ensures forall i :: 0 <= i < |rows| ==> SameWidth(rows[i])
  {
    seq(|t.rows|, i requires 0 <= i < |t.rows| => Head(t.rows[i]))
  }

  /** Reading the first 3909 columns keeps every row ordered. */
  lemma SelectedOrdered(t: Table)
    requires t.WellFormed() && t.nWave >= Columns && t.nFlux >= Columns && t.nIvar >= Columns
    requires AllOrdered(t.rows)
    ensures AllOrdered(Selected(t))
  {
    forall i | 0 <= i < |t.rows| ensures Ordered(Selected(t)[i].wavelength) {
      OrderedPrefix(t.rows[i].wavelength, Columns);
    }
  }

  /** Every row is read with equal family widths, in wavelength order. */
  predicate Readable(rows: seq<Row>) {
    forall i :: 0 <= i < |rows| ==> SameWidth(rows[i]) && Ordered(rows[i].wavelength)
  }

  /** The outcome of every row. */
  function Outcomes(rows: seq<Row>): seq<Outcome>
    requires Readable(rows)
  {
    seq(|rows|, i requires 0 <= i < |rows| => Resample(rows[i]))
  }

  /** The row loop: the counters and the kept spectra. */
  method ResampleRows(rows: seq<Row>) returns (tally: Tally, kept: seq<Spectrum>)
    requires Readable(rows)
    ensures tally == TallyOf(Outcomes(rows))
    ensures kept == KeptOf(rows, Outcomes(rows))
  {
    tally := Tally(0, 0, 0, 0, 0);
    kept := [];
    var i := 0;
    while i < |rows|
      invariant 0 <= i <= |rows|
      invariant tally == TallyOf(Outcomes(rows[..i]))
      invariant kept == KeptOf(rows[..i], Outcomes(rows[..i]))
    {
      var row := rows[i];
      var o := Resample(row);
      assert rows[..i + 1][..i] == rows[..i];
      assert Outcomes(rows[..i + 1])[..i] == Outcomes(rows[..i]);
      tally := Count(tally, o);
      if o.Accepted? {
        kept := kept + [Spectrum(row.obsid, row.stype, o.flux, o.ivar)];
      }
      i := i + 1;
    }
    assert rows[..i] == rows;
  }

  /** The stage has no inverse-variance check, so its negative-ivar counter
      stays at zero; and no row is skipped as out of bounds, so its failed-
      interpolation counter counts exactly the rows with a NaN or infinite result. */
  lemma NoIvarOrBoundsRejections(rows: seq<Row>)
    requires Readable(rows)
    ensures TallyOf(Outcomes(rows)).negativeIvar == 0
    ensures TallyOf(Outcomes(rows)).invalidInterp == multiset(Outcomes(rows))[Rejected(InvalidInterp)]
  {
    var outs := Outcomes(rows);
    TallyCounts(outs);
    forall i | 0 <= i < |outs| ensures outs[i] != Rejected(NegativeIvar) && outs[i] != Rejected(OutOfBounds) {
      AcceptedIff(rows[i]);
    }
    assert Rejected(NegativeIvar) !in outs;
    assert Rejected(OutOfBounds) !in outs;
  }

  /** The table the stage writes: one row per kept spectrum, under the column
      labels `flux_<w>.0` and `ivar_<w>.0` for `w` in `labels`. */
  datatype Aligned = Aligned(obsid: seq<int>, stype: seq<string>, labels: seq<int>,
                             flux: seq<seq<Val>>, ivar: seq<seq<Val>>)

  /** How a run of the stage ends. */
  datatype Result =
    | MissingColumn                          // a column the stage reads is absent: an uncaught KeyError
    | NothingInterpolated(tally: Tally)      // no spectrum kept: logged, nothing written
    | Written(tally: Tally, table: Aligned)

  /** What the stage does with a table, start to end. */
  function Interpolate(t: Table): Result
    requires t.WellFormed() && AllOrdered(t.rows)
  {
    if !t.hasObsid || !t.hasType || t.nWave < Columns || t.nFlux < Columns || t.nIvar < Columns then MissingColumn
    else
      var rows := Selected(t);
      SelectedOrdered(t);
      var outs := Outcomes(rows);
      var kept := KeptOf(rows, outs);
      if |kept| == 0 then NothingInterpolated(TallyOf(outs))
      else
        Written(TallyOf(outs),
                Aligned(seq(|kept|, k requires 0 <= k < |kept| => kept[k].obsid),
                        seq(|kept|, k requires 0 <= k < |kept| => kept[k].stype),
                        FixedGrid(),
                        seq(|kept|, k requires 0 <= k < |kept| => kept[k].flux),
                        seq(|kept|, k requires 0 <= k < |kept| => kept[k].ivar)))
  }

  /** The stage fails only for a missing column; otherwise every input row is
      counted once as kept or skipped, nothing is written exactly when no row
      was kept, and the written table has one row per kept spectrum. */
  lemma Tallied(t: Table)
    requires t.WellFormed() && AllOrdered(t.rows)
    ensures var r := Interpolate(t);
      && (r.MissingColumn? <==> !t.hasObsid || !t.hasType || t.nWave < Columns || t.nFlux < Columns || t.nIvar < Columns)
      && (!r.MissingColumn? ==> r.tally.accepted + r.tally.skipped == |t.rows|)
      && (r.NothingInterpolated? <==> !r.MissingColumn? && r.tally.accepted == 0)
      && (r.Written? ==> r.tally.accepted == |r.table.obsid| == |r.table.flux| > 0)
  {
    if t.hasObsid && t.hasType && t.nWave >= Columns && t.nFlux >= Columns && t.nIvar >= Columns {
      var rows := Selected(t);
      SelectedOrdered(t);
      var outs := Outcomes(rows);
      TallyBalances(outs);
      KeptSize(rows, outs);
    }
  }

  /** The stage: column selection, the row loop, the output table. */
  method InterpolateSpectra(t: Table) returns (r: Result)
    requires t.WellFormed() && AllOrdered(t.rows)
    ensures r == Interpolate(t)
  {
    if !t.hasObsid || !t.hasType || t.nWave < Columns || t.nFlux < Columns || t.nIvar < Columns {
      return MissingColumn;
    }
    var rows := Selected(t);
    SelectedOrdered(t);
    var tally, kept := ResampleRows(rows);
    if |kept| == 0 {
      return NothingInterpolated(tally);
    }
    var obsids := seq(|kept|, k requires 0 <= k < |kept| => kept[k].obsid);
    var types := seq(|kept|, k requires 0 <= k < |kept| => kept[k].stype);
    var flux := seq(|kept|, k requires 0 <= k < |kept| => kept[k].flux);
    var ivar := seq(|kept|, k requires 0 <= k < |kept| => kept[k].ivar);
    r := Written(tally, Aligned(obsids, types, FixedGrid(), flux, ivar));
  }

  /** The written table has one row per kept spectrum, every input row being
      counted once as kept or skipped; each row is the kept row's identifier,
      type and values, 5301 finite values per family under the labels
      3700..9000. */
  lemma WrittenTable(t: Table)
    requires t.WellFormed() && AllOrdered(t.rows) && Interpolate(t).Written?
    ensures var r := Interpolate(t); var a := r.table;
      && r.tally.accepted + r.tally.skipped == |t.rows|
      && r.tally.negativeIvar == 0
      && |a.obsid| == |a.stype| == |a.flux| == |a.ivar| == r.tally.accepted > 0
      && |a.labels| == 5301
      && (forall j :: 0 <= j < 5301 ==> a.labels[j] == GridStart + j)
      && forall k :: 0 <= k < |a.flux| ==>
           && |a.flux[k]| == |a.ivar[k]| == 5301
           && forall j :: 0 <= j < 5301 ==> IsFinite(a.flux[k][j]) && IsFinite(a.ivar[k][j])
  {
    var rows := Selected(t);
    SelectedOrdered(t);
    var outs := Outcomes(rows);
    TallyBalances(outs);
    NoIvarOrBoundsRejections(rows);
    KeptOfSpec(rows, outs);
    FixedGridSpec();
    var a := Interpolate(t).table;
    forall k | 0 <= k < |a.flux|
      ensures |a.flux[k]| == |a.ivar[k]| == 5301
      ensures forall j :: 0 <= j < 5301 ==> IsFinite(a.flux[k][j]) && IsFinite(a.ivar[k][j])
    {
      AcceptedSpectrum(rows[KeptIndices(outs)[k]]);
    }
  }

  /** Each written row is the interpolant of the kept input row it came from,
      rows appearing in input order. */
  lemma WrittenRowsFromInput(t: Table, k: nat)
    requires t.WellFormed() && AllOrdered(t.rows) && Interpolate(t).Written?
    requires k < |Interpolate(t).table.flux|
    ensures var a := Interpolate(t).table; var rows := Selected(t);
      && AllOrdered(rows) && |KeptIndices(Outcomes(rows))| == |a.flux|
      && var i := KeptIndices(Outcomes(rows))[k];
      && i < |t.rows| && Resample(rows[i]).Accepted?
      && a.obsid[k] == t.rows[i].obsid && a.stype[k] == t.rows[i].stype
      && |Waves(rows[i])| >= 2 && |a.flux[k]| == |a.ivar[k]| == 5301
      && (forall j :: 0 <= j < 5301 ==>
           a.flux[k][j] == Linear(Waves(rows[i]), Masked(rows[i]).flux, (GridStart + j) as real))
      && forall j :: 0 <= j < 5301 ==>
           a.ivar[k][j] == Linear(Waves(rows[i]), Masked(rows[i]).ivar, (GridStart + j) as real)
    ensures k > 0 ==> KeptIndices(Outcomes(Selected(t)))[k - 1] < KeptIndices(Outcomes(Selected(t)))[k]
  {
    var rows := Selected(t);
    SelectedOrdered(t);
    var outs := Outcomes(rows);
    KeptOfSpec(rows, outs);
    AcceptedSpectrum(rows[KeptIndices(outs)[k]]);
  }
}
