/** The adaptive resampler (src/data/interpolate_spectra.py). Each spectrum with
    at least 3000 usable points and a whole-Ångström span of at least 1000 Å is
    interpolated, strictly inside its own samples, onto the unit grid from the
    ceiling of its first wavelength to the floor of its last. The kept spectra
    are padded with zeros to the longest one and written under one set of column
    labels. */
module DataInterpolate {
  import opened Values
  import opened Stats
  import opened Masking
  import opened Interpolation
  import opened Grids
  import opened Tables
  import opened Resampler

  const MinPoints: nat := 3000
  const MinSpan: int := 1000

  /** `(np.ceil(wl.min()), np.floor(wl.max()))` of the masked row, which the
      stage computes once a row has passed the point count. */
  function Range(row: Row): Option<(int, int)>
    requires Ordered(row.wavelength)
  {
    if !SameWidth(row) || |Waves(row)| < MinPoints then None
    else Some((Ceil(MinOf(Waves(row))), Floor(MaxOf(Waves(row)))))
  }

  /** One row of the loop: mask, point count, span, strict interpolation, gate. */
  function Resample(row: Row): (o: Outcome)
    requires Ordered(row.wavelength)
    ensures o.Accepted? ==>
      && |o.flux| == |o.ivar| > 0
      && !AnyNonFinite(o.flux) && !AnyNonFinite(o.ivar) && !AnyNegative(o.ivar)
  {
    if !SameWidth(row) then Rejected(RowError)
    else if |Waves(row)| < MinPoints then Rejected(TooFewPoints)
    else
      var lo, hi := Range(row).value.0, Range(row).value.1;
      if hi - lo < MinSpan then Rejected(RangeTooNarrow)
      else
        UnitGridSpec(lo, hi);
        var xs, c := Waves(row), Masked(row);
        var grid := UnitGrid(lo, hi);
        var f := Evaluate(xs, c.flux, grid, Strict);
        var v := Evaluate(xs, c.ivar, grid, Strict);
        if f.None? || v.None? then Rejected(OutOfBounds) else Gate(f.value, v.value, true)
  }

  /** A row is skipped for too few points exactly when fewer than 3000 points
      survive the NaN mask; with enough points, it is skipped for its range
      exactly when its whole-Ångström span is under 1000 Å (so exactly 1000 Å
      passes). */
  lemma Gates(row: Row)
    requires Ordered(row.wavelength) && SameWidth(row)
    ensures Resample(row) == Rejected(TooFewPoints) <==> |Masked(row).wl| < MinPoints
    ensures |Masked(row).wl| >= MinPoints ==>
      (Resample(row) == Rejected(RangeTooNarrow) <==> Range(row).value.1 - Range(row).value.0 < MinSpan)
  {
  }

  /** The grid of a row that passes the point count lies within its samples. */
  lemma GridInside(row: Row)
    requires Ordered(row.wavelength) && SameWidth(row) && Range(row).Some?
    ensures var lo, hi := Range(row).value.0, Range(row).value.1;
      forall k :: 0 <= k < |UnitGrid(lo, hi)| ==> Inside(Waves(row), UnitGrid(lo, hi)[k] as real)
  {
    UnitGridWithin(Waves(row));
  }

  /** The unit grid from the ceiling of the first sample to the floor of the
      last lies within the samples. */
  lemma UnitGridWithin(xs: seq<real>)
    requires |xs| > 0 && Increasing(xs)
    ensures var lo, hi := Ceil(MinOf(xs)), Floor(MaxOf(xs));
      forall k :: 0 <= k < |UnitGrid(lo, hi)| ==> Inside(xs, UnitGrid(lo, hi)[k] as real)
  {
    EndsOfIncreasing(xs);
    var lo, hi := Ceil(MinOf(xs)), Floor(MaxOf(xs));
    var g := UnitGrid(lo, hi);
    forall k | 0 <= k < |g| ensures Inside(xs, g[k] as real) {
      UnitGridSpec(lo, hi);
      assert lo <= g[k] <= hi;
    }
  }

  /** The grid never leaves the samples, so the strict interpolator never raises. */
  lemma StrictNeverRaises(row: Row)
    requires Ordered(row.wavelength)
    ensures Resample(row) != Rejected(OutOfBounds)
  {
    if SameWidth(row) && Range(row).Some? {
      var xs, c := Waves(row), Masked(row);
      var lo, hi := Range(row).value.0, Range(row).value.1;
      GridInside(row);
      ModesAgreeInside(xs, c.flux, UnitGrid(lo, hi));
      ModesAgreeInside(xs, c.ivar, UnitGrid(lo, hi));
    }
  }

  /** An accepted row got through every check up to the gate. */
  lemma AcceptedPassedChecks(row: Row)
    requires Ordered(row.wavelength) && Resample(row).Accepted?
    ensures SameWidth(row) && Range(row).Some?
    ensures var lo, hi := Range(row).value.0, Range(row).value.1;
      && hi - lo >= MinSpan
      && Evaluate(Waves(row), Masked(row).flux, UnitGrid(lo, hi), Strict).Some?
      && Evaluate(Waves(row), Masked(row).ivar, UnitGrid(lo, hi), Strict).Some?
      && Resample(row) == Gate(Evaluate(Waves(row), Masked(row).flux, UnitGrid(lo, hi), Strict).value,
                               Evaluate(Waves(row), Masked(row).ivar, UnitGrid(lo, hi), Strict).value, true)
  {
  }

  /** An accepted row holds, at each whole Ångström from the ceiling of its first
      wavelength to the floor of its last, the interpolant of its masked flux and
      ivar there: more than 1000 values, all finite, no inverse variance below zero. */
  lemma AcceptedSpectrum(row: Row)
    requires Ordered(row.wavelength) && Resample(row).Accepted?
    ensures SameWidth(row) && Range(row).Some?
    ensures var lo, hi := Range(row).value.0, Range(row).value.1; var o := Resample(row);
      && hi - lo >= MinSpan && |o.flux| == |o.ivar| == hi - lo + 1
      && SampledFrom(Waves(row), Masked(row).flux, lo, o.flux)
      && SampledFrom(Waves(row), Masked(row).ivar, lo, o.ivar)
      && !AnyNonFinite(o.flux) && !AnyNonFinite(o.ivar) && !AnyNegative(o.ivar)
  {
    AcceptedPassedChecks(row);
    var lo, hi := Range(row).value.0, Range(row).value.1;
    OnUnitGrid(Waves(row), Masked(row).flux, lo, hi);
    OnUnitGrid(Waves(row), Masked(row).ivar, lo, hi);
  }

  /** Strict evaluation on the unit grid from `lo` to `hi`: one value per whole
      Ångström, the interpolant there. */
  lemma OnUnitGrid(xs: seq<real>, ys: seq<Val>, lo: int, hi: int)
    requires |xs| == |ys| >= 2 && Increasing(xs) && lo <= hi
    requires Evaluate(xs, ys, UnitGrid(lo, hi), Strict).Some?
    ensures var e := Evaluate(xs, ys, UnitGrid(lo, hi), Strict).value;
      |e| == hi - lo + 1 && SampledFrom(xs, ys, lo, e)
  {
    var g := UnitGrid(lo, hi);
    var e := Evaluate(xs, ys, g, Strict).value;
    UnitGridSpec(lo, hi);
    forall j | 0 <= j < |e| ensures e[j] == NpInterp(xs, ys, (lo + j) as real) {
      EvaluateAt(xs, ys, g, Strict, j);
    }
  }

  /** When no inverse variance of the row is below zero, the row is never skipped
      for a negative interpolated one. */
  lemma NoNegativeIvarRejection(row: Row)
    requires Ordered(row.wavelength) && SameWidth(row)
    requires forall i :: 0 <= i < |row.ivar| ==> !IsNegative(row.ivar[i])
    ensures Resample(row) != Rejected(NegativeIvar)
  {
    if Range(row).Some? && Range(row).value.1 - Range(row).value.0 >= MinSpan {
      var xs, c := Waves(row), Masked(row);
      var lo, hi := Range(row).value.0, Range(row).value.1;
      var grid := UnitGrid(lo, hi);
      GridInside(row);
      ModesAgreeInside(xs, c.flux, grid);
      ModesAgreeInside(xs, c.ivar, grid);
      MaskedFromRow(row);
      var v := Evaluate(xs, c.ivar, grid, Strict).value;
      forall j | 0 <= j < |v| ensures !IsNegative(v[j]) {
        NpInterpNotNegative(xs, c.ivar, grid[j] as real);
      }
    }
  }

  /** The outcome of every row. */
  function Outcomes(rows: seq<Row>): seq<Outcome>
    requires AllOrdered(rows)
  {
    seq(|rows|, i requires 0 <= i < |rows| => Resample(rows[i]))
  }

  /** `min_wl` after the loop: the start of the last row that got as far as
      computing one, whether or not it was kept. */
  function LastMin(rows: seq<Row>): Option<int>
    requires AllOrdered(rows)
  {
    if |rows| == 0 then None
    else
      var n := |rows| - 1;
      match Range(rows[n])
      case Some(r) => Some(r.0)
      case None => LastMin(rows[..n])
  }

  /** The row loop: the counters, the kept spectra and the final `min_wl`. */
  method ResampleRows(rows: seq<Row>) returns (tally: Tally, kept: seq<Spectrum>, lastMin: Option<int>)
    requires AllOrdered(rows)
    ensures tally == TallyOf(Outcomes(rows))
    ensures kept == KeptOf(rows, Outcomes(rows))
    ensures lastMin == LastMin(rows)
  {
    tally := Tally(0, 0, 0, 0, 0);
    kept := [];
    lastMin := None;
    var i := 0;
    while i < |rows|
      invariant 0 <= i <= |rows|
      invariant tally == TallyOf(Outcomes(rows[..i]))
      invariant kept == KeptOf(rows[..i], Outcomes(rows[..i]))
      invariant lastMin == LastMin(rows[..i])
    {
      var row := rows[i];
      var o := Resample(row);
      assert rows[..i + 1][..i] == rows[..i];
      assert Outcomes(rows[..i + 1])[..i] == Outcomes(rows[..i]);
      tally := Count(tally, o);
      if o.Accepted? {
        kept := kept + [Spectrum(row.obsid, row.stype, o.flux, o.ivar)];
      }
      if Range(row).Some? {
        lastMin := Some(Range(row).value.0);
      }
      i := i + 1;
    }
    assert rows[..i] == rows;
  }

  /** An accepted row has a range, so the final `min_wl` exists once any row is kept. */
  lemma {:induction false} LastMinKnown(rows: seq<Row>)
    requires AllOrdered(rows) && |KeptOf(rows, Outcomes(rows))| > 0
    ensures LastMin(rows).Some?
  {
    KeptOfSpec(rows, Outcomes(rows));
    LastMinAt(rows, KeptIndices(Outcomes(rows))[0]);
  }

  lemma {:induction false} LastMinAt(rows: seq<Row>, i: nat)
    requires AllOrdered(rows) && i < |rows| && Resample(rows[i]).Accepted?
    ensures LastMin(rows).Some?
  {
    var n := |rows| - 1;
    if Range(rows[n]).None? {
      AcceptedSpectrum(rows[i]);
      assert i < n && rows[..n][i] == rows[i];
      LastMinAt(rows[..n], i);
    }
  }

  /** The row kept spectrum `k` came from, and what the stage kept of it. */
  function KeptRow(rows: seq<Row>, k: nat): (row: Row)
    requires AllOrdered(rows) && k < |KeptOf(rows, Outcomes(rows))|
    ensures Ordered(row.wavelength) && Resample(row).Accepted? && SameWidth(row) && Range(row).Some?
    ensures KeptOf(rows, Outcomes(rows))[k] == Spectrum(row.obsid, row.stype, Resample(row).flux, Resample(row).ivar)
  {
    KeptOfSpec(rows, Outcomes(rows));
    AcceptedPassedChecks(rows[KeptIndices(Outcomes(rows))[k]]);
    rows[KeptIndices(Outcomes(rows))[k]]
  }

  /** Where kept spectrum `k` starts and ends: one value per whole Ångström of a
      span of at least 1000 Å. */
  function KeptRange(rows: seq<Row>, k: nat): (r: (int, int))
    requires AllOrdered(rows) && k < |KeptOf(rows, Outcomes(rows))|
    ensures r.1 - r.0 >= MinSpan
    ensures |KeptOf(rows, Outcomes(rows))[k].flux| == |KeptOf(rows, Outcomes(rows))[k].ivar| == r.1 - r.0 + 1
  {
    AcceptedSpectrum(KeptRow(rows, k));
    Range(KeptRow(rows, k)).value
  }

  /** Each spectrum has as many inverse variances as fluxes. */
  predicate SameLengths(kept: seq<Spectrum>) {
    forall k :: 0 <= k < |kept| ==> |kept[k].flux| == |kept[k].ivar|
  }

  /** Each spectrum has as many inverse variances as fluxes, every value is
      finite and no inverse variance is below zero. */
  predicate PassedGate(kept: seq<Spectrum>) {
    && SameLengths(kept)
    && forall k :: 0 <= k < |kept| ==>
         !AnyNonFinite(kept[k].flux) && !AnyNonFinite(kept[k].ivar) && !AnyNegative(kept[k].ivar)
  }

  /** Every kept spectrum got through the gate. */
  lemma KeptPassedGate(rows: seq<Row>)
    requires AllOrdered(rows)
    ensures PassedGate(KeptOf(rows, Outcomes(rows)))
  {
    var kept := KeptOf(rows, Outcomes(rows));
    forall k | 0 <= k < |kept|
      ensures |kept[k].flux| == |kept[k].ivar|
      ensures !AnyNonFinite(kept[k].flux) && !AnyNonFinite(kept[k].ivar) && !AnyNegative(kept[k].ivar)
    {
      AcceptedSpectrum(KeptRow(rows, k));
    }
  }

  /** `max(len(arr) for arr in interpolated_flux_list)`: the longest kept flux. */
  function MaxLen(kept: seq<Spectrum>): (m: nat)
    ensures forall k :: 0 <= k < |kept| ==> |kept[k].flux| <= m
    ensures |kept| > 0 ==> exists k :: 0 <= k < |kept| && |kept[k].flux| == m
  {
    if |kept| == 0 then 0
    else
      var rest := MaxLen(kept[1..]);
      assert forall k :: 1 <= k < |kept| ==> kept[k] == kept[1..][k - 1];
      if |kept[0].flux| >= rest then |kept[0].flux|
      else
        assert exists k :: 1 <= k < |kept| && |kept[k].flux| == rest by {
          var k :| 0 <= k < |kept[1..]| && |kept[1..][k].flux| == rest;
          assert kept[k + 1] == kept[1..][k];
        }
        rest
  }

  /** A row of `np.zeros((n, width))` whose first cells are overwritten by `s`. */
  function Pad(s: seq<Val>, width: nat): seq<Val>
    requires |s| <= width
  {
    s + Zeros(width - |s|)
  }

  /** `np.zeros((len(spectra), width))` with row `i` overwritten by `spectra[i]`
      from its first cell. */
  method PadRows(spectra: seq<seq<Val>>, width: nat) returns (m: array2<Val>)
    requires forall i :: 0 <= i < |spectra| ==> |spectra[i]| <= width
    ensures m.Length0 == |spectra| && m.Length1 == width
    ensures fresh(m)
    ensures forall i, j :: 0 <= i < |spectra| && 0 <= j < width ==> m[i, j] == Pad(spectra[i], width)[j]
  {
    m := new Val[|spectra|, width]((i, j) => Num(0.0));
    var i := 0;
    while i < |spectra|
      invariant 0 <= i <= |spectra|
      invariant forall p, j :: 0 <= p < i && 0 <= j < width ==> m[p, j] == Pad(spectra[p], width)[j]
      invariant forall p, j :: i <= p < |spectra| && 0 <= j < width ==> m[p, j] == Num(0.0)
    {
      var j := 0;
      while j < |spectra[i]|
        invariant 0 <= j <= |spectra[i]|
        invariant forall p, q :: 0 <= p < i && 0 <= q < width ==> m[p, q] == Pad(spectra[p], width)[q]
        invariant forall q :: 0 <= q < j ==> m[i, q] == spectra[i][q]
        invariant forall p, q :: i <= p < |spectra| && 0 <= q < width && (p > i || q >= j) ==> m[p, q] == Num(0.0)
      {
        m[i, j] := spectra[i][j];
        j := j + 1;
      }
      i := i + 1;
    }
  }

  /** The rows of a two-dimensional array. */
  function Matrix(m: array2<Val>): seq<seq<Val>>
    reads m
  {
    seq(m.Length0, i requires 0 <= i < m.Length0 reads m =>
      seq(m.Length1, j requires 0 <= j < m.Length1 reads m => m[i, j]))
  }

  /** The table the stage writes: one row per kept spectrum under the column
      labels `flux_<w>.0` and `ivar_<w>.0` for `w` in `labels`. */
  datatype Aligned = Aligned(obsid: seq<int>, stype: seq<string>, labels: seq<int>,
                             flux: seq<seq<Val>>, ivar: seq<seq<Val>>)

  /** How a run of the stage ends. */
  datatype Result =
    | MissingFamily                          // no wavelength, flux or ivar column: logged, nothing written
    | MissingIdColumn                        // no `obsid` or `type` column: an uncaught KeyError
    | NothingInterpolated(tally: Tally)      // no spectrum kept: logged, nothing written
    | NegativeIvarInOutput(tally: Tally)     // the final quality check refuses to save
    | Written(tally: Tally, table: Aligned)

  /** `np.any(ivar_array < 0)`. */
  predicate AnyNegativeCell(m: seq<seq<Val>>) {
    exists k :: 0 <= k < |m| && AnyNegative(m[k])
  }

  /** The table as the stage builds it from kept spectra: flux and ivar padded
      with zeros to the longest, labels counted from `start`. */
  function Padded(kept: seq<Spectrum>, start: int): (a: Aligned)
    requires SameLengths(kept)
    ensures |a.obsid| == |a.stype| == |a.flux| == |a.ivar| == |kept|
  {
    var w := MaxLen(kept);
    Aligned(seq(|kept|, k requires 0 <= k < |kept| => kept[k].obsid),
            seq(|kept|, k requires 0 <= k < |kept| => kept[k].stype),
            Arange(start, start + w, 1),
            seq(|kept|, k requires 0 <= k < |kept| => Pad(kept[k].flux, w)),
            seq(|kept|, k requires 0 <= k < |kept| => Pad(kept[k].ivar, w)))
  }

  /** Every row of the padded table is as wide as the labels, which count up in
      whole Ångströms from `start`, as many as the longest spectrum has values. */
  lemma PaddedShape(kept: seq<Spectrum>, start: int)
    requires SameLengths(kept)
    ensures var a := Padded(kept, start);
      && |a.labels| == MaxLen(kept)
      && (forall j :: 0 <= j < |a.labels| ==> a.labels[j] == start + j)
      && forall k :: 0 <= k < |kept| ==> |a.flux[k]| == |a.ivar[k]| == |a.labels|
  {
    ArangeSpec(start, start + MaxLen(kept), 1);
  }

  /** Row `k` of the padded table: the spectrum's identifier and type, its own
      values from the first column on, zeros after them. */
  lemma PaddedRow(kept: seq<Spectrum>, start: int, k: nat)
    requires SameLengths(kept) && k < |kept|
    ensures var a, n := Padded(kept, start), |kept[k].flux|;
      && a.obsid[k] == kept[k].obsid && a.stype[k] == kept[k].stype
      && n <= |a.flux[k]| == |a.ivar[k]|
      && a.flux[k][..n] == kept[k].flux && a.ivar[k][..n] == kept[k].ivar
      && forall j :: n <= j < |a.flux[k]| ==> a.flux[k][j] == Num(0.0) && a.ivar[k][j] == Num(0.0)
  {
  }

  /** Padding a spectrum that passed the gate keeps every value finite and no
      inverse variance below zero, since the padding is zeros. */
  lemma PaddedClean(kept: seq<Spectrum>, start: int)
    requires PassedGate(kept)
    ensures var a := Padded(kept, start);
      forall k :: 0 <= k < |kept| ==> !AnyNonFinite(a.flux[k]) && !AnyNonFinite(a.ivar[k]) && !AnyNegative(a.ivar[k])
  {
    var a := Padded(kept, start);
    forall k | 0 <= k < |kept|
      ensures !AnyNonFinite(a.flux[k]) && !AnyNonFinite(a.ivar[k]) && !AnyNegative(a.ivar[k])
    {
      PaddedRow(kept, start, k);
      PadClean(kept[k].flux, MaxLen(kept), false);
      PadClean(kept[k].ivar, MaxLen(kept), true);
    }
  }

  /** `s` padded with zeros: finite when `s` is, and not negative when `s` is not. */
  lemma PadClean(s: seq<Val>, width: nat, ivar: bool)
    requires |s| <= width && !AnyNonFinite(s) && (ivar ==> !AnyNegative(s))
    ensures !AnyNonFinite(Pad(s, width)) && (ivar ==> !AnyNegative(Pad(s, width)))
  {
    var p := Pad(s, width);
    forall i | 0 <= i < width ensures IsFinite(p[i]) && (ivar ==> !IsNegative(p[i])) {
      if i >= |s| {
        assert p[i] == Num(0.0);
      } else {
        assert p[i] == s[i];
      }
    }
  }

  /** The table the stage builds from `rows`, labels counted from the final
      `min_wl`. */
  function PaddedTable(rows: seq<Row>): (a: Aligned)
    requires AllOrdered(rows) && |KeptOf(rows, Outcomes(rows))| > 0
    ensures |a.obsid| == |a.stype| == |a.flux| == |a.ivar| == |KeptOf(rows, Outcomes(rows))|
  {
    KeptPassedGate(rows);
    LastMinKnown(rows);
    Padded(KeptOf(rows, Outcomes(rows)), LastMin(rows).value)
  }

  /** What the stage does with a table, start to end. */
  function Interpolate(t: Table): Result
    requires t.WellFormed() && AllOrdered(t.rows)
  {
    if t.nWave == 0 || t.nFlux == 0 || t.nIvar == 0 then MissingFamily
    else if !t.hasObsid || !t.hasType then MissingIdColumn
    else
      var outs := Outcomes(t.rows);
      if |KeptOf(t.rows, outs)| == 0 then NothingInterpolated(TallyOf(outs))
      else
        var a := PaddedTable(t.rows);
        if AnyNegativeCell(a.ivar) then NegativeIvarInOutput(TallyOf(outs))
        else Written(TallyOf(outs), a)
  }

  /** The stage: column checks, the row loop, padding, labels, final check. */
  method InterpolateSpectra(t: Table) returns (r: Result)
    requires t.WellFormed() && AllOrdered(t.rows)
    ensures r == Interpolate(t)
  {
    if t.nWave == 0 || t.nFlux == 0 || t.nIvar == 0 {
      return MissingFamily;
    }
    if !t.hasObsid || !t.hasType {
      return MissingIdColumn;
    }
    var tally, kept, lastMin := ResampleRows(t.rows);
    if |kept| == 0 {
      return NothingInterpolated(tally);
    }
    KeptPassedGate(t.rows);
    LastMinKnown(t.rows);
    var w := MaxLen(kept);
    var fluxes := seq(|kept|, k requires 0 <= k < |kept| => kept[k].flux);
    var ivars := seq(|kept|, k requires 0 <= k < |kept| => kept[k].ivar);
    var fluxArray := PadRows(fluxes, w);
    var ivarArray := PadRows(ivars, w);
    var flux, ivar := Matrix(fluxArray), Matrix(ivarArray);
    var start := lastMin.value;
    var padded := Padded(kept, start);
    forall k | 0 <= k < |kept| ensures flux[k] == padded.flux[k] && ivar[k] == padded.ivar[k] {
      assert fluxes[k] == kept[k].flux && ivars[k] == kept[k].ivar;
    }
    assert ivar == padded.ivar;
    if AnyNegativeCell(ivar) {
      return NegativeIvarInOutput(tally);
    }
    var obsids := seq(|kept|, k requires 0 <= k < |kept| => kept[k].obsid);
    var types := seq(|kept|, k requires 0 <= k < |kept| => kept[k].stype);
    var a := Aligned(obsids, types, Arange(start, start + w, 1), flux, ivar);
    assert a == padded;
    r := Written(tally, a);
  }

  /** The final check on negative inverse variances never refuses to save. */
  lemma FinalCheckPasses(t: Table)
    requires t.WellFormed() && AllOrdered(t.rows)
    ensures !Interpolate(t).NegativeIvarInOutput?
  {
    if t.nWave > 0 && t.nFlux > 0 && t.nIvar > 0 && t.hasObsid && t.hasType
       && |KeptOf(t.rows, Outcomes(t.rows))| > 0 {
      KeptPassedGate(t.rows);
      LastMinKnown(t.rows);
      PaddedClean(KeptOf(t.rows, Outcomes(t.rows)), LastMin(t.rows).value);
    }
  }

  /** A missing family is reported before a missing identifier column; past
      those checks every input row is counted once as kept or skipped, and
      nothing is written exactly when no row was kept. */
  lemma Tallied(t: Table)
    requires t.WellFormed() && AllOrdered(t.rows)
    ensures var r := Interpolate(t);
      && (r.MissingFamily? <==> t.nWave == 0 || t.nFlux == 0 || t.nIvar == 0)
      && (r.MissingIdColumn? <==> !r.MissingFamily? && (!t.hasObsid || !t.hasType))
      && (!r.MissingFamily? && !r.MissingIdColumn? ==> r.tally.accepted + r.tally.skipped == |t.rows|)
      && (r.NothingInterpolated? <==> !r.MissingFamily? && !r.MissingIdColumn? && r.tally.accepted == 0)
  {
    if t.nWave > 0 && t.nFlux > 0 && t.nIvar > 0 && t.hasObsid && t.hasType {
      var outs := Outcomes(t.rows);
      TallyBalances(outs);
      KeptSize(t.rows, outs);
    }
  }

  /** The written table has one row per kept spectrum, every input row being
      counted once as kept or skipped; every row is as wide as the column labels,
      which are more than 1000 consecutive whole Ångströms from the final
      `min_wl`; every cell is finite and no inverse variance is below zero. */
  lemma WrittenTable(t: Table)
    requires t.WellFormed() && AllOrdered(t.rows) && Interpolate(t).Written?
    ensures var r := Interpolate(t); var a := r.table;
      && r.tally.accepted + r.tally.skipped == |t.rows|
      && |a.obsid| == |a.stype| == |a.flux| == |a.ivar| == r.tally.accepted > 0
      && LastMin(t.rows).Some? && |a.labels| > MinSpan
      && (forall j :: 0 <= j < |a.labels| ==> a.labels[j] == LastMin(t.rows).value + j)
      && forall k :: 0 <= k < |a.flux| ==>
           && |a.flux[k]| == |a.ivar[k]| == |a.labels|
           && !AnyNonFinite(a.flux[k]) && !AnyNonFinite(a.ivar[k]) && !AnyNegative(a.ivar[k])
  {
    var outs := Outcomes(t.rows);
    var kept := KeptOf(t.rows, outs);
    TallyBalances(outs);
    KeptCount(t.rows);
    KeptPassedGate(t.rows);
    LastMinKnown(t.rows);
    var start := LastMin(t.rows).value;
    PaddedShape(kept, start);
    PaddedClean(kept, start);
    var r0 := KeptRange(t.rows, 0);
    assert |kept[0].flux| > MinSpan;
  }

  /** One spectrum is kept per accepted row. */
  lemma KeptCount(rows: seq<Row>)
    requires AllOrdered(rows)
    ensures |KeptOf(rows, Outcomes(rows))| == TallyOf(Outcomes(rows)).accepted
  {
    KeptSize(rows, Outcomes(rows));
  }

  /** As written, the labels count from the final `min_wl` while each kept
      spectrum is stored from its own first cell: the first columns of kept
      spectrum `k` hold its row's interpolant at its own start plus `j`
      (`AcceptedSpectrum`), yet column `j` is labelled with the final `min_wl`
      plus `j`. The two agree only for spectra that start at the final `min_wl`. */
  lemma ColumnsFollowLastStart(rows: seq<Row>, k: nat)
    requires AllOrdered(rows) && k < |KeptOf(rows, Outcomes(rows))|
    ensures LastMin(rows).Some?
    ensures var a, row := PaddedTable(rows), KeptRow(rows, k); var n := |Resample(row).flux|;
      && a.obsid[k] == row.obsid
      && n <= |a.labels| == |a.flux[k]|
      && SampledFrom(Waves(row), Masked(row).flux, Range(row).value.0, a.flux[k][..n])
      && forall j :: 0 <= j < |a.labels| ==> a.labels[j] == LastMin(rows).value + j
  {
    LastMinKnown(rows);
    KeptPassedGate(rows);
    var kept := KeptOf(rows, Outcomes(rows));
    var row := KeptRow(rows, k);
    AcceptedSpectrum(row);
    PaddedShape(kept, LastMin(rows).value);
    PaddedRow(kept, LastMin(rows).value, k);
  }

  /** Two kept spectra that start at different whole Ångströms cannot both be
      labelled correctly: for one of them the first column is labelled with a
      wavelength other than the one its value was interpolated at. */
  lemma MislabelledWhenStartsDiffer(rows: seq<Row>, k: nat, l: nat)
    requires AllOrdered(rows) && k < |KeptOf(rows, Outcomes(rows))| && l < |KeptOf(rows, Outcomes(rows))|
    requires KeptRange(rows, k).0 != KeptRange(rows, l).0
    ensures var a := PaddedTable(rows);
      exists m :: (m == k || m == l) && 0 < |a.labels| && 0 < |a.flux[m]|
        && a.labels[0] != KeptRange(rows, m).0
        && InterpolantAt(Waves(KeptRow(rows, m)), Masked(KeptRow(rows, m)).flux, KeptRange(rows, m).0 as real, a.flux[m][0])
  {
    ColumnsFollowLastStart(rows, k);
    ColumnsFollowLastStart(rows, l);
    var m := if KeptRange(rows, k).0 != LastMin(rows).value then k else l;
    var a, row := PaddedTable(rows), KeptRow(rows, m);
    var n, st := |Resample(row).flux|, KeptRange(rows, m).0;
    assert st == Range(row).value.0 && n > 0;
    var s := a.flux[m][..n];
    assert SampledFrom(Waves(row), Masked(row).flux, st, s);
    assert InterpolantAt(Waves(row), Masked(row).flux, (st + 0) as real, s[0]);
    assert a.labels[0] == LastMin(rows).value + 0;
  }

  /** Where each kept spectrum starts and ends, in kept order. */
  function KeptRanges(rows: seq<Row>): (rs: seq<(int, int)>)
    requires AllOrdered(rows)
    ensures |rs| == |KeptOf(rows, Outcomes(rows))|
    ensures forall k :: 0 <= k < |rs| ==> rs[k] == KeptRange(rows, k)
  {
    var n := |KeptOf(rows, Outcomes(rows))|;
    seq(n, k requires 0 <= k < n => KeptRange(rows, k))
  }

  /** The smallest start of some ranges. */
  function MinStart(rs: seq<(int, int)>): (m: int)
    requires |rs| > 0
    ensures forall k :: 0 <= k < |rs| ==> m <= rs[k].0
  {
    if |rs| == 1 then rs[0].0
    else
      var m := MinStart(rs[..|rs| - 1]);
      assert forall k :: 0 <= k < |rs| - 1 ==> rs[..|rs| - 1][k] == rs[k];
      if rs[|rs| - 1].0 < m then rs[|rs| - 1].0 else m
  }

  /** The largest end of some ranges. */
  function MaxEnd(rs: seq<(int, int)>): (m: int)
    requires |rs| > 0
    ensures forall k :: 0 <= k < |rs| ==> rs[k].1 <= m
  {
    if |rs| == 1 then rs[0].1
    else
      var m := MaxEnd(rs[..|rs| - 1]);
      assert forall k :: 0 <= k < |rs| - 1 ==> rs[..|rs| - 1][k] == rs[k];
      if rs[|rs| - 1].1 > m then rs[|rs| - 1].1 else m
  }

  /** `s` written into a row of `width` zeros from cell `offset` on. */
  function Place(s: seq<Val>, offset: nat, width: nat): seq<Val>
    requires offset + |s| <= width
  {
    Zeros(offset) + s + Zeros(width - offset - |s|)
  }

  /** Spectrum `k` has one value per whole Ångström of the range `rs[k]`. */
  predicate Fitted(kept: seq<Spectrum>, rs: seq<(int, int)>) {
    |kept| == |rs| && forall k :: 0 <= k < |kept| ==> |kept[k].flux| == |kept[k].ivar| == rs[k].1 - rs[k].0 + 1
  }

  /** Spectra on one grid from the smallest start to the largest end, each
      written at its own offset, zeros elsewhere. */
  function OnGrid(kept: seq<Spectrum>, rs: seq<(int, int)>): (a: Aligned)
    requires Fitted(kept, rs) && |kept| > 0
    ensures |a.obsid| == |a.stype| == |a.flux| == |a.ivar| == |kept|
  {
    var base, top, n := MinStart(rs), MaxEnd(rs), |kept|;
    Aligned(seq(n, k requires 0 <= k < n => kept[k].obsid),
            seq(n, k requires 0 <= k < n => kept[k].stype),
            UnitGrid(base, top),
            seq(n, k requires 0 <= k < n => Place(kept[k].flux, rs[k].0 - base, top - base + 1)),
            seq(n, k requires 0 <= k < n => Place(kept[k].ivar, rs[k].0 - base, top - base + 1)))
  }

  /** Cell `j` of spectrum `k` on the grid: column `j` is labelled with the
      smallest start plus `j`; the cell holds the spectrum's own value for that
      wavelength inside its range, zero outside. */
  lemma OnGridCell(kept: seq<Spectrum>, rs: seq<(int, int)>, k: nat, j: nat)
    requires Fitted(kept, rs) && k < |kept| && j < |OnGrid(kept, rs).labels|
    ensures var a := OnGrid(kept, rs); var st, en, x := rs[k].0, rs[k].1, a.labels[j];
      && |a.flux[k]| == |a.ivar[k]| == |a.labels|
      && x == MinStart(rs) + j
      && (st <= x <= en ==> a.flux[k][j] == kept[k].flux[x - st] && a.ivar[k][j] == kept[k].ivar[x - st])
      && (!(st <= x <= en) ==> a.flux[k][j] == Num(0.0) && a.ivar[k][j] == Num(0.0))
  {
    var base, top := MinStart(rs), MaxEnd(rs);
    UnitGridSpec(base, top);
    var a := OnGrid(kept, rs);
    var off, width := rs[k].0 - base, top - base + 1;
    assert a.flux[k] == Place(kept[k].flux, off, width);
    assert a.ivar[k] == Place(kept[k].ivar, off, width);
    PlaceAt(kept[k].flux, off, width, j);
    PlaceAt(kept[k].ivar, off, width, j);
  }

  /** Corrected output: the kept spectra on one grid from the smallest start to
      the largest end of their ranges. */
  function CommonGrid(rows: seq<Row>): (a: Aligned)
    requires AllOrdered(rows) && |KeptOf(rows, Outcomes(rows))| > 0
    ensures |a.obsid| == |a.stype| == |a.flux| == |a.ivar| == |KeptOf(rows, Outcomes(rows))|
  {
    KeptFitted(rows);
    OnGrid(KeptOf(rows, Outcomes(rows)), KeptRanges(rows))
  }

  /** Kept spectrum `k` covers its own range, one value per whole Ångström. */
  lemma KeptFitted(rows: seq<Row>)
    requires AllOrdered(rows)
    ensures Fitted(KeptOf(rows, Outcomes(rows)), KeptRanges(rows))
  {
    var kept, rs := KeptOf(rows, Outcomes(rows)), KeptRanges(rows);
    forall k | 0 <= k < |kept| ensures |kept[k].flux| == |kept[k].ivar| == rs[k].1 - rs[k].0 + 1 {
      assert rs[k] == KeptRange(rows, k);
    }
  }

  /** Cell `j` of a placed row. */
  lemma PlaceAt(s: seq<Val>, offset: nat, width: nat, j: nat)
    requires offset + |s| <= width && j < width
    ensures |Place(s, offset, width)| == width
    ensures Place(s, offset, width)[j] == if offset <= j < offset + |s| then s[j - offset] else Num(0.0)
  {
  }

  /** The value of an accepted row at whole Ångström `x` of its range, as
      `AcceptedSpectrum` gives it. */
  lemma AcceptedAt(row: Row, x: int)
    requires Ordered(row.wavelength) && Resample(row).Accepted?
    requires SameWidth(row) && Range(row).Some? && Range(row).value.0 <= x <= Range(row).value.1
    ensures x - Range(row).value.0 < |Resample(row).flux| == |Resample(row).ivar|
    ensures InterpolantAt(Waves(row), Masked(row).flux, x as real, Resample(row).flux[x - Range(row).value.0])
    ensures InterpolantAt(Waves(row), Masked(row).ivar, x as real, Resample(row).ivar[x - Range(row).value.0])
  {
    AcceptedSpectrum(row);
    var p := x - Range(row).value.0;
    assert Range(row).value.0 + p == x;
  }

  /** On the common grid every label names the wavelength its column was
      computed at: column `j` of kept spectrum `k` holds that row's interpolant at
      the label's wavelength when the label lies within the row's own range, and
      zero outside it; the labels are consecutive whole Ångströms. */
  lemma CommonGridLabelsMatch(rows: seq<Row>, k: nat, j: nat)
    requires AllOrdered(rows) && k < |KeptOf(rows, Outcomes(rows))|
    requires j < |CommonGrid(rows).labels|
    ensures var a, row := CommonGrid(rows), KeptRow(rows, k);
      && |a.flux[k]| == |a.ivar[k]| == |a.labels|
      && (j > 0 ==> a.labels[j] == a.labels[j - 1] + 1)
      && var x := a.labels[j];
         if KeptRange(rows, k).0 <= x <= KeptRange(rows, k).1 then
           && InterpolantAt(Waves(row), Masked(row).flux, x as real, a.flux[k][j])
           && InterpolantAt(Waves(row), Masked(row).ivar, x as real, a.ivar[k][j])
         else a.flux[k][j] == Num(0.0) && a.ivar[k][j] == Num(0.0)
  {
    var kept, rs := KeptOf(rows, Outcomes(rows)), KeptRanges(rows);
    KeptFitted(rows);
    var a := OnGrid(kept, rs);
    assert CommonGrid(rows) == a;
    OnGridCell(kept, rs, k, j);
    if j > 0 {
      OnGridCell(kept, rs, k, j - 1);
    }
    var row, x := KeptRow(rows, k), a.labels[j];
    assert rs[k] == KeptRange(rows, k) == Range(row).value;
    if rs[k].0 <= x <= rs[k].1 {
      AcceptedSpectrum(row);
      GridCellSampled(kept, rs, k, j, Waves(row), Masked(row).flux, Masked(row).ivar);
    }
  }

  /** A cell inside spectrum `k`'s range holds the interpolant at its label when
      the spectrum was sampled from `(xs, fs)` and `(xs, vs)` from its start on. */
  lemma GridCellSampled(kept: seq<Spectrum>, rs: seq<(int, int)>, k: nat, j: nat,
                        xs: seq<real>, fs: seq<Val>, vs: seq<Val>)
    requires Fitted(kept, rs) && k < |kept| && j < |OnGrid(kept, rs).labels|
    requires rs[k].0 <= OnGrid(kept, rs).labels[j] <= rs[k].1
    requires SampledFrom(xs, fs, rs[k].0, kept[k].flux) && SampledFrom(xs, vs, rs[k].0, kept[k].ivar)
    ensures var a := OnGrid(kept, rs); var x := a.labels[j];
      && |a.flux[k]| == |a.ivar[k]| == |a.labels|
      && InterpolantAt(xs, fs, x as real, a.flux[k][j]) && InterpolantAt(xs, vs, x as real, a.ivar[k][j])
  {
    OnGridCell(kept, rs, k, j);
    var x := OnGrid(kept, rs).labels[j];
    var p := x - rs[k].0;
    assert rs[k].0 + p == x;
  }
}
