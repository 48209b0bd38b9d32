/** The wavelength aligner (src/align_wavelength.py). Every row is cut to the
    shortest of its three families, NaN points are masked out, and a row with at
    least two points is interpolated onto the grid `min, min + step, ...` with NaN
    outside its samples; a row is kept when no interpolated value is NaN. Kept
    rows are written cell by cell into a frame that already holds every input
    row's identifier and type, so skipped rows stay in the output with NaN cells. */
module AlignWavelength {
  import opened Values
  import opened Masking
  import opened Interpolation
  import opened Grids
  import opened Tables
  import opened Resampler

  const DefaultMin: int := 3700
  const DefaultMax: int := 9000
  const DefaultStep: int := 1

  /** The default grid has 5301 points, from 3700 to 9000. */
  lemma DefaultGrid()
    ensures var g := StepGrid(DefaultMin, DefaultMax, DefaultStep);
      |g| == 5301 && g[0] == 3700 && g[5300] == 9000
  {
    StepGridEnds(DefaultMin, DefaultMax, DefaultStep);
    ArangeSpec(DefaultMin, DefaultMax + DefaultStep, DefaultStep);
  }

  /** `min(len(wavelengths), len(fluxes), len(ivars))`. */
  function CommonLength(t: Table): (n: nat)
    ensures n <= t.nWave && n <= t.nFlux && n <= t.nIvar
    ensures n == t.nWave || n == t.nFlux || n == t.nIvar
  {
    if t.nWave <= t.nFlux && t.nWave <= t.nIvar then t.nWave
    else if t.nFlux <= t.nIvar then t.nFlux
    else t.nIvar
  }

  /** The row with every family cut to its first `n` cells. */
  function Truncate(row: Row, n: nat): (r: Row)
    requires n <= |row.wavelength| && n <= |row.flux| && n <= |row.ivar|
    ensures SameWidth(r) && |r.wavelength| == n
    ensures r.obsid == row.obsid && r.stype == row.stype
  {
    Row(row.obsid, row.stype, row.wavelength[..n], row.flux[..n], row.ivar[..n])
  }

  /** The rows as the stage reads them, cut to the common length. */
  function Trimmed(t: Table): (rows: seq<Row>)
    requires t.WellFormed() && AllOrdered(t.rows)
    ensures |rows| == |t.rows|
    ensures forall k :: 0 <= k < |rows| ==>
      && SameWidth(rows[k]) && Ordered(rows[k].wavelength) && |rows[k].wavelength| == CommonLength(t)
      && rows[k].obsid == t.rows[k].obsid && rows[k].stype == t.rows[k].stype
  {
    var n := CommonLength(t);
    seq(|t.rows|, k requires 0 <= k < |t.rows| =>
      OrderedPrefix(t.rows[k].wavelength, n);
      Truncate(t.rows[k], n))
  }

  /** One row: at least two masked points, interpolation with NaN outside the
      samples, no NaN in the result. An infinite result is not checked for. */
  function Align(row: Row, grid: seq<int>): (o: Outcome)
    requires SameWidth(row) && Ordered(row.wavelength)
    ensures o.Accepted? ==> |o.flux| == |o.ivar| == |grid| && !AnyNaN(o.flux) && !AnyNaN(o.ivar)
    ensures o.Rejected? ==> o.reason in {TooFewPoints, InvalidInterp}
  {
    var xs, c := Waves(row), Masked(row);
    if |xs| < 2 then Rejected(TooFewPoints)
    else
      var f := Evaluate(xs, c.flux, grid, FillNaN).value;
      var v := Evaluate(xs, c.ivar, grid, FillNaN).value;
      if AnyNaN(f) || AnyNaN(v) then Rejected(InvalidInterp) else Accepted(f, v)
  }

  /** A kept row had at least two points, every grid point lies within its
      samples, and its values are the interpolant of its masked flux and ivar at
      the grid points, none of them NaN. */
  lemma AlignedValues(row: Row, grid: seq<int>)
    requires SameWidth(row) && Ordered(row.wavelength) && Align(row, grid).Accepted?
    ensures |Waves(row)| >= 2
    ensures var o := Align(row, grid);
      && |o.flux| == |o.ivar| == |grid|
      && forall j :: 0 <= j < |grid| ==>
           && Inside(Waves(row), grid[j] as real)
           && o.flux[j] == NpInterp(Waves(row), Masked(row).flux, grid[j] as real) && !o.flux[j].NaN?
           && o.ivar[j] == NpInterp(Waves(row), Masked(row).ivar, grid[j] as real) && !o.ivar[j].NaN?
  {
    var xs, c := Waves(row), Masked(row);
    var f := Evaluate(xs, c.flux, grid, FillNaN).value;
    forall j | 0 <= j < |grid| ensures Inside(xs, grid[j] as real) {
      assert !f[j].NaN?;
    }
  }

  /** With finite masked samples and at least two of them, a row is kept exactly
      when its samples reach down to the grid's first point and up to its last;
      when the step divides the span, the last point is the configured maximum. */
  lemma AlignedIffCovers(row: Row, minW: int, maxW: int, step: int)
    requires SameWidth(row) && Ordered(row.wavelength) && |Waves(row)| >= 2
    requires step > 0 && minW <= maxW
    requires forall i :: 0 <= i < |Masked(row).flux| ==> IsFinite(Masked(row).flux[i])
    requires forall i :: 0 <= i < |Masked(row).ivar| ==> IsFinite(Masked(row).ivar[i])
    ensures var g, xs := StepGrid(minW, maxW, step), Waves(row);
      && |g| > 0
      && (Align(row, g).Accepted? <==> xs[0] <= minW as real && g[|g| - 1] as real <= xs[|xs| - 1])
      && ((maxW - minW) % step == 0 ==>
            (Align(row, g).Accepted? <==> xs[0] <= minW as real && maxW as real <= xs[|xs| - 1]))
  {
    var g, xs, c := StepGrid(minW, maxW, step), Waves(row), Masked(row);
    StepGridEnds(minW, maxW, step);
    ArangeSpec(minW, maxW + step, step);
    var f := Evaluate(xs, c.flux, g, FillNaN).value;
    var v := Evaluate(xs, c.ivar, g, FillNaN).value;
    if xs[0] <= minW as real && g[|g| - 1] as real <= xs[|xs| - 1] {
      forall j | 0 <= j < |g| ensures !f[j].NaN? && !v[j].NaN? {
        assert g[0] <= g[j] <= g[|g| - 1] by {
          if 0 < j { assert g[0] < g[j]; }
          if j < |g| - 1 { assert g[j] < g[|g| - 1]; }
        }
        NpInterpFiniteInside(xs, c.flux, g[j] as real);
        NpInterpFiniteInside(xs, c.ivar, g[j] as real);
      }
    } else if Align(row, g).Accepted? {
      AlignedValues(row, g);
    }
  }

  /** The outcome of every trimmed row. */
  function Outcomes(rows: seq<Row>, grid: seq<int>): (outs: seq<Outcome>)
    requires forall k :: 0 <= k < |rows| ==> SameWidth(rows[k]) && Ordered(rows[k].wavelength)
    ensures |outs| == |rows|
    ensures forall k :: 0 <= k < |rows| ==> outs[k] == Align(rows[k], grid)
  {
    seq(|rows|, k requires 0 <= k < |rows| => Align(rows[k], grid))
  }

  /** The grid values written to `wavelength_<i>`. */
  function GridVals(grid: seq<int>): (g: seq<Val>)
    ensures |g| == |grid| && forall j :: 0 <= j < |grid| ==> g[j] == Num(grid[j] as real)
  {
    seq(|grid|, j requires 0 <= j < |grid| => Num(grid[j] as real))
  }

  /** Every kept outcome has one value per grid point. */
  predicate Fits(outs: seq<Outcome>, n: nat) {
    forall k :: 0 <= k < |outs| && outs[k].Accepted? ==> |outs[k].flux| == n && |outs[k].ivar| == n
  }

  lemma OutcomesFit(rows: seq<Row>, grid: seq<int>)
    requires forall k :: 0 <= k < |rows| ==> SameWidth(rows[k]) && Ordered(rows[k].wavelength)
    ensures Fits(Outcomes(rows, grid), |grid|)
  {
    forall k | 0 <= k < |rows| && Align(rows[k], grid).Accepted?
      ensures |Align(rows[k], grid).flux| == |grid| && |Align(rows[k], grid).ivar| == |grid|
    {
      AlignedValues(rows[k], grid);
    }
  }

  // ---- the frame, cell by cell ----

  /** `prev` widened to `w` cells by the NaN the frame gives a new column. */
  function Widen(prev: seq<Val>, w: nat): (s: seq<Val>)
    requires |prev| <= w
    ensures |s| == w
  {
    prev + NaNs(w - |prev|)
  }

  /** One family of one row after the first `i` cells of the row being written
      have been set: that row holds `vals` up to `i`, every row is widened to `w`. */
  function Target(prev: seq<Val>, vals: seq<Val>, i: nat, w: nat, mine: bool): (s: seq<Val>)
    requires |prev| <= w && i <= w && i <= |vals|
    ensures |s| == w
  {
    if mine then vals[..i] + Widen(prev, w)[i..] else Widen(prev, w)
  }

  function Max(a: nat, b: nat): nat {
    if a >= b then a else b
  }

  /** Setting cell `i` moves one family one step on: in place when the column
      exists, by a new column otherwise. */
  lemma TargetStep(prev: seq<Val>, vals: seq<Val>, i: nat, mine: bool)
    requires (|prev| == 0 || |prev| == |vals|) && i < |vals|
    ensures var w, w' := Max(|prev|, i), Max(|prev|, i + 1);
      var before, after := Target(prev, vals, i, w, mine), Target(prev, vals, i + 1, w', mine);
      && i <= |before|
      && after == if mine then Assign(before, i, vals[i])
                  else if i < |before| then before else before + [NaN]
  {
    var w, w' := Max(|prev|, i), Max(|prev|, i + 1);
    var before, after := Target(prev, vals, i, w, mine), Target(prev, vals, i + 1, w', mine);
    if i < |prev| {
      if mine {
        assert after == before[i := vals[i]];
      }
    } else {
      assert Widen(prev, w') == Widen(prev, w) + [NaN];
      if mine {
        assert after == before + [vals[i]];
      }
    }
  }

  /** Every family of the frame has the same width, which is zero or the grid's. */
  predicate Uniform(t: Table, n: nat) {
    t.WellFormed() && t.nWave == t.nFlux == t.nIvar && (t.nWave == 0 || t.nWave == n)
  }

  /** The frame while row `idx` is being written: its first `iw` wavelength,
      `jf` flux and `jv` ivar cells are set, and each family is widened to the
      columns that exist by then. */
  function Written(t0: Table, idx: nat, g: seq<Val>, f: seq<Val>, v: seq<Val>, iw: nat, jf: nat, jv: nat): (t: Table)
    requires Uniform(t0, |g|) && |f| == |v| == |g| && iw <= |g| && jf <= |g| && jv <= |g| && idx < |t0.rows|
    ensures t.WellFormed() && |t.rows| == |t0.rows|
    ensures t.nWave == Max(t0.nWave, iw) && t.nFlux == Max(t0.nWave, jf) && t.nIvar == Max(t0.nWave, jv)
  {
    var ww, wf, wv := Max(t0.nWave, iw), Max(t0.nWave, jf), Max(t0.nWave, jv);
    Table(t0.hasObsid, t0.hasType, ww, wf, wv,
          seq(|t0.rows|, k requires 0 <= k < |t0.rows| =>
            var r := t0.rows[k];
            Row(r.obsid, r.stype, Target(r.wavelength, g, iw, ww, k == idx),
                Target(r.flux, f, jf, wf, k == idx), Target(r.ivar, v, jv, wv, k == idx))))
  }

  /** The frame after the first `i` grid points of row `idx` have been written. */
  function Partial(t0: Table, idx: nat, g: seq<Val>, f: seq<Val>, v: seq<Val>, i: nat): (t: Table)
    requires Uniform(t0, |g|) && |f| == |v| == |g| && i <= |g| && idx < |t0.rows|
    ensures t.WellFormed() && |t.rows| == |t0.rows|
  {
    Written(t0, idx, g, f, v, i, i, i)
  }

  lemma PartialStart(t0: Table, idx: nat, g: seq<Val>, f: seq<Val>, v: seq<Val>)
    requires Uniform(t0, |g|) && |f| == |v| == |g| && idx < |t0.rows|
    ensures Partial(t0, idx, g, f, v, 0) == t0
  {
    var t := Partial(t0, idx, g, f, v, 0);
    forall k | 0 <= k < |t0.rows| ensures t.rows[k] == t0.rows[k] {
      var r := t0.rows[k];
      assert Widen(r.wavelength, t0.nWave) == r.wavelength;
      assert Widen(r.flux, t0.nWave) == r.flux;
      assert Widen(r.ivar, t0.nWave) == r.ivar;
    }
  }

  /** Writing `wavelength_<i>` of row `idx`. */
  lemma WaveStep(t0: Table, idx: nat, g: seq<Val>, f: seq<Val>, v: seq<Val>, i: nat)
    requires Uniform(t0, |g|) && |f| == |v| == |g| && i < |g| && idx < |t0.rows|
    ensures var t := Written(t0, idx, g, f, v, i, i, i);
      i <= t.Width(Wavelength) && t.SetCell(idx, Wavelength, i, g[i]) == Written(t0, idx, g, f, v, i + 1, i, i)
  {
    var t := Written(t0, idx, g, f, v, i, i, i);
    var t1, after := t.SetCell(idx, Wavelength, i, g[i]), Written(t0, idx, g, f, v, i + 1, i, i);
    forall k | 0 <= k < |t0.rows| ensures t1.rows[k] == after.rows[k] {
      TargetStep(t0.rows[k].wavelength, g, i, k == idx);
    }
  }

  /** Writing `flux_<i>` of row `idx`. */
  lemma FluxStep(t0: Table, idx: nat, g: seq<Val>, f: seq<Val>, v: seq<Val>, i: nat)
    requires Uniform(t0, |g|) && |f| == |v| == |g| && i < |g| && idx < |t0.rows|
    ensures var t := Written(t0, idx, g, f, v, i + 1, i, i);
      i <= t.Width(Flux) && t.SetCell(idx, Flux, i, f[i]) == Written(t0, idx, g, f, v, i + 1, i + 1, i)
  {
    var t := Written(t0, idx, g, f, v, i + 1, i, i);
    var t1, after := t.SetCell(idx, Flux, i, f[i]), Written(t0, idx, g, f, v, i + 1, i + 1, i);
    forall k | 0 <= k < |t0.rows| ensures t1.rows[k] == after.rows[k] {
      TargetStep(t0.rows[k].flux, f, i, k == idx);
    }
  }

  /** Writing `ivar_<i>` of row `idx`. */
  lemma IvarStep(t0: Table, idx: nat, g: seq<Val>, f: seq<Val>, v: seq<Val>, i: nat)
    requires Uniform(t0, |g|) && |f| == |v| == |g| && i < |g| && idx < |t0.rows|
    ensures var t := Written(t0, idx, g, f, v, i + 1, i + 1, i);
      i <= t.Width(Ivar) && t.SetCell(idx, Ivar, i, v[i]) == Written(t0, idx, g, f, v, i + 1, i + 1, i + 1)
  {
    var t := Written(t0, idx, g, f, v, i + 1, i + 1, i);
    var t1, after := t.SetCell(idx, Ivar, i, v[i]), Written(t0, idx, g, f, v, i + 1, i + 1, i + 1);
    forall k | 0 <= k < |t0.rows| ensures t1.rows[k] == after.rows[k] {
      TargetStep(t0.rows[k].ivar, v, i, k == idx);
    }
  }

  /** `for i, wl in enumerate(new_wavelengths)`: the three `.loc` writes per grid
      point for row `idx`. */
  method WriteRow(t0: Table, idx: nat, g: seq<Val>, f: seq<Val>, v: seq<Val>) returns (t: Table)
    requires Uniform(t0, |g|) && |f| == |v| == |g| && idx < |t0.rows|
    ensures t == Partial(t0, idx, g, f, v, |g|)
  {
    PartialStart(t0, idx, g, f, v);
    t := t0;
    var i := 0;
    while i < |g|
      invariant 0 <= i <= |g|
      invariant t == Partial(t0, idx, g, f, v, i)
    {
      PartialStep(t0, idx, g, f, v, i);
      t := t.SetCell(idx, Wavelength, i, g[i]);
      t := t.SetCell(idx, Flux, i, f[i]);
      t := t.SetCell(idx, Ivar, i, v[i]);
      i := i + 1;
    }
  }

  /** Writing `wavelength_<i>`, `flux_<i>` and `ivar_<i>` of row `idx` moves the
      frame from `i` written points to `i + 1`. */
  lemma PartialStep(t0: Table, idx: nat, g: seq<Val>, f: seq<Val>, v: seq<Val>, i: nat)
    requires Uniform(t0, |g|) && |f| == |v| == |g| && i < |g| && idx < |t0.rows|
    ensures var t := Partial(t0, idx, g, f, v, i);
      && i <= t.Width(Wavelength)
      && i <= t.SetCell(idx, Wavelength, i, g[i]).Width(Flux)
      && i <= t.SetCell(idx, Wavelength, i, g[i]).SetCell(idx, Flux, i, f[i]).Width(Ivar)
      && t.SetCell(idx, Wavelength, i, g[i]).SetCell(idx, Flux, i, f[i]).SetCell(idx, Ivar, i, v[i])
         == Partial(t0, idx, g, f, v, i + 1)
  {
    WaveStep(t0, idx, g, f, v, i);
    FluxStep(t0, idx, g, f, v, i);
    IvarStep(t0, idx, g, f, v, i);
  }

  /** Whether any of the first `i` rows was kept. */
  predicate AnyKept(outs: seq<Outcome>, i: nat) {
    exists k :: 0 <= k < i && k < |outs| && outs[k].Accepted?
  }

  /** The frame after the first `i` rows: identifiers and types of every row; a
      kept row holds the grid and its values; every other cell is NaN; there is
      one column per grid point in each family once a row has been kept. */
  function Frame(rows: seq<Row>, outs: seq<Outcome>, g: seq<Val>, i: nat): (t: Table)
    requires |outs| == |rows| && i <= |rows| && Fits(outs, |g|)
    ensures Uniform(t, |g|) && |t.rows| == |rows|
  {
    var w := if AnyKept(outs, i) then |g| else 0;
    Table(true, true, w, w, w,
          seq(|rows|, k requires 0 <= k < |rows| =>
            if k < i && outs[k].Accepted? then Row(rows[k].obsid, rows[k].stype, g, outs[k].flux, outs[k].ivar)
            else Row(rows[k].obsid, rows[k].stype, NaNs(w), NaNs(w), NaNs(w))))
  }

  /** Writing a kept row moves the frame on by one row. */
  lemma FrameStep(rows: seq<Row>, outs: seq<Outcome>, g: seq<Val>, i: nat)
    requires |outs| == |rows| && i < |rows| && Fits(outs, |g|) && outs[i].Accepted?
    ensures Partial(Frame(rows, outs, g, i), i, g, outs[i].flux, outs[i].ivar, |g|) == Frame(rows, outs, g, i + 1)
  {
    var t0 := Frame(rows, outs, g, i);
    var t := Partial(t0, i, g, outs[i].flux, outs[i].ivar, |g|);
    var after := Frame(rows, outs, g, i + 1);
    var n := |g|;
    assert AnyKept(outs, i + 1);
    forall k | 0 <= k < |rows| ensures t.rows[k] == after.rows[k] {
      var r := t0.rows[k];
      if k != i {
        assert Widen(r.wavelength, n) == after.rows[k].wavelength;
        assert Widen(r.flux, n) == after.rows[k].flux;
        assert Widen(r.ivar, n) == after.rows[k].ivar;
      }
    }
  }

  /** A skipped row leaves the frame as it is. */
  lemma FrameSkip(rows: seq<Row>, outs: seq<Outcome>, g: seq<Val>, i: nat)
    requires |outs| == |rows| && i < |rows| && Fits(outs, |g|) && outs[i].Rejected?
    ensures Frame(rows, outs, g, i) == Frame(rows, outs, g, i + 1)
  {
    assert AnyKept(outs, i + 1) == AnyKept(outs, i);
  }

  /** The frame before any row is written: every row's identifier and type, no
      columns yet. */
  function IdFrame(rows: seq<Row>): (t: Table)
    ensures t.WellFormed() && |t.rows| == |rows| && t.nWave == t.nFlux == t.nIvar == 0
  {
    Table(true, true, 0, 0, 0, seq(|rows|, k requires 0 <= k < |rows| => Row(rows[k].obsid, rows[k].stype, [], [], [])))
  }

  lemma FrameStart(rows: seq<Row>, outs: seq<Outcome>, g: seq<Val>)
    requires |outs| == |rows| && Fits(outs, |g|)
    ensures Frame(rows, outs, g, 0) == IdFrame(rows)
  {
    assert !AnyKept(outs, 0);
    assert Frame(rows, outs, g, 0).rows == IdFrame(rows).rows;
  }

  /** How a run of the stage ends. */
  datatype Result =
    | MissingIdColumn                     // no `obsid` or `type` column: an uncaught KeyError
    | Done(tally: Tally, frame: Table)    // the frame is written; `tally` holds valid and removed

  /** What the stage does with a table, start to end. */
  function AlignTable(t: Table, minW: int, maxW: int, step: int): (r: Result)
    requires t.WellFormed() && AllOrdered(t.rows) && step > 0
    ensures r.Done? <==> t.hasObsid && t.hasType
    ensures r.Done? ==> r.tally.accepted + r.tally.skipped == |t.rows| == |r.frame.rows|
  {
    if !t.hasObsid || !t.hasType then MissingIdColumn
    else
      var grid := StepGrid(minW, maxW, step);
      var rows := Trimmed(t);
      var outs := Outcomes(rows, grid);
      OutcomesFit(rows, grid);
      TallyBalances(outs);
      Done(TallyOf(outs), Frame(rows, outs, GridVals(grid), |rows|))
  }

  /** The stage: grid, frame of identifiers, the row loop with its cell writes. */
  method AlignWavelengths(t: Table, minW: int, maxW: int, step: int) returns (r: Result)
    requires t.WellFormed() && AllOrdered(t.rows) && step > 0
    ensures r == AlignTable(t, minW, maxW, step)
  {
    if !t.hasObsid || !t.hasType {
      return MissingIdColumn;
    }
    var grid := StepGrid(minW, maxW, step);
    var tally, frame := AlignRows(Trimmed(t), grid);
    r := Done(tally, frame);
  }

  /** The row loop: the counters and the frame after every row. */
  method AlignRows(rows: seq<Row>, grid: seq<int>) returns (tally: Tally, frame: Table)
    requires forall k :: 0 <= k < |rows| ==> SameWidth(rows[k]) && Ordered(rows[k].wavelength)
    ensures tally == TallyOf(Outcomes(rows, grid))
    ensures Fits(Outcomes(rows, grid), |grid|) && frame == Frame(rows, Outcomes(rows, grid), GridVals(grid), |rows|)
  {
    var g := GridVals(grid);
    ghost var outs := Outcomes(rows, grid);
    OutcomesFit(rows, grid);
    frame := IdFrame(rows);
    FrameStart(rows, outs, g);
    tally := Tally(0, 0, 0, 0, 0);
    var idx := 0;
    while idx < |rows|
      invariant 0 <= idx <= |rows|
      invariant tally == TallyOf(outs[..idx])
      invariant frame == Frame(rows, outs, g, idx)
    {
      var o := Align(rows[idx], grid);
      TallyStep(outs, idx);
      if o.Accepted? {
        frame := WriteRow(frame, idx, g, o.flux, o.ivar);
        FrameStep(rows, outs, g, idx);
      } else {
        FrameSkip(rows, outs, g, idx);
      }
      tally := Count(tally, o);
      idx := idx + 1;
    }
    assert outs[..idx] == outs;
  }

  /** The written frame keeps every input row, in order, with its identifier
      and type: a kept row holds the grid, its interpolated flux and ivar, and no
      NaN; a skipped row holds only NaN; every row is counted once as valid or
      removed. */
  lemma AlignedFrame(t: Table, minW: int, maxW: int, step: int, k: nat)
    requires t.WellFormed() && AllOrdered(t.rows) && step > 0 && t.hasObsid && t.hasType
    requires k < |t.rows|
    ensures var r := AlignTable(t, minW, maxW, step); var grid := StepGrid(minW, maxW, step);
      var row, out := Trimmed(t)[k], r.frame.rows[k];
      && r.Done?
      && r.tally.accepted + r.tally.skipped == |t.rows|
      && |r.frame.rows| == |t.rows| && r.frame.hasObsid && r.frame.hasType
      && out.obsid == t.rows[k].obsid && out.stype == t.rows[k].stype
      && (Align(row, grid).Accepted? ==>
            && r.frame.nWave == r.frame.nFlux == r.frame.nIvar == |grid|
            && out.wavelength == GridVals(grid)
            && |Waves(row)| >= 2 && |out.flux| == |out.ivar| == |grid|
            && forall j :: 0 <= j < |grid| ==>
                 && out.flux[j] == NpInterp(Waves(row), Masked(row).flux, grid[j] as real) && !out.flux[j].NaN?
                 && out.ivar[j] == NpInterp(Waves(row), Masked(row).ivar, grid[j] as real) && !out.ivar[j].NaN?)
      && (Align(row, grid).Rejected? ==>
            forall j :: 0 <= j < r.frame.nWave ==> out.wavelength[j] == out.flux[j] == out.ivar[j] == NaN)
  {
    var grid := StepGrid(minW, maxW, step);
    var rows := Trimmed(t);
    TallyBalances(Outcomes(rows, grid));
    if Align(rows[k], grid).Accepted? {
      AlignedValues(rows[k], grid);
    }
  }

  /** The star types of a table's rows, in order. */
  function Types(rows: seq<Row>): (s: seq<string>)
    ensures |s| == |rows| && forall k :: 0 <= k < |rows| ==> s[k] == rows[k].stype
  {
    seq(|rows|, k requires 0 <= k < |rows| => rows[k].stype)
  }

  /** `valid_spectra / total_spectra * 100`; `None` is the ZeroDivisionError an
      empty table raises after the frame has been written. */
  function Retention(valid: nat, total: nat): Option<real> {
    if total == 0 then None else Some(valid as real / total as real * 100.0)
  }

  /** The per-type retention: rows of the type in the frame over rows of the type
      in the input, times 100, a numpy count divided by zero giving NaN. */
  function TypeRetention(frame: Table, input: Table, s: string): Val {
    var out, inp := multiset(Types(frame.rows))[s], multiset(Types(input.rows))[s];
    if inp == 0 then NaN else Num(out as real / inp as real * 100.0)
  }

  /** The frame keeps the types of the rows it was built from. */
  lemma FrameTypes(rows: seq<Row>, outs: seq<Outcome>, g: seq<Val>, i: nat)
    requires |outs| == |rows| && i <= |rows| && Fits(outs, |g|)
    ensures Types(Frame(rows, outs, g, i).rows) == Types(rows)
  {
  }

  /** The frame holds the input's types row for row, so the per-type retention is
      100% for every type present, whatever was removed, and NaN for a type
      absent from the input; the overall retention exists exactly when the input
      has a row. */
  lemma RetentionAlwaysFull(t: Table, minW: int, maxW: int, step: int, s: string)
    requires t.WellFormed() && AllOrdered(t.rows) && step > 0 && t.hasObsid && t.hasType
    ensures var r := AlignTable(t, minW, maxW, step);
      && r.Done?
      && Types(r.frame.rows) == Types(t.rows)
      && (s in Types(t.rows) ==> TypeRetention(r.frame, t, s) == Num(100.0))
      && (s !in Types(t.rows) ==> TypeRetention(r.frame, t, s) == NaN)
      && (Retention(r.tally.accepted, |t.rows|).Some? <==> |t.rows| > 0)
  {
    var grid := StepGrid(minW, maxW, step);
    var rows := Trimmed(t);
    var outs := Outcomes(rows, grid);
    OutcomesFit(rows, grid);
    FrameTypes(rows, outs, GridVals(grid), |rows|);
    assert Types(rows) == Types(t.rows);
    var frame := AlignTable(t, minW, maxW, step).frame;
    assert frame == Frame(rows, outs, GridVals(grid), |rows|);
    var n := multiset(Types(t.rows))[s];
    if n > 0 {
      WholeShare(n as real);
    }
  }

  lemma WholeShare(x: real)
    requires x > 0.0
    ensures x / x * 100.0 == 100.0
  {
    var q := x / x;
    assert q * x == x;
    assert (q - 1.0) * x == 0.0;
  }

  /** The number of rows of type `s`. */
  function OfType(rows: seq<Row>, s: string): nat {
    if |rows| == 0 then 0
    else OfType(rows[..|rows| - 1], s) + Bump(rows[|rows| - 1].stype == s)
  }

  /** The number of rows of type `s` whose outcome is kept. */
  function KeptOfType(rows: seq<Row>, outs: seq<Outcome>, s: string): (n: nat)
    requires |outs| == |rows|
    ensures n <= OfType(rows, s)
  {
    if |rows| == 0 then 0
    else
      var m := |rows| - 1;
      KeptOfType(rows[..m], outs[..m], s) + Bump(rows[m].stype == s && outs[m].Accepted?)
  }

  /** Corrected per-type retention: kept rows of the type over rows of the type
      in the input, times 100; NaN for a type absent from the input. */
  function KeptTypeRetention(rows: seq<Row>, outs: seq<Outcome>, s: string): Val
    requires |outs| == |rows|
  {
    var total := OfType(rows, s);
    if total == 0 then NaN else Num(KeptOfType(rows, outs, s) as real / total as real * 100.0)
  }

  /** The type occurs exactly when its count is positive. */
  lemma {:induction false} OfTypePositive(rows: seq<Row>, s: string)
    ensures OfType(rows, s) > 0 <==> exists k :: 0 <= k < |rows| && rows[k].stype == s
  {
    if |rows| > 0 {
      var m := |rows| - 1;
      OfTypePositive(rows[..m], s);
      if exists k :: 0 <= k < m && rows[..m][k].stype == s {
        var k :| 0 <= k < m && rows[..m][k].stype == s;
        assert rows[k].stype == s;
      }
      if exists k :: 0 <= k < |rows| && rows[k].stype == s {
        var k :| 0 <= k < |rows| && rows[k].stype == s;
        if k < m {
          assert rows[..m][k].stype == s;
        }
      }
    }
  }

  /** Every row of type `s` is kept exactly when the kept count of the type is
      the type's row count. */
  lemma {:induction false} AllKeptOfType(rows: seq<Row>, outs: seq<Outcome>, s: string)
    requires |outs| == |rows|
    ensures KeptOfType(rows, outs, s) == OfType(rows, s) <==>
      forall k :: 0 <= k < |rows| && rows[k].stype == s ==> outs[k].Accepted?
  {
    if |rows| > 0 {
      var m := |rows| - 1;
      AllKeptOfType(rows[..m], outs[..m], s);
      if forall k :: 0 <= k < |rows| && rows[k].stype == s ==> outs[k].Accepted? {
        forall k | 0 <= k < m && rows[..m][k].stype == s ensures outs[..m][k].Accepted? {
          assert rows[..m][k] == rows[k] && outs[..m][k] == outs[k];
        }
      } else {
        var k :| 0 <= k < |rows| && rows[k].stype == s && !outs[k].Accepted?;
        if k < m {
          assert rows[..m][k] == rows[k] && outs[..m][k] == outs[k];
        }
      }
    }
  }

  /** The corrected retention exists exactly for a type present in the input;
      it then lies between 0 and 100, and is 100 exactly when every row of the
      type is kept. */
  lemma KeptRetentionSpec(rows: seq<Row>, outs: seq<Outcome>, s: string)
    requires |outs| == |rows|
    ensures KeptTypeRetention(rows, outs, s).Num? <==> exists k :: 0 <= k < |rows| && rows[k].stype == s
    ensures KeptTypeRetention(rows, outs, s).Num? ==>
      var r := KeptTypeRetention(rows, outs, s).r;
      && 0.0 <= r <= 100.0
      && (r == 100.0 <==> forall k :: 0 <= k < |rows| && rows[k].stype == s ==> outs[k].Accepted?)
  {
    OfTypePositive(rows, s);
    var total := OfType(rows, s);
    if total > 0 {
      AllKeptOfType(rows, outs, s);
      Share(KeptOfType(rows, outs, s) as real, total as real);
    }
  }

  /** `n / d * 100` lies in [0, 100] for `0 <= n <= d`, and is 100 exactly when
      `n == d`. */
  lemma Share(n: real, d: real)
    requires 0.0 <= n <= d && d > 0.0
    ensures 0.0 <= n / d * 100.0 <= 100.0
    ensures n / d * 100.0 == 100.0 <==> n == d
  {
    var q := n / d;
    assert q * d == n;
    assert (1.0 - q) * d == d - n;
    if n == d {
      assert (q - 1.0) * d == 0.0;
    }
  }

  /** As written the per-type retention ignores removals: when some row of a type
      is removed, the logged retention of that type is still 100% while the share
      of its rows actually kept is below 100%. */
  lemma RetentionIgnoresRemovals(t: Table, minW: int, maxW: int, step: int, k: nat)
    requires t.WellFormed() && AllOrdered(t.rows) && step > 0 && t.hasObsid && t.hasType
    requires k < |t.rows| && Align(Trimmed(t)[k], StepGrid(minW, maxW, step)).Rejected?
    ensures var r, s := AlignTable(t, minW, maxW, step), t.rows[k].stype;
      var kept := KeptTypeRetention(Trimmed(t), Outcomes(Trimmed(t), StepGrid(minW, maxW, step)), s);
      && r.Done? && TypeRetention(r.frame, t, s) == Num(100.0)
      && kept.Num? && kept.r < 100.0
  {
    var s := t.rows[k].stype;
    var rows := Trimmed(t);
    var outs := Outcomes(rows, StepGrid(minW, maxW, step));
    RetentionAlwaysFull(t, minW, maxW, step, s);
    assert Types(t.rows)[k] == s;
    assert rows[k].stype == s;
    KeptRetentionSpec(rows, outs, s);
  }
}
