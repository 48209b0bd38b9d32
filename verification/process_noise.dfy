/** The inverse-variance noise mask (src/data/process_noise.py). For every row
    the threshold is the row's NaN-ignoring median inverse variance times a
    ratio; a position is kept when its inverse variance is finite and at least
    the threshold. Every other position has its flux, ivar and wavelength cells
    set to NaN in a copy of the table, and the dropped positions are counted. */
module ProcessNoise {
  import opened Values
  import opened Stats
  import opened Masking
  import opened Tables

  const DefaultRatio: real := 0.2

  /** `np.nanmedian(ivar) * threshold_ratio`. */
  function Threshold(ivar: seq<Val>, ratio: real): Val {
    Scale(NanMedian(ivar), ratio)
  }

  /** `np.isfinite(ivar) & (ivar >= threshold)`. */
  function KeepMask(ivar: seq<Val>, ratio: real): (m: seq<bool>)
    ensures |m| == |ivar|
  {
    var th := Threshold(ivar, ratio);
    seq(|ivar|, i requires 0 <= i < |ivar| => IsFinite(ivar[i]) && Le(th, ivar[i]))
  }

  /** `s` with NaN at every position of the mask that is not kept; positions
      beyond the mask keep their value. */
  function Scrub(s: seq<Val>, m: seq<bool>): (r: seq<Val>)
    ensures |r| == |s|
  {
    seq(|s|, i requires 0 <= i < |s| => if i < |m| && !m[i] then NaN else s[i])
  }

  /** A row as the stage leaves it. */
  function CleanRow(row: Row, ratio: real): Row {
    var m := KeepMask(row.ivar, ratio);
    Row(row.obsid, row.stype, Scrub(row.wavelength, m), Scrub(row.flux, m), Scrub(row.ivar, m))
  }

  /** The copied table with every row cleaned. */
  function Denoise(t: Table, ratio: real): Table {
    t.(rows := seq(|t.rows|, k requires 0 <= k < |t.rows| => CleanRow(t.rows[k], ratio)))
  }

  /** `np.sum(~mask)` for one row. */
  function Dropped(ivar: seq<Val>, ratio: real): nat {
    |ivar| - CountTrue(KeepMask(ivar, ratio))
  }

  /** `removed_points` after the given rows. */
  function RemovedPoints(rows: seq<Row>, ratio: real): nat {
    if |rows| == 0 then 0
    else RemovedPoints(rows[..|rows| - 1], ratio) + Dropped(rows[|rows| - 1].ivar, ratio)
  }

  /** One per-family loop for row `idx`: every not-kept position of the family
      that the mask reaches is set to NaN. */
  method ScrubFamily(t: Table, idx: nat, f: Family, m: seq<bool>) returns (u: Table)
    requires t.WellFormed() && idx < |t.rows|
    ensures u == t.SetFamily(idx, f, Scrub(t.rows[idx].Get(f), m))
  {
    var s := t.rows[idx].Get(f);
    t.SetFamilySame(idx, f);
    assert ScrubTo(s, m, 0) == s;
    u := t;
    var i := 0;
    while i < t.Width(f)
      invariant 0 <= i <= t.Width(f)
      invariant u == t.SetFamily(idx, f, ScrubTo(s, m, i))
    {
      if i < |m| && !m[i] {
        t.SetFamilyTwice(idx, f, ScrubTo(s, m, i), ScrubTo(s, m, i + 1));
        assert Assign(ScrubTo(s, m, i), i, NaN) == ScrubTo(s, m, i + 1);
        u := u.SetCell(idx, f, i, NaN);
      } else {
        assert ScrubTo(s, m, i) == ScrubTo(s, m, i + 1);
      }
      i := i + 1;
    }
    assert ScrubTo(s, m, i) == Scrub(s, m);
  }

  /** `Scrub` applied to the first `n` positions only. */
  function ScrubTo(s: seq<Val>, m: seq<bool>, n: nat): (r: seq<Val>)
    ensures |r| == |s|
  {
    seq(|s|, i requires 0 <= i < |s| => if i < n && i < |m| && !m[i] then NaN else s[i])
  }

  /** The table with its first `n` rows cleaned. */
  function CleanedTo(t: Table, ratio: real, n: nat): (u: Table)
    requires t.WellFormed()
    ensures u.WellFormed() && |u.rows| == |t.rows|
  {
    t.(rows := seq(|t.rows|, k requires 0 <= k < |t.rows| => if k < n then CleanRow(t.rows[k], ratio) else t.rows[k]))
  }

  /** Row `idx` with its three families scrubbed by `m`, the flux family first as
      in the stage. */
  method ScrubRow(t: Table, idx: nat, m: seq<bool>) returns (u: Table)
    requires t.WellFormed() && idx < |t.rows|
    ensures var r := t.rows[idx];
      u == t.(rows := t.rows[idx := Row(r.obsid, r.stype, Scrub(r.wavelength, m), Scrub(r.flux, m), Scrub(r.ivar, m))])
  {
    u := ScrubFamily(t, idx, Flux, m);
    u := ScrubFamily(u, idx, Ivar, m);
    u := ScrubFamily(u, idx, Wavelength, m);
  }

  /** Cleaning row `n` of the table whose first `n` rows are clean. */
  lemma CleanedStep(t: Table, ratio: real, n: nat)
    requires t.WellFormed() && n < |t.rows|
    ensures var u, r := CleanedTo(t, ratio, n), t.rows[n]; var m := KeepMask(r.ivar, ratio);
      && u.rows[n] == r
      && u.(rows := u.rows[n := Row(r.obsid, r.stype, Scrub(r.wavelength, m), Scrub(r.flux, m), Scrub(r.ivar, m))])
         == CleanedTo(t, ratio, n + 1)
      && RemovedPoints(t.rows[..n + 1], ratio) == RemovedPoints(t.rows[..n], ratio) + (|m| - CountTrue(m))
  {
    var u := CleanedTo(t, ratio, n);
    var r := t.rows[n];
    var m := KeepMask(r.ivar, ratio);
    assert u.rows[n := CleanRow(r, ratio)] == CleanedTo(t, ratio, n + 1).rows;
    assert t.rows[..n + 1][..n] == t.rows[..n];
  }

  /** The stage: copy the table, then for each row compute the mask, count the
      dropped positions and write NaN into their cells. */
  method ProcessSpectraNoise(t: Table, ratio: real) returns (out: Table, removed: nat)
    requires t.WellFormed()
    ensures out == Denoise(t, ratio)
    ensures removed == RemovedPoints(t.rows, ratio)
  {
    out := t;
    assert CleanedTo(t, ratio, 0).rows == t.rows;
    removed := 0;
    var idx := 0;
    while idx < |t.rows|
      invariant 0 <= idx <= |t.rows|
      invariant out == CleanedTo(t, ratio, idx)
      invariant removed == RemovedPoints(t.rows[..idx], ratio)
    {
      var row := t.rows[idx];
      var m := KeepMask(row.ivar, ratio);
      CleanedStep(t, ratio, idx);
      removed := removed + (|m| - CountTrue(m));
      out := ScrubRow(out, idx, m);
      idx := idx + 1;
    }
    CleanedAll(t, ratio);
  }

  /** With every row processed, the copy is the denoised table and the counter
      covers every row. */
  lemma CleanedAll(t: Table, ratio: real)
    requires t.WellFormed()
    ensures CleanedTo(t, ratio, |t.rows|) == Denoise(t, ratio)
    ensures RemovedPoints(t.rows[..|t.rows|], ratio) == RemovedPoints(t.rows, ratio)
  {
    assert t.rows[..|t.rows|] == t.rows;
    assert CleanedTo(t, ratio, |t.rows|).rows == Denoise(t, ratio).rows;
  }

  /** Cell by cell: a position is set to NaN in all three families exactly when
      its inverse variance is not finite or below the row's threshold; every
      other cell, including those beyond the ivar family, the identifier and the
      type are as in the input. */
  lemma CleanRowCells(row: Row, ratio: real)
    ensures var out, th := CleanRow(row, ratio), Threshold(row.ivar, ratio);
      && out.obsid == row.obsid && out.stype == row.stype
      && |out.wavelength| == |row.wavelength| && |out.flux| == |row.flux| && |out.ivar| == |row.ivar|
      && forall i :: 0 <= i < |row.ivar| ==>
           if IsFinite(row.ivar[i]) && Le(th, row.ivar[i]) then
             && out.ivar[i] == row.ivar[i]
             && (i < |row.flux| ==> out.flux[i] == row.flux[i])
             && (i < |row.wavelength| ==> out.wavelength[i] == row.wavelength[i])
           else
             && out.ivar[i] == NaN
             && (i < |row.flux| ==> out.flux[i] == NaN)
             && (i < |row.wavelength| ==> out.wavelength[i] == NaN)
    ensures var out := CleanRow(row, ratio);
      && (forall i :: |row.ivar| <= i < |row.flux| ==> out.flux[i] == row.flux[i])
      && (forall i :: |row.ivar| <= i < |row.wavelength| ==> out.wavelength[i] == row.wavelength[i])
  {
  }

  /** The stage changes no flag, width, row count, identifier or type. */
  lemma DenoiseKeepsShape(t: Table, ratio: real)
    requires t.WellFormed()
    ensures var u := Denoise(t, ratio);
      && u.WellFormed() && u.hasObsid == t.hasObsid && u.hasType == t.hasType
      && u.nWave == t.nWave && u.nFlux == t.nFlux && u.nIvar == t.nIvar && |u.rows| == |t.rows|
      && forall k :: 0 <= k < |t.rows| ==> u.rows[k].obsid == t.rows[k].obsid && u.rows[k].stype == t.rows[k].stype
  {
  }

  /** Every inverse variance the stage leaves in place is finite and at least
      its row's threshold. */
  lemma SurvivorsAboveThreshold(row: Row, ratio: real)
    ensures var out, th := CleanRow(row, ratio), Threshold(row.ivar, ratio);
      forall i :: 0 <= i < |out.ivar| && !out.ivar[i].NaN? ==> IsFinite(out.ivar[i]) && Le(th, out.ivar[i])
  {
  }

  /** The number of NaN values. */
  function CountNaN(s: seq<Val>): nat {
    if |s| == 0 then 0 else (if s[0].NaN? then 1 else 0) + CountNaN(s[1..])
  }

  /** A row's dropped positions are exactly its NaN inverse variances after the
      stage. */
  lemma {:induction false} DroppedAreNaN(ivar: seq<Val>, m: seq<bool>)
    requires |m| == |ivar| && forall i :: 0 <= i < |m| && m[i] ==> IsFinite(ivar[i])
    ensures CountNaN(Scrub(ivar, m)) == |m| - CountTrue(m)
  {
    if |m| > 0 {
      assert Scrub(ivar, m)[1..] == Scrub(ivar[1..], m[1..]);
      DroppedAreNaN(ivar[1..], m[1..]);
    }
  }

  /** The NaN inverse variances of the given cleaned rows. */
  function NaNIvars(rows: seq<Row>, ratio: real): nat {
    if |rows| == 0 then 0
    else NaNIvars(rows[..|rows| - 1], ratio) + CountNaN(CleanRow(rows[|rows| - 1], ratio).ivar)
  }

  /** `removed_points` is the number of inverse-variance cells that are NaN in
      the output: every dropped position becomes NaN, and a kept one is finite. */
  lemma {:induction false} RemovedIsNaNCount(rows: seq<Row>, ratio: real)
    ensures RemovedPoints(rows, ratio) == NaNIvars(rows, ratio)
  {
    if |rows| > 0 {
      var row := rows[|rows| - 1];
      RemovedIsNaNCount(rows[..|rows| - 1], ratio);
      DroppedAreNaN(row.ivar, KeepMask(row.ivar, ratio));
    }
  }
}
