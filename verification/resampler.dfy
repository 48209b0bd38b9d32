/** What the three resampling stages share: the masked spectrum of a row, the
    reasons a spectrum is skipped, the post-interpolation quality gate, and the
    counters each stage keeps while it walks the rows. */
module Resampler {
  import opened Values
  import opened Stats
  import opened Masking
  import opened Interpolation
  import opened Tables

  /** The row's three families have the same number of cells; otherwise the
      element-wise NaN mask cannot be formed and numpy raises. */
  predicate SameWidth(row: Row) {
    |row.wavelength| == |row.flux| == |row.ivar|
  }

  /** The row with every point dropped where wavelength, flux or ivar is NaN. */
  function Masked(row: Row): Clean
    requires SameWidth(row)
  {
    DropNaNPoints(row.wavelength, row.flux, row.ivar)
  }

  /** The masked wavelengths of an ordered row, as increasing reals matching the
      masked flux and ivar point for point. */
  function Waves(row: Row): (xs: seq<real>)
    requires SameWidth(row) && Ordered(row.wavelength)
    ensures |xs| == |Masked(row).wl| == |Masked(row).flux| == |Masked(row).ivar|
    ensures Increasing(xs)
    ensures forall k :: 0 <= k < |xs| ==> Masked(row).wl[k] == Num(xs[k])
  {
    MaskedOrdered(row.wavelength, row.flux, row.ivar);
    DropNaNPointsPresent(row.wavelength, row.flux, row.ivar);
    Reals(Masked(row).wl)
  }

  /** The smallest and largest of increasing samples are the first and last. */
  lemma EndsOfIncreasing(xs: seq<real>)
    requires |xs| > 0 && Increasing(xs)
    ensures MinOf(xs) == xs[0] && MaxOf(xs) == xs[|xs| - 1]
  {
    FirstIsMin(xs);
    LastIsMax(xs);
  }

  lemma FirstIsMin(xs: seq<real>)
    requires |xs| > 0 && Increasing(xs)
    ensures MinOf(xs) == xs[0]
  {
    var i :| 0 <= i < |xs| && xs[i] == MinOf(xs);
    if i > 0 {
      assert xs[0] < xs[i];
    }
  }

  lemma LastIsMax(xs: seq<real>)
    requires |xs| > 0 && Increasing(xs)
    ensures MaxOf(xs) == xs[|xs| - 1]
  {
    var j :| 0 <= j < |xs| && xs[j] == MaxOf(xs);
    if j < |xs| - 1 {
      assert xs[j] < xs[|xs| - 1];
    }
  }

  /** Every masked flux and ivar sample is a sample of the row. */
  lemma MaskedFromRow(row: Row)
    requires SameWidth(row)
    ensures forall k :: 0 <= k < |Masked(row).ivar| ==> Masked(row).ivar[k] in row.ivar
    ensures forall k :: 0 <= k < |Masked(row).flux| ==> Masked(row).flux[k] in row.flux
  {
    DropNaNPointsSpec(row.wavelength, row.flux, row.ivar);
  }

  /** Why a spectrum was skipped. */
  datatype Reason =
    | TooFewPoints     // fewer masked points than the stage needs
    | RangeTooNarrow   // the whole-Ångström span is under 1000 Å
    | RangeIncomplete  // the samples do not cover 3700–9000 Å
    | OutOfBounds      // the strict interpolator raised
    | InvalidInterp    // NaN or infinity among the interpolated values
    | NegativeIvar     // a negative interpolated inverse variance
    | RowError         // any other exception, caught by the row loop

  /** The counter each reason adds to besides `skipped`. */
  predicate RangeReason(r: Reason) {
    r.TooFewPoints? || r.RangeTooNarrow? || r.RangeIncomplete?
  }

  predicate InterpReason(r: Reason) {
    r.OutOfBounds? || r.InvalidInterp?
  }

  /** One row's fate: its resampled flux and ivar, or the reason it was skipped. */
  datatype Outcome = Accepted(flux: seq<Val>, ivar: seq<Val>) | Rejected(reason: Reason)

  /** The post-interpolation checks in the stages' order: NaN or infinity first,
      then, where the stage has it, a negative inverse variance. Negative flux is
      only logged, so it passes. */
  function Gate(f: seq<Val>, v: seq<Val>, checkIvar: bool): (o: Outcome)
    ensures o.Accepted? <==> !AnyNonFinite(f) && !AnyNonFinite(v) && !(checkIvar && AnyNegative(v))
    ensures o.Accepted? ==> o.flux == f && o.ivar == v
    ensures o.Rejected? ==> (o.reason == InvalidInterp <==> AnyNonFinite(f) || AnyNonFinite(v))
    ensures o.Rejected? ==> o.reason == InvalidInterp || (checkIvar && o.reason == NegativeIvar)
  {
    if AnyNonFinite(f) || AnyNonFinite(v) then Rejected(InvalidInterp)
    else if checkIvar && AnyNegative(v) then Rejected(NegativeIvar)
    else Accepted(f, v)
  }

  /** The stage counters: spectra kept, skipped, and skipped for a bad range, a
      failed interpolation or a negative inverse variance. */
  datatype Tally = Tally(accepted: nat, skipped: nat, invalidRange: nat, invalidInterp: nat, negativeIvar: nat)

  function Bump(b: bool): nat {
    if b then 1 else 0
  }

  /** The counters after one more row. */
  function Count(t: Tally, o: Outcome): Tally {
    match o
    case Accepted(_, _) => t.(accepted := t.accepted + 1)
    case Rejected(r) =>
      t.(skipped := t.skipped + 1,
         invalidRange := t.invalidRange + Bump(RangeReason(r)),
         invalidInterp := t.invalidInterp + Bump(InterpReason(r)),
         negativeIvar := t.negativeIvar + Bump(r.NegativeIvar?))
  }

  /** The counters after a run of outcomes, all starting at zero. */
  function TallyOf(outs: seq<Outcome>): Tally {
    if |outs| == 0 then Tally(0, 0, 0, 0, 0)
    else Count(TallyOf(outs[..|outs| - 1]), outs[|outs| - 1])
  }

  /** Counting one more outcome. */
  lemma TallyStep(outs: seq<Outcome>, i: nat)
    requires i < |outs|
    ensures TallyOf(outs[..i + 1]) == Count(TallyOf(outs[..i]), outs[i])
  {
    assert outs[..i + 1][..i] == outs[..i];
  }

  /** The number of rows skipped for an exception caught by the row loop. */
  function Errors(outs: seq<Outcome>): nat {
    if |outs| == 0 then 0
    else Errors(outs[..|outs| - 1]) + Bump(outs[|outs| - 1] == Rejected(RowError))
  }

  /** Every row is counted once as kept or skipped, and every skipped row once
      under exactly one reason, a caught exception having no counter of its own. */
  lemma {:induction false} TallyBalances(outs: seq<Outcome>)
    ensures TallyOf(outs).accepted + TallyOf(outs).skipped == |outs|
    ensures TallyOf(outs).skipped ==
      TallyOf(outs).invalidRange + TallyOf(outs).invalidInterp + TallyOf(outs).negativeIvar + Errors(outs)
  {
    if |outs| > 0 {
      TallyBalances(outs[..|outs| - 1]);
    }
  }

  /** The reason counters count occurrences: the negative-ivar counter the
      negative-ivar rejections, the failed-interpolation counter the out-of-bounds
      and the NaN-or-infinity rejections. */
  lemma {:induction false} TallyCounts(outs: seq<Outcome>)
    ensures TallyOf(outs).negativeIvar == multiset(outs)[Rejected(NegativeIvar)]
    ensures TallyOf(outs).invalidInterp ==
      multiset(outs)[Rejected(OutOfBounds)] + multiset(outs)[Rejected(InvalidInterp)]
  {
    if |outs| > 0 {
      var n := |outs| - 1;
      assert outs == outs[..n] + [outs[n]];
      TallyCounts(outs[..n]);
    }
  }

  /** A resampled spectrum as the stages collect it: identifier, type, and the
      interpolated flux and inverse variance. */
  datatype Spectrum = Spectrum(obsid: int, stype: string, flux: seq<Val>, ivar: seq<Val>)

  /** The spectra kept from `rows`, in row order, given each row's outcome. */
  function KeptOf(rows: seq<Row>, outs: seq<Outcome>): seq<Spectrum>
    requires |rows| == |outs|
  {
    if |rows| == 0 then []
    else
      var n := |rows| - 1;
      var before := KeptOf(rows[..n], outs[..n]);
      match outs[n]
      case Accepted(f, v) => before + [Spectrum(rows[n].obsid, rows[n].stype, f, v)]
      case Rejected(_) => before
  }

  /** The positions of the accepted outcomes, ascending. */
  function KeptIndices(outs: seq<Outcome>): seq<nat> {
    if |outs| == 0 then []
    else
      var n := |outs| - 1;
      KeptIndices(outs[..n]) + (if outs[n].Accepted? then [n] else [])
  }

  /** The spectra kept are exactly the accepted rows, in row order, one per row
      counted as kept, each with its row's identifier and type and its accepted
      values. */
  lemma {:induction false} KeptOfSpec(rows: seq<Row>, outs: seq<Outcome>)
    requires |rows| == |outs|
    ensures var kept, ks := KeptOf(rows, outs), KeptIndices(outs);
      && |kept| == |ks| == TallyOf(outs).accepted
      && (forall k :: 0 <= k < |ks| ==>
            && ks[k] < |rows| && outs[ks[k]].Accepted?
            && kept[k] == Spectrum(rows[ks[k]].obsid, rows[ks[k]].stype, outs[ks[k]].flux, outs[ks[k]].ivar))
      && (forall k, l :: 0 <= k < l < |ks| ==> ks[k] < ks[l])
      && (forall i :: 0 <= i < |outs| && outs[i].Accepted? ==> i in ks)
  {
    KeptIndicesSpec(outs);
    KeptOfAt(rows, outs);
  }

  /** One spectrum is kept per accepted outcome. */
  lemma KeptSize(rows: seq<Row>, outs: seq<Outcome>)
    requires |rows| == |outs|
    ensures |KeptOf(rows, outs)| == TallyOf(outs).accepted
  {
    KeptOfSpec(rows, outs);
  }

  /** The accepted positions: as many as the accepted counter, ascending, and
      every accepted outcome among them. */
  lemma {:induction false} KeptIndicesSpec(outs: seq<Outcome>)
    ensures var ks := KeptIndices(outs);
      && |ks| == TallyOf(outs).accepted
      && (forall k :: 0 <= k < |ks| ==> ks[k] < |outs| && outs[ks[k]].Accepted?)
      && (forall k, l :: 0 <= k < l < |ks| ==> ks[k] < ks[l])
      && (forall i :: 0 <= i < |outs| && outs[i].Accepted? ==> i in ks)
  {
    if |outs| > 0 {
      var n := |outs| - 1;
      KeptIndicesSpec(outs[..n]);
      var ks0, ks := KeptIndices(outs[..n]), KeptIndices(outs);
      forall k | 0 <= k < |ks0| ensures ks[k] < |outs| && outs[ks[k]].Accepted? {
        assert ks[k] == ks0[k];
        assert outs[..n][ks0[k]] == outs[ks0[k]];
      }
      forall i | 0 <= i < |outs| && outs[i].Accepted? ensures i in ks {
        if i < n {
          assert outs[..n][i] == outs[i];
        }
      }
    }
  }

  /** Kept spectrum `k` is built from the row at accepted position `k`. */
  lemma {:induction false} KeptOfAt(rows: seq<Row>, outs: seq<Outcome>)
    requires |rows| == |outs|
    ensures var kept, ks := KeptOf(rows, outs), KeptIndices(outs);
      && |kept| == |ks|
      && forall k :: 0 <= k < |ks| ==>
           (ks[k] < |rows| && outs[ks[k]].Accepted? &&
            kept[k] == Spectrum(rows[ks[k]].obsid, rows[ks[k]].stype, outs[ks[k]].flux, outs[ks[k]].ivar))
  {
    if |rows| > 0 {
      var n := |rows| - 1;
      KeptOfAt(rows[..n], outs[..n]);
      var before, ks0 := KeptOf(rows[..n], outs[..n]), KeptIndices(outs[..n]);
      var kept, ks := KeptOf(rows, outs), KeptIndices(outs);
      assert |before| == |ks0| && forall k :: 0 <= k < |ks0| ==> (ks0[k] < n && outs[..n][ks0[k]].Accepted? &&
        before[k] == Spectrum(rows[..n][ks0[k]].obsid, rows[..n][ks0[k]].stype, outs[..n][ks0[k]].flux, outs[..n][ks0[k]].ivar));
      forall k | 0 <= k < |ks0|
        ensures ks[k] < |rows| && outs[ks[k]].Accepted?
        ensures kept[k] == Spectrum(rows[ks[k]].obsid, rows[ks[k]].stype, outs[ks[k]].flux, outs[ks[k]].ivar)
      {
        assert ks[k] == ks0[k] && kept[k] == before[k];
        assert outs[..n][ks0[k]] == outs[ks0[k]] && rows[..n][ks0[k]] == rows[ks0[k]];
      }
    }
  }

  /** Every row's wavelengths satisfy `Ordered`. */
  predicate AllOrdered(rows: seq<Row>) {
    forall i :: 0 <= i < |rows| ==> Ordered(rows[i].wavelength)
  }
}
