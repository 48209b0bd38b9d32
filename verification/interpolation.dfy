/** Piecewise-linear interpolation as scipy's `interp1d(kind='linear')` computes
    it on float64 data. With `fill_value='extrapolate'` scipy evaluates its own
    formula (`Linear`): the segment of a point is `searchsorted` clipped to
    [1, n-1], and the value is `slope * (x - x_lo) + y_lo` with
    `slope = (y_hi - y_lo) / (x_hi - x_lo)`. In the other two modes it hands the
    points to `np.interp` (`NpInterp`), which returns a sample's own value at an
    exact sample point and, where the formula gives NaN, retries it from the
    other end of the segment. Both agree on finite samples. The three
    `bounds_error`/`fill_value` settings used by the pipeline are the three
    `Bounds` modes. */
module Interpolation {
  import opened Values

  predicate Increasing(xs: seq<real>) {
    forall i, j :: 0 <= i < j < |xs| ==> xs[i] < xs[j]
  }

  /** `np.searchsorted(xs, x)`: the first position whose sample is not below `x`. */
  function SearchSorted(xs: seq<real>, x: real): (k: nat)
    requires Increasing(xs)
    ensures k <= |xs|
    ensures forall i :: 0 <= i < k ==> xs[i] < x
    ensures forall i :: k <= i < |xs| ==> x <= xs[i]
  {
    if |xs| == 0 || x <= xs[0] then 0 else 1 + SearchSorted(xs[1..], x)
  }

  /** At a sample, `searchsorted` returns that sample's own position. */
  lemma {:induction false} SearchSortedAtSample(xs: seq<real>, k: nat)
    requires Increasing(xs) && k < |xs|
    ensures SearchSorted(xs, xs[k]) == k
  {
    if k > 0 {
      assert xs[1..][k - 1] == xs[k];
      SearchSortedAtSample(xs[1..], k - 1);
    }
  }

  /** The left end of the segment used for `x`. */
  function Segment(xs: seq<real>, x: real): (lo: nat)
    requires |xs| >= 2 && Increasing(xs)
    ensures lo + 1 < |xs|
  {
    var k := SearchSorted(xs, x);
    if k < 1 then 0 else if k > |xs| - 1 then |xs| - 2 else k - 1
  }

  /** scipy's formula on one segment. */
  function Lerp(x0: real, y0: Val, x1: real, y1: Val, x: real): Val
    requires x0 < x1
  {
    Add(Scale(Scale(Sub(y1, y0), 1.0 / (x1 - x0)), x - x0), y0)
  }

  /** The interpolant through the samples `(xs[i], ys[i])`, evaluated at `x`
      (outside the samples this is the linear extension of the end segment). */
  function Linear(xs: seq<real>, ys: seq<Val>, x: real): Val
    requires |xs| == |ys| >= 2 && Increasing(xs)
  {
    var lo := Segment(xs, x);
    Lerp(xs[lo], ys[lo], xs[lo + 1], ys[lo + 1], x)
  }

  predicate Inside(xs: seq<real>, x: real)
    requires |xs| > 0
  {
    xs[0] <= x <= xs[|xs| - 1]
  }

  /** `np.interp` strictly inside one segment: the formula from the left end;
      when that is NaN, the formula from the right end; when that is NaN too and
      both ends hold the same value, that value. */
  function Retry(x0: real, y0: Val, x1: real, y1: Val, x: real): Val
    requires x0 < x1
  {
    var v := Lerp(x0, y0, x1, y1, x);
    if !v.NaN? then v
    else
      var w := Add(Scale(Scale(Sub(y1, y0), 1.0 / (x1 - x0)), x - x1), y1);
      if w.NaN? && y0 == y1 && !y0.NaN? then y0 else w
  }

  /** `np.interp(x, xs, ys)`: the first or last sample's value outside the
      samples, a sample's own value at a sample point, and `Retry` on the
      segment that holds `x` otherwise. */
  function NpInterp(xs: seq<real>, ys: seq<Val>, x: real): Val
    requires |xs| == |ys| >= 2 && Increasing(xs)
  {
    if x < xs[0] then ys[0]
    else if x > xs[|xs| - 1] then ys[|ys| - 1]
    else
      var lo := Segment(xs, x);
      if x == xs[lo] then ys[lo]
      else if x == xs[lo + 1] then ys[lo + 1]
      else Retry(xs[lo], ys[lo], xs[lo + 1], ys[lo + 1], x)
  }

  /** `bounds_error=True` (raises on a point outside the samples), `fill_value=np.nan`,
      and `fill_value='extrapolate'`. */
  datatype Bounds = Strict | FillNaN | Extrapolate

  /** The interpolator evaluated at every grid point; `None` is the ValueError of
      the strict mode. The extrapolating mode uses scipy's formula everywhere;
      the other two use `np.interp` inside the samples. */
  function Evaluate(xs: seq<real>, ys: seq<Val>, grid: seq<int>, b: Bounds): (r: Option<seq<Val>>)
    requires |xs| == |ys| >= 2 && Increasing(xs)
    ensures r.Some? <==> !b.Strict? || forall i :: 0 <= i < |grid| ==> Inside(xs, grid[i] as real)
    ensures r.Some? ==> |r.value| == |grid|
  {
    if b.Strict? && exists i :: 0 <= i < |grid| && !Inside(xs, grid[i] as real) then None
    else Some(seq(|grid|, i requires 0 <= i < |grid| =>
                if b.Extrapolate? then Linear(xs, ys, grid[i] as real)
                else if !Inside(xs, grid[i] as real) then NaN
                else NpInterp(xs, ys, grid[i] as real)))
  }

  /** The value at a grid point: the strict mode succeeds only when the point
      lies within the samples and then gives `np.interp`'s value; the
      extrapolating mode gives scipy's formula at every point. */
  lemma EvaluateAt(xs: seq<real>, ys: seq<Val>, grid: seq<int>, b: Bounds, i: nat)
    requires |xs| == |ys| >= 2 && Increasing(xs) && i < |grid|
    requires Evaluate(xs, ys, grid, b).Some? && !b.FillNaN?
    ensures |Evaluate(xs, ys, grid, b).value| == |grid|
    ensures b.Strict? ==>
      Inside(xs, grid[i] as real) && Evaluate(xs, ys, grid, b).value[i] == NpInterp(xs, ys, grid[i] as real)
    ensures b.Extrapolate? ==> Evaluate(xs, ys, grid, b).value[i] == Linear(xs, ys, grid[i] as real)
  {
  }

  /** Inside the samples, the segment chosen for `x` brackets `x`. */
  lemma SegmentBrackets(xs: seq<real>, x: real)
    requires |xs| >= 2 && Increasing(xs) && Inside(xs, x)
    ensures xs[Segment(xs, x)] <= x <= xs[Segment(xs, x) + 1]
  {
  }

  /** One segment reproduces its end points and stays between them. */
  lemma LerpBetween(x0: real, y0: real, x1: real, y1: real, x: real)
    requires x0 < x1 && x0 <= x <= x1
    ensures Lerp(x0, Num(y0), x1, Num(y1), x).Num?
    ensures var v := Lerp(x0, Num(y0), x1, Num(y1), x).r;
      (y0 <= v <= y1 || y1 <= v <= y0) && (x == x0 ==> v == y0) && (x == x1 ==> v == y1)
  {
    var d := x1 - x0;
    var t := (x - x0) * (1.0 / d);
    assert d * (1.0 / d) == 1.0;
    assert 0.0 <= t <= 1.0 by {
      assert (x - x0) <= d;
      assert (x - x0) * (1.0 / d) <= d * (1.0 / d);
    }
    var v := Lerp(x0, Num(y0), x1, Num(y1), x).r;
    assert v == (y1 - y0) * (1.0 / d) * (x - x0) + y0;
    assert v == y0 + (y1 - y0) * t;
    if y0 <= y1 {
      assert (y1 - y0) * t <= (y1 - y0) * 1.0;
    } else {
      assert (y0 - y1) * t <= (y0 - y1) * 1.0;
    }
  }

  /** A finite result needs finite samples at both ends of its segment. */
  lemma LerpFinite(x0: real, y0: Val, x1: real, y1: Val, x: real)
    requires x0 < x1 && IsFinite(Lerp(x0, y0, x1, y1, x))
    ensures IsFinite(y0) && IsFinite(y1)
  {
    var slope := Scale(Sub(y1, y0), 1.0 / (x1 - x0));
    AddFinite(Scale(slope, x - x0), y0);
    ScaleFinite(slope, x - x0);
    ScaleFinite(Sub(y1, y0), 1.0 / (x1 - x0));
    AddFinite(y1, Neg(y0));
  }

  /** Inside the samples, a finite interpolated value lies between the two samples
      that bracket it. */
  lemma LinearBetween(xs: seq<real>, ys: seq<Val>, x: real)
    requires |xs| == |ys| >= 2 && Increasing(xs) && Inside(xs, x)
    requires IsFinite(Linear(xs, ys, x))
    ensures var lo := Segment(xs, x); var v := Linear(xs, ys, x).r;
      && xs[lo] <= x <= xs[lo + 1] && ys[lo].Num? && ys[lo + 1].Num?
      && (ys[lo].r <= v <= ys[lo + 1].r || ys[lo + 1].r <= v <= ys[lo].r)
  {
    var lo := Segment(xs, x);
    SegmentBrackets(xs, x);
    LerpFinite(xs[lo], ys[lo], xs[lo + 1], ys[lo + 1], x);
    LerpBetween(xs[lo], ys[lo].r, xs[lo + 1], ys[lo + 1].r, x);
  }

  /** Inside the samples, finite samples give a finite value. */
  lemma LinearFiniteInside(xs: seq<real>, ys: seq<Val>, x: real)
    requires |xs| == |ys| >= 2 && Increasing(xs) && Inside(xs, x)
    requires forall i :: 0 <= i < |ys| ==> IsFinite(ys[i])
    ensures IsFinite(Linear(xs, ys, x))
  {
    var lo := Segment(xs, x);
    SegmentBrackets(xs, x);
    LerpBetween(xs[lo], ys[lo].r, xs[lo + 1], ys[lo + 1].r, x);
  }

  /** Inside the samples, no sample below zero means no value below zero; an
      infinite sample can only turn the value into an infinity of its own sign or NaN. */
  lemma LinearNotNegative(xs: seq<real>, ys: seq<Val>, x: real)
    requires |xs| == |ys| >= 2 && Increasing(xs) && Inside(xs, x)
    requires forall i :: 0 <= i < |ys| ==> !IsNegative(ys[i])
    ensures !IsNegative(Linear(xs, ys, x))
  {
    var lo := Segment(xs, x);
    SegmentBrackets(xs, x);
    LerpNotNegative(xs[lo], ys[lo], xs[lo + 1], ys[lo + 1], x);
  }

  /** On one segment, ends that are not below zero give a value not below zero. */
  lemma LerpNotNegative(x0: real, y0: Val, x1: real, y1: Val, x: real)
    requires x0 < x1 && x0 <= x <= x1 && !IsNegative(y0) && !IsNegative(y1)
    ensures !IsNegative(Lerp(x0, y0, x1, y1, x))
  {
    if IsFinite(Lerp(x0, y0, x1, y1, x)) {
      LerpFinite(x0, y0, x1, y1, x);
      LerpBetween(x0, y0.r, x1, y1.r, x);
    } else {
      assert x - x0 >= 0.0;
    }
  }

  /** `np.interp`'s retry keeps ends that are not below zero from giving a
      value below zero. */
  lemma RetryNotNegative(x0: real, y0: Val, x1: real, y1: Val, x: real)
    requires x0 < x < x1 && !IsNegative(y0) && !IsNegative(y1)
    ensures !IsNegative(Retry(x0, y0, x1, y1, x))
  {
    LerpNotNegative(x0, y0, x1, y1, x);
    assert x - x1 < 0.0;
  }

  /** `np.interp` returns a sample's own value at every sample point, whatever
      the neighbouring samples hold. */
  lemma NpInterpAtSample(xs: seq<real>, ys: seq<Val>, k: nat)
    requires |xs| == |ys| >= 2 && Increasing(xs) && k < |xs|
    ensures NpInterp(xs, ys, xs[k]) == ys[k]
  {
    SearchSortedAtSample(xs, k);
    if 0 < k {
      assert xs[k - 1] < xs[k];
    }
  }

  /** Inside finite samples, `np.interp` and scipy's formula give the same value. */
  lemma NpInterpMatchesLinear(xs: seq<real>, ys: seq<Val>, x: real)
    requires |xs| == |ys| >= 2 && Increasing(xs) && Inside(xs, x)
    requires forall i :: 0 <= i < |ys| ==> IsFinite(ys[i])
    ensures NpInterp(xs, ys, x) == Linear(xs, ys, x)
  {
    var lo := Segment(xs, x);
    SegmentBrackets(xs, x);
    LerpBetween(xs[lo], ys[lo].r, xs[lo + 1], ys[lo + 1].r, x);
  }

  /** Inside finite samples, `np.interp` gives a finite value. */
  lemma NpInterpFiniteInside(xs: seq<real>, ys: seq<Val>, x: real)
    requires |xs| == |ys| >= 2 && Increasing(xs) && Inside(xs, x)
    requires forall i :: 0 <= i < |ys| ==> IsFinite(ys[i])
    ensures IsFinite(NpInterp(xs, ys, x))
  {
    NpInterpMatchesLinear(xs, ys, x);
    LinearFiniteInside(xs, ys, x);
  }

  /** Inside the samples, no sample below zero means no `np.interp` value below
      zero. */
  lemma NpInterpNotNegative(xs: seq<real>, ys: seq<Val>, x: real)
    requires |xs| == |ys| >= 2 && Increasing(xs) && Inside(xs, x)
    requires forall i :: 0 <= i < |ys| ==> !IsNegative(ys[i])
    ensures !IsNegative(NpInterp(xs, ys, x))
  {
    var lo := Segment(xs, x);
    SegmentBrackets(xs, x);
    if xs[lo] < x < xs[lo + 1] {
      RetryNotNegative(xs[lo], ys[lo], xs[lo + 1], ys[lo + 1], x);
    }
  }

  /** `s` holds, at each position `j`, `np.interp` through the samples
      `(xs, ys)` at `lo + j`. */
  predicate SampledFrom(xs: seq<real>, ys: seq<Val>, lo: int, s: seq<Val>) {
    && |xs| == |ys| >= 2 && Increasing(xs)
    && forall j :: 0 <= j < |s| ==> s[j] == NpInterp(xs, ys, (lo + j) as real)
  }

  /** `v` is `np.interp` through the samples `(xs, ys)` at `x`. */
  predicate InterpolantAt(xs: seq<real>, ys: seq<Val>, x: real, v: Val) {
    |xs| == |ys| >= 2 && Increasing(xs) && v == NpInterp(xs, ys, x)
  }

  /** The interpolant passes through every sample. */
  lemma LinearAtSample(xs: seq<real>, ys: seq<Val>, k: nat)
    requires |xs| == |ys| >= 2 && Increasing(xs) && k < |xs|
    requires forall i :: 0 <= i < |ys| ==> IsFinite(ys[i])
    ensures Linear(xs, ys, xs[k]) == ys[k]
  {
    SearchSortedAtSample(xs, k);
    var lo := Segment(xs, xs[k]);
    if k == 0 {
      LerpBetween(xs[0], ys[0].r, xs[1], ys[1].r, xs[0]);
    } else {
      assert lo == k - 1;
      LerpBetween(xs[k - 1], ys[k - 1].r, xs[k], ys[k].r, xs[k]);
    }
  }

  /** When every grid point lies inside the samples, the strict mode does not
      raise and agrees with the NaN-filling mode; on finite samples the
      extrapolating mode agrees with both. */
  lemma ModesAgreeInside(xs: seq<real>, ys: seq<Val>, grid: seq<int>)
    requires |xs| == |ys| >= 2 && Increasing(xs)
    requires forall i :: 0 <= i < |grid| ==> Inside(xs, grid[i] as real)
    ensures Evaluate(xs, ys, grid, Strict).Some?
    ensures Evaluate(xs, ys, grid, Strict) == Evaluate(xs, ys, grid, FillNaN)
    ensures (forall i :: 0 <= i < |ys| ==> IsFinite(ys[i])) ==>
      Evaluate(xs, ys, grid, Extrapolate) == Evaluate(xs, ys, grid, Strict)
  {
    var a := Evaluate(xs, ys, grid, Strict).value;
    var b := Evaluate(xs, ys, grid, FillNaN).value;
    assert a == b;
    if forall i :: 0 <= i < |ys| ==> IsFinite(ys[i]) {
      var c := Evaluate(xs, ys, grid, Extrapolate).value;
      forall i | 0 <= i < |grid| ensures c[i] == a[i] {
        NpInterpMatchesLinear(xs, ys, grid[i] as real);
      }
      assert c == a;
    }
  }

  /** An infinite sample next to a grid point that is itself a sample: the
      strict and NaN-filling modes return that sample's value, the
      extrapolating mode NaN. */
  lemma ModesDifferAtInfinity()
    ensures var xs, ys, grid := [3799.5, 3800.0, 3801.0], [Inf(false), Num(1.0), Num(1.0)], [3800];
      && Increasing(xs)
      && Evaluate(xs, ys, grid, Strict) == Evaluate(xs, ys, grid, FillNaN) == Some([Num(1.0)])
      && Evaluate(xs, ys, grid, Extrapolate) == Some([NaN])
  {
    var xs, ys, grid := [3799.5, 3800.0, 3801.0], [Inf(false), Num(1.0), Num(1.0)], [3800];
    NpInterpAtSample(xs, ys, 1);
    assert SearchSorted(xs, 3800.0) == 1 by { SearchSortedAtSample(xs, 1); }
    assert Linear(xs, ys, 3800.0) == NaN;
    assert Evaluate(xs, ys, grid, Strict).value == [Num(1.0)];
    assert Evaluate(xs, ys, grid, Extrapolate).value == [NaN];
  }

  /** With finite samples, the NaN-filling mode yields NaN exactly at the grid
      points outside the samples. */
  lemma FillNaNMarksOutside(xs: seq<real>, ys: seq<Val>, grid: seq<int>)
    requires |xs| == |ys| >= 2 && Increasing(xs)
    requires forall i :: 0 <= i < |ys| ==> IsFinite(ys[i])
    ensures Evaluate(xs, ys, grid, FillNaN).Some?
    ensures var out := Evaluate(xs, ys, grid, FillNaN).value;
      |out| == |grid| && forall i :: 0 <= i < |grid| ==> (out[i].NaN? <==> !Inside(xs, grid[i] as real))
  {
    var out := Evaluate(xs, ys, grid, FillNaN).value;
    forall i | 0 <= i < |grid| && Inside(xs, grid[i] as real) ensures !out[i].NaN? {
      NpInterpFiniteInside(xs, ys, grid[i] as real);
    }
  }
}
