/** The order statistics the pipeline takes from numpy: `min`, `max`, `median`
    and `nanmedian`. numpy sorts (partially) to find a median; here the sort is
    an insertion sort, proved to be an ordered permutation of its input. */
module Stats {
  import opened Values

  /** Every value is present (no NaN). */
  predicate NoNaN(s: seq<Val>) {
    forall i :: 0 <= i < |s| ==> !s[i].NaN?
  }

  predicate SortedVals(s: seq<Val>) {
    forall i, j :: 0 <= i < j < |s| ==> Le(s[i], s[j])
  }

  /** Inserts `x` before the first element not below it. */
  function Insert(x: Val, s: seq<Val>): (r: seq<Val>)
    requires !x.NaN? && NoNaN(s) && SortedVals(s)
    ensures multiset(r) == multiset(s) + multiset{x}
    ensures |r| == |s| + 1 && NoNaN(r) && SortedVals(r)
  {
    if |s| == 0 then [x]
    else if Le(x, s[0]) then
      forall j | 0 <= j < |s| ensures Le(x, s[j]) {
        LeTransitive(x, s[0], s[j]);
      }
      SortedCons(x, s);
      [x] + s
    else
      LeTotal(x, s[0]);
      var tail := Insert(x, s[1..]);
      assert s == [s[0]] + s[1..];
      BoundedBelow(s[0], x, s[1..], tail);
      SortedCons(s[0], tail);
      assert multiset([s[0]] + tail) == multiset{s[0]} + multiset(tail);
      [s[0]] + tail
  }

  /** A sorted sequence stays sorted behind a value at most its every element. */
  lemma SortedCons(h: Val, t: seq<Val>)
    requires SortedVals(t) && forall k :: 0 <= k < |t| ==> Le(h, t[k])
    ensures SortedVals([h] + t)
  {
  }

  /** A lower bound of `x` and of every element of `s` bounds every element of a
      sequence holding the values of both. */
  lemma BoundedBelow(lo: Val, x: Val, s: seq<Val>, r: seq<Val>)
    requires multiset(r) == multiset(s) + multiset{x}
    requires Le(lo, x) && forall j :: 0 <= j < |s| ==> Le(lo, s[j])
    ensures forall k :: 0 <= k < |r| ==> Le(lo, r[k])
  {
    forall k | 0 <= k < |r| ensures Le(lo, r[k]) {
      assert r[k] in multiset(r);
      if r[k] != x {
        assert r[k] in multiset(s);
        var j :| 0 <= j < |s| && s[j] == r[k];
      }
    }
  }

  /** An ordered permutation of the values of `s` (insertion sort). */
  function SortVals(s: seq<Val>): (r: seq<Val>)
    requires NoNaN(s)
    ensures multiset(r) == multiset(s) && |r| == |s|
    ensures NoNaN(r) && SortedVals(r)
  {
    if |s| == 0 then []
    else
      assert s == [s[0]] + s[1..];
      Insert(s[0], SortVals(s[1..]))
  }

  /** The values of `s` that are not NaN, in order. */
  function DropNaN(s: seq<Val>): (r: seq<Val>)
    ensures NoNaN(r) && |r| <= |s|
    ensures forall v :: v in r <==> v in s && !v.NaN?
  {
    if |s| == 0 then []
    else if s[0].NaN? then DropNaN(s[1..])
    else [s[0]] + DropNaN(s[1..])
  }

  /** The middle of an ordered sequence: the middle element, or the mean of the
      two middle elements (`np.mean` adds them and halves the sum). */
  function Middle(t: seq<Val>): Val
    requires |t| > 0
  {
    var m := |t| / 2;
    if |t| % 2 == 1 then t[m] else Scale(Add(t[m - 1], t[m]), 0.5)
  }

  /** `np.median`: NaN for an empty input or for any NaN in the input. */
  function Median(s: seq<Val>): Val {
    if |s| == 0 || !NoNaN(s) then NaN else Middle(SortVals(s))
  }

  /** `np.nanmedian`: the median of the values that are not NaN (NaN if none). */
  function NanMedian(s: seq<Val>): Val {
    Median(DropNaN(s))
  }

  /** When every value is a real in [lo, hi], so is the median. */
  lemma MedianWithin(s: seq<Val>, lo: real, hi: real)
    requires |s| > 0
    requires forall i :: 0 <= i < |s| ==> s[i].Num? && lo <= s[i].r <= hi
    ensures Median(s).Num? && lo <= Median(s).r <= hi
  {
    var t := SortVals(s);
    forall k | 0 <= k < |t| ensures t[k].Num? && lo <= t[k].r <= hi {
      assert t[k] in multiset(s);
    }
  }

  /** When every present value is a real in [lo, hi] and some value is present,
      the NaN-ignoring median is a real in [lo, hi] too. */
  lemma NanMedianWithin(s: seq<Val>, lo: real, hi: real)
    requires exists i :: 0 <= i < |s| && !s[i].NaN?
    requires forall i :: 0 <= i < |s| && !s[i].NaN? ==> s[i].Num? && lo <= s[i].r <= hi
    ensures NanMedian(s).Num? && lo <= NanMedian(s).r <= hi
  {
    var d := DropNaN(s);
    var i :| 0 <= i < |s| && !s[i].NaN?;
    assert s[i] in d;
    forall k | 0 <= k < |d| ensures d[k].Num? && lo <= d[k].r <= hi {
      assert d[k] in s;
    }
    MedianWithin(d, lo, hi);
  }

  /** numpy `min` of a non-empty sequence of reals. */
  function MinOf(xs: seq<real>): (m: real)
    requires |xs| > 0
    ensures m in xs && forall i :: 0 <= i < |xs| ==> m <= xs[i]
  {
    if |xs| == 1 then xs[0]
    else
      var rest := MinOf(xs[1..]);
      assert forall i :: 1 <= i < |xs| ==> xs[i] == xs[1..][i - 1];
      if xs[0] <= rest then xs[0] else rest
  }

  /** numpy `max` of a non-empty sequence of reals. */
  function MaxOf(xs: seq<real>): (m: real)
    requires |xs| > 0
    ensures m in xs && forall i :: 0 <= i < |xs| ==> xs[i] <= m
  {
    if |xs| == 1 then xs[0]
    else
      var rest := MaxOf(xs[1..]);
      assert forall i :: 1 <= i < |xs| ==> xs[i] == xs[1..][i - 1];
      if xs[0] >= rest then xs[0] else rest
  }
}
