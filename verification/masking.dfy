/** The per-spectrum NaN mask `~isnan(wl) & ~isnan(flux) & ~isnan(ivar)` and
    numpy boolean indexing `s[mask]`, which keeps the masked-in positions in
    their original order. */
module Masking {
  import opened Values

  function CountTrue(m: seq<bool>): (n: nat)
    ensures n <= |m|
  {
    if |m| == 0 then 0 else (if m[0] then 1 else 0) + CountTrue(m[1..])
  }

  /** numpy boolean indexing `s[m]`. */
  function Select<T>(s: seq<T>, m: seq<bool>): seq<T>
    requires |s| == |m|
  {
    if |s| == 0 then [] else (if m[0] then [s[0]] else []) + Select(s[1..], m[1..])
  }

  /** The positions `base + i` with `m[i]`, ascending. */
  function KeptFrom(m: seq<bool>, base: nat): seq<nat> {
    if |m| == 0 then [] else (if m[0] then [base] else []) + KeptFrom(m[1..], base + 1)
  }

  /** The positions where `m` holds, ascending. */
  function Kept(m: seq<bool>): seq<nat> {
    KeptFrom(m, 0)
  }

  lemma {:induction false} KeptFromSpec(m: seq<bool>, base: nat)
    ensures |KeptFrom(m, base)| == CountTrue(m)
    ensures forall k :: 0 <= k < |KeptFrom(m, base)| ==>
              base <= KeptFrom(m, base)[k] < base + |m| && m[KeptFrom(m, base)[k] - base]
    ensures forall k, l :: 0 <= k < l < |KeptFrom(m, base)| ==> KeptFrom(m, base)[k] < KeptFrom(m, base)[l]
    ensures forall i :: base <= i < base + |m| && m[i - base] ==> i in KeptFrom(m, base)
  {
    if |m| > 0 {
      KeptFromSpec(m[1..], base + 1);
      var rest := KeptFrom(m[1..], base + 1);
      var head: seq<nat> := if m[0] then [base] else [];
      assert KeptFrom(m, base) == head + rest;
      forall i | base <= i < base + |m| && m[i - base] ensures i in KeptFrom(m, base) {
        if i > base {
          assert m[1..][i - (base + 1)] == m[i - base];
          assert i in rest;
        }
      }
    }
  }

  lemma {:induction false} SelectKeptFrom<T>(s: seq<T>, m: seq<bool>, base: nat)
    requires |s| == |m|
    ensures |Select(s, m)| == |KeptFrom(m, base)|
    ensures forall k :: 0 <= k < |Select(s, m)| ==>
              base <= KeptFrom(m, base)[k] < base + |s| && Select(s, m)[k] == s[KeptFrom(m, base)[k] - base]
  {
    SelectLength(s, m, base);
    forall k | 0 <= k < |Select(s, m)|
      ensures base <= KeptFrom(m, base)[k] < base + |s| && Select(s, m)[k] == s[KeptFrom(m, base)[k] - base]
    {
      SelectAt(s, m, base, k);
    }
  }

  lemma {:induction false} SelectLength<T>(s: seq<T>, m: seq<bool>, base: nat)
    requires |s| == |m|
    ensures |Select(s, m)| == |KeptFrom(m, base)|
  {
    if |s| > 0 {
      SelectLength(s[1..], m[1..], base + 1);
    }
  }

  /** Element `k` of `s[m]` is the element of `s` at the `k`-th kept position. */
  lemma {:induction false} SelectAt<T>(s: seq<T>, m: seq<bool>, base: nat, k: nat)
    requires |s| == |m| && k < |Select(s, m)|
    ensures k < |KeptFrom(m, base)|
    ensures base <= KeptFrom(m, base)[k] < base + |s| && Select(s, m)[k] == s[KeptFrom(m, base)[k] - base]
  {
    SelectLength(s, m, base);
    var sel, ks := Select(s[1..], m[1..]), KeptFrom(m[1..], base + 1);
    if m[0] {
      assert Select(s, m) == [s[0]] + sel && KeptFrom(m, base) == [base] + ks;
      if k > 0 {
        SelectAt(s[1..], m[1..], base + 1, k - 1);
        assert s[1..][ks[k - 1] - (base + 1)] == s[ks[k - 1] - base];
      }
    } else {
      assert Select(s, m) == sel && KeptFrom(m, base) == ks;
      SelectAt(s[1..], m[1..], base + 1, k);
      assert s[1..][ks[k] - (base + 1)] == s[ks[k] - base];
    }
  }

  /** Boolean indexing keeps exactly the masked-in positions, in order. */
  lemma SelectIsKept<T>(s: seq<T>, m: seq<bool>)
    requires |s| == |m|
    ensures |Select(s, m)| == |Kept(m)| == CountTrue(m)
    ensures forall k :: 0 <= k < |Kept(m)| ==> Kept(m)[k] < |s| && m[Kept(m)[k]] && Select(s, m)[k] == s[Kept(m)[k]]
    ensures forall k, l :: 0 <= k < l < |Kept(m)| ==> Kept(m)[k] < Kept(m)[l]
    ensures forall i :: 0 <= i < |m| ==> (i in Kept(m) <==> m[i])
  {
    KeptFromSpec(m, 0);
    SelectKeptFrom(s, m, 0);
    forall i | 0 <= i < |m| && i in Kept(m) ensures m[i] {
      var k :| 0 <= k < |Kept(m)| && Kept(m)[k] == i;
    }
  }

  /** The mask `~isnan(wl) & ~isnan(flux) & ~isnan(ivar)` over equal-length rows. */
  function NanMask(wl: seq<Val>, flux: seq<Val>, ivar: seq<Val>): seq<bool>
    requires |wl| == |flux| == |ivar|
  {
    seq(|wl|, i requires 0 <= i < |wl| => !wl[i].NaN? && !flux[i].NaN? && !ivar[i].NaN?)
  }

  /** A spectrum after its NaN points are dropped. */
  datatype Clean = Clean(wl: seq<Val>, flux: seq<Val>, ivar: seq<Val>)

  /** `wl[mask], flux[mask], ivar[mask]` for the NaN mask. */
  function DropNaNPoints(wl: seq<Val>, flux: seq<Val>, ivar: seq<Val>): Clean
    requires |wl| == |flux| == |ivar|
  {
    var m := NanMask(wl, flux, ivar);
    Clean(Select(wl, m), Select(flux, m), Select(ivar, m))
  }

  /** After masking the three sequences have equal length, keep their order, and
      hold exactly the positions where none of wavelength, flux, ivar is NaN. */
  lemma DropNaNPointsSpec(wl: seq<Val>, flux: seq<Val>, ivar: seq<Val>)
    requires |wl| == |flux| == |ivar|
    ensures var c := DropNaNPoints(wl, flux, ivar); var ks := Kept(NanMask(wl, flux, ivar));
      && |c.wl| == |ks| && |c.flux| == |ks| && |c.ivar| == |ks|
      && (forall k :: 0 <= k < |ks| ==>
            ks[k] < |wl| && c.wl[k] == wl[ks[k]] && c.flux[k] == flux[ks[k]] && c.ivar[k] == ivar[ks[k]])
      && (forall k, l :: 0 <= k < l < |ks| ==> ks[k] < ks[l])
      && (forall i :: 0 <= i < |wl| ==> (i in ks <==> !wl[i].NaN? && !flux[i].NaN? && !ivar[i].NaN?))
  {
    var m := NanMask(wl, flux, ivar);
    SelectIsKept(wl, m);
    SelectIsKept(flux, m);
    SelectIsKept(ivar, m);
  }

  /** No NaN survives the mask. */
  lemma DropNaNPointsPresent(wl: seq<Val>, flux: seq<Val>, ivar: seq<Val>)
    requires |wl| == |flux| == |ivar|
    ensures var c := DropNaNPoints(wl, flux, ivar);
      && |c.wl| == |c.flux| == |c.ivar|
      && forall k :: 0 <= k < |c.wl| ==> !c.wl[k].NaN? && !c.flux[k].NaN? && !c.ivar[k].NaN?
  {
    DropNaNPointsSpec(wl, flux, ivar);
  }

  /** The precondition on every row: the wavelengths that are present are finite
      and strictly increasing (the pipeline never checks or sorts them). */
  predicate Ordered(wl: seq<Val>) {
    && (forall i :: 0 <= i < |wl| && !wl[i].NaN? ==> wl[i].Num?)
    && (forall i, j :: 0 <= i < j < |wl| && wl[i].Num? && wl[j].Num? ==> wl[i].r < wl[j].r)
  }

  /** The real values of a sequence of finite samples. */
  function Reals(s: seq<Val>): (xs: seq<real>)
    requires forall i :: 0 <= i < |s| ==> s[i].Num?
    ensures |xs| == |s| && forall i :: 0 <= i < |s| ==> xs[i] == s[i].r
  {
    seq(|s|, i requires 0 <= i < |s| => s[i].r)
  }

  /** The masked wavelengths of an ordered row are finite and strictly increasing. */
  lemma MaskedOrdered(wl: seq<Val>, flux: seq<Val>, ivar: seq<Val>)
    requires |wl| == |flux| == |ivar| && Ordered(wl)
    ensures var c := DropNaNPoints(wl, flux, ivar);
      && (forall k :: 0 <= k < |c.wl| ==> c.wl[k].Num?)
      && (forall k, l :: 0 <= k < l < |c.wl| ==> c.wl[k].r < c.wl[l].r)
  {
    DropNaNPointsSpec(wl, flux, ivar);
  }

  /** Truncating an ordered row keeps it ordered. */
  lemma OrderedPrefix(wl: seq<Val>, n: nat)
    requires Ordered(wl) && n <= |wl|
    ensures Ordered(wl[..n])
  {
  }
}
