/** Floating-point samples as they appear in the spectrum tables: a real number,
    not-a-number, or an infinity. Rounding and overflow are not modelled; the
    arithmetic below follows IEEE 754 only in how infinities and NaN propagate. */
module Values {

  datatype Option<+T> = None | Some(value: T)

  /** A sample: `Num(r)` is a finite value, `Inf(neg)` is minus infinity when `neg`. */
  datatype Val = Num(r: real) | NaN | Inf(neg: bool)

  /** numpy `isfinite`. */
  predicate IsFinite(v: Val) {
    v.Num?
  }

  /** numpy `v < 0`, which is false for NaN. */
  predicate IsNegative(v: Val) {
    match v
    case Num(r) => r < 0.0
    case NaN => false
    case Inf(neg) => neg
  }

  /** numpy `a <= b`: minus infinity below every real, plus infinity above, false on NaN. */
  predicate Le(a: Val, b: Val) {
    && !a.NaN? && !b.NaN?
    && (a == Inf(true) || b == Inf(false) || (a.Num? && b.Num? && a.r <= b.r))
  }

  lemma LeTotal(a: Val, b: Val)
    requires !a.NaN? && !b.NaN?
    ensures Le(a, b) || Le(b, a)
  {
  }

  lemma LeTransitive(a: Val, b: Val, c: Val)
    requires Le(a, b) && Le(b, c)
    ensures Le(a, c)
  {
  }

  /** Negation. */
  function Neg(a: Val): Val {
    match a
    case Num(x) => Num(-x)
    case NaN => NaN
    case Inf(n) => Inf(!n)
  }

  /** IEEE addition: infinities of opposite sign give NaN. */
  function Add(a: Val, b: Val): Val {
    match (a, b)
    case (Num(x), Num(y)) => Num(x + y)
    case (Inf(p), Num(_)) => Inf(p)
    case (Num(_), Inf(q)) => Inf(q)
    case (Inf(p), Inf(q)) => if p == q then Inf(p) else NaN
    case _ => NaN
  }

  /** IEEE subtraction. */
  function Sub(a: Val, b: Val): Val {
    Add(a, Neg(b))
  }

  /** Multiplication by a finite factor: an infinity times zero is NaN. */
  function Scale(a: Val, k: real): Val {
    match a
    case Num(x) => Num(x * k)
    case NaN => NaN
    case Inf(n) => if k == 0.0 then NaN else Inf(if k > 0.0 then n else !n)
  }

  /** A finite result of Add needs finite operands. */
  lemma AddFinite(a: Val, b: Val)
    requires IsFinite(Add(a, b))
    ensures IsFinite(a) && IsFinite(b)
  {
  }

  /** A finite result of Scale needs a finite operand. */
  lemma ScaleFinite(a: Val, k: real)
    requires IsFinite(Scale(a, k))
    ensures IsFinite(a)
  {
  }

  /** numpy `ceil` on a finite value. */
  function Ceil(x: real): (c: int)
    ensures x <= c as real < x + 1.0
  {
    -((-x).Floor)
  }

  /** numpy `floor` on a finite value. */
  function Floor(x: real): (f: int)
    ensures x - 1.0 < f as real <= x
  {
    x.Floor
  }

  /** `n` copies of NaN: what pandas puts into cells it has to invent. */
  function NaNs(n: nat): (s: seq<Val>)
    ensures |s| == n && forall i :: 0 <= i < n ==> s[i] == NaN
  {
    seq(n, _ => NaN)
  }

  /** `n` zeros, as `np.zeros`. */
  function Zeros(n: nat): (s: seq<Val>)
    ensures |s| == n && forall i :: 0 <= i < n ==> s[i] == Num(0.0)
  {
    seq(n, _ => Num(0.0))
  }

  /** numpy `np.any(np.isnan(s))`. */
  predicate AnyNaN(s: seq<Val>) {
    exists i :: 0 <= i < |s| && s[i].NaN?
  }

  /** numpy `np.any(np.isnan(s)) or np.any(np.isinf(s))`. */
  predicate AnyNonFinite(s: seq<Val>) {
    exists i :: 0 <= i < |s| && !IsFinite(s[i])
  }

  /** numpy `np.any(s < 0)`. */
  predicate AnyNegative(s: seq<Val>) {
    exists i :: 0 <= i < |s| && IsNegative(s[i])
  }

  /** numpy `np.any(~np.isnan(s))`: some value is present. */
  predicate AnyPresent(s: seq<Val>) {
    exists i :: 0 <= i < |s| && !s[i].NaN?
  }
}
