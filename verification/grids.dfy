/** Target wavelength grids, built with `np.arange` on integers. */
module Grids {

  /** `np.arange(start, stop, step)` for integer arguments and a positive step. */
  function Arange(start: int, stop: int, step: int): (g: seq<int>)
    requires step > 0
  {
    var n := if stop <= start then 0 else (stop - start + step - 1) / step;
    seq(n, k => start + k * step)
  }

  /** `np.arange` holds, in increasing order, exactly the points `start + k * step`
      that lie below `stop`. */
  lemma ArangeSpec(start: int, stop: int, step: int)
    requires step > 0
    ensures var g := Arange(start, stop, step);
      && (forall k :: 0 <= k < |g| ==> g[k] == start + k * step && g[k] < stop)
      && (forall k, l :: 0 <= k < l < |g| ==> g[k] < g[l])
      && start + |g| * step >= stop
  {
    var g := Arange(start, stop, step);
    if stop > start {
      var a := stop - start + step - 1;
      var n := a / step;
      assert a == n * step + a % step && 0 <= a % step < step;
      assert |g| == n;
      forall k | 0 <= k < n ensures g[k] < stop {
        assert k * step <= (n - 1) * step;
      }
      forall k, l | 0 <= k < l < n ensures g[k] < g[l] {
        assert k * step < l * step;
      }
    }
  }

  /** A unit-step grid from `lo` to `hi` inclusive. */
  function UnitGrid(lo: int, hi: int): seq<int> {
    Arange(lo, hi + 1, 1)
  }

  /** The unit grid holds the integers `lo..hi`, `hi - lo + 1` of them. */
  lemma UnitGridSpec(lo: int, hi: int)
    requires lo <= hi
    ensures |UnitGrid(lo, hi)| == hi - lo + 1
    ensures forall k :: 0 <= k < |UnitGrid(lo, hi)| ==> UnitGrid(lo, hi)[k] == lo + k
    ensures UnitGrid(lo, hi)[0] == lo && UnitGrid(lo, hi)[hi - lo] == hi
  {
  }

  const GridStart: int := 3700
  const GridEnd: int := 9000

  /** The fixed target grid `np.arange(3700, 9001, 1)`. */
  function FixedGrid(): seq<int> {
    Arange(GridStart, GridEnd + 1, 1)
  }

  /** The fixed grid is the 5301 integers 3700..9000. */
  lemma FixedGridSpec()
    ensures |FixedGrid()| == 5301
    ensures forall k :: 0 <= k < 5301 ==> FixedGrid()[k] == 3700 + k
    ensures FixedGrid()[0] == 3700 && FixedGrid()[5300] == 9000
  {
    UnitGridSpec(GridStart, GridEnd);
  }

  /** The configurable grid `np.arange(min_wavelength, max_wavelength + step, step)`. */
  function StepGrid(minW: int, maxW: int, step: int): seq<int>
    requires step > 0
  {
    Arange(minW, maxW + step, step)
  }

  /** The configurable grid starts at `min_wavelength`; its last point is at or
      above `max_wavelength` and less than one step beyond it, and equals it
      exactly when the step divides the span. */
  lemma StepGridEnds(minW: int, maxW: int, step: int)
    requires step > 0 && minW <= maxW
    ensures var g := StepGrid(minW, maxW, step);
      && |g| > 0 && g[0] == minW
      && maxW <= g[|g| - 1] < maxW + step
      && (g[|g| - 1] == maxW <==> (maxW - minW) % step == 0)
  {
    var g := StepGrid(minW, maxW, step);
    ArangeSpec(minW, maxW + step, step);
    var n := |g|;
    assert n >= 1 by {
      assert minW + 0 * step < maxW + step;
      assert (maxW + step - minW + step - 1) / step >= 1;
    }
    assert g[n - 1] == minW + (n - 1) * step;
    assert minW + n * step >= maxW + step;
    assert (n - 1) * step == n * step - step;
    var span := maxW - minW;
    assert span == (span / step) * step + span % step;
    if span % step == 0 {
      assert n - 1 == span / step by {
        assert (n - 1) * step >= span;
        assert (n - 1) * step < span + step;
        DivUnique(span, step, n - 1);
      }
    } else {
      assert g[n - 1] != maxW by {
        if g[n - 1] == maxW {
          assert span == (n - 1) * step;
          ModOfMultiple(n - 1, step);
        }
      }
    }
  }

  lemma DivUnique(a: int, b: int, q: int)
    requires b > 0 && a % b == 0 && q * b >= a && q * b < a + b
    ensures q == a / b
  {
    var r := a / b;
    assert a == r * b;
    assert (q - r) * b >= 0 && (q - r) * b < b;
    assert q - r >= 1 ==> (q - r) * b >= b;
    assert q - r <= -1 ==> (q - r) * b <= -b;
  }

  lemma ModOfMultiple(q: int, b: int)
    requires b > 0
    ensures (q * b) % b == 0
  {
    var x := q * b;
    var d, r := x / b, x % b;
    assert x == d * b + r && 0 <= r < b;
    assert (q - d) * b == r;
    assert q - d >= 1 ==> (q - d) * b >= b;
    assert q - d <= -1 ==> (q - d) * b <= -b;
  }
}
