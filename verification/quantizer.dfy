/** The quantizer `quantize(values, numBins)` (script.js, lines 8-13), over
    exact reals: every value becomes `Math.round((v - min) / step)` with
    `step = (max - min) / numBins`. */
module Quantizer {
  import opened Wrappers

  /** Math.min(...values) */
  function Min(s: seq<real>): (m: real)
    requires |s| > 0
    ensures m in s
    ensures forall j :: 0 <= j < |s| ==> m <= s[j]
  {
    if |s| == 1 then s[0]
    else
      var m := Min(s[..|s| - 1]);
      if s[|s| - 1] < m then s[|s| - 1] else m
  }

  /** Math.max(...values) */
  function Max(s: seq<real>): (m: real)
    requires |s| > 0
    ensures m in s
    ensures forall j :: 0 <= j < |s| ==> s[j] <= m
  {
    if |s| == 1 then s[0]
    else
      var m := Max(s[..|s| - 1]);
      if s[|s| - 1] > m then s[|s| - 1] else m
  }

  /** Math.round: the nearest integer, halves rounded up. */
  function Round(x: real): (r: int)
    ensures x - 0.5 < r as real <= x + 0.5
  {
    (x + 0.5).Floor
  }

  /** The level of `v` in the range `[lo, hi]` split into `numBins` steps:
      the grid point `lo + level * step` nearest to `v`. With a negative bin
      count the step is negative and the grid runs downwards. */
  function Level(v: real, lo: real, hi: real, numBins: int): (r: int)
    requires lo < hi && numBins != 0
    ensures NearestGridPoint(v, lo, hi, numBins, r)
  {
    var step := (hi - lo) / (numBins as real);
    var x := (v - lo) / step;
    StepSign(lo, hi, numBins);
    ScaledRounding(v, lo, step, x, Round(x));
    Round(x)
  }

  /** `lo + r * step` is the point of the grid of step `(hi - lo) / numBins`
      nearest to `v`: within half a step of it, ties going to the upper grid
      point for a positive step. */
  ghost predicate NearestGridPoint(v: real, lo: real, hi: real, numBins: int, r: int)
    requires numBins != 0
  {
    var step := (hi - lo) / (numBins as real);
    var back := lo + (r as real) * step;
    if numBins > 0 then v - step / 2.0 < back <= v + step / 2.0
    else v + step / 2.0 <= back < v - step / 2.0
  }

  lemma StepSign(lo: real, hi: real, numBins: int)
    requires lo < hi && numBins != 0
    ensures numBins > 0 <==> (hi - lo) / (numBins as real) > 0.0
    ensures (hi - lo) / (numBins as real) != 0.0
  {
    var n := numBins as real;
    var step := (hi - lo) / n;
    assert step * n == hi - lo;
  }

  /** An integer within half a unit of `(v - lo) / step` is a grid point
      within half a step of `v`. */
  lemma ScaledRounding(v: real, lo: real, step: real, x: real, r: int)
    requires step != 0.0 && x == (v - lo) / step && x - 0.5 < r as real <= x + 0.5
    ensures var back := lo + (r as real) * step;
      if step > 0.0 then v - step / 2.0 < back <= v + step / 2.0
      else v + step / 2.0 <= back < v - step / 2.0
  {
    var d := (r as real) - x;
    assert x * step == v - lo;
    assert lo + (r as real) * step - v == d * step;
    if step > 0.0 {
      BackPos(d, step);
    } else {
      BackNeg(d, step);
    }
  }

  /** With a positive step, an offset of at most half a unit scales to at
      most half a step. */
  lemma BackPos(d: real, step: real)
    requires step > 0.0 && -0.5 < d <= 0.5
    ensures -(step / 2.0) < d * step <= step / 2.0
  {
    MulPos(-0.5, d, step);
    MulPos(d, 0.5, step);
  }

  /** With a negative step the same offset scales to the mirrored interval. */
  lemma BackNeg(d: real, step: real)
    requires step < 0.0 && -0.5 < d <= 0.5
    ensures step / 2.0 <= d * step < -(step / 2.0)
  {
    MulNeg(-0.5, d, step);
    MulNeg(d, 0.5, step);
  }

  lemma MulPos(a: real, b: real, f: real)
    requires f > 0.0
    ensures a < b ==> a * f < b * f
    ensures a <= b ==> a * f <= b * f
  {
  }

  lemma MulNeg(a: real, b: real, f: real)
    requires f < 0.0
    ensures a < b ==> b * f < a * f
    ensures a <= b ==> b * f <= a * f
  {
    MulPos(a, b, -f);
  }

  /** The quantizer. `None` stands for levels that are all `NaN`: when every
      value is equal the step is 0 (`NaN` when `numBins` is 0) and
      `(v - min) / step` is `0 / 0` (`0 / NaN`); either way it is `NaN`. With
      `numBins == 0` and distinct values the step is +Infinity and every
      level is `Math.round(0)`, that is 0. */
  function Quantize(values: seq<real>, numBins: int): (r: Option<seq<int>>)
    ensures |values| == 0 ==> r == Some([])
    ensures |values| > 0 ==> (r.None? <==> Min(values) == Max(values))
    ensures r.Some? ==> |r.value| == |values|
  {
    if |values| == 0 then Some([])
    else
      var lo := Min(values);
      var hi := Max(values);
      if lo == hi then None
      else if numBins == 0 then Some(seq(|values|, _ => 0))
      else Some(seq(|values|, i requires 0 <= i < |values| => Level(values[i], lo, hi, numBins)))
  }

  lemma DivOrder(a: real, b: real, d: real)
    requires d > 0.0 && a <= b
    ensures a / d <= b / d
  {
  }

  /** With a positive bin count a value in the range lands in `[0, numBins]`. */
  lemma LevelBounds(v: real, lo: real, hi: real, numBins: int)
    requires lo <= v <= hi && lo < hi && numBins > 0
    ensures 0 <= Level(v, lo, hi, numBins) <= numBins
  {
    var step := (hi - lo) / (numBins as real);
    assert step > 0.0;
    DivOrder(0.0, v - lo, step);
    DivOrder(v - lo, hi - lo, step);
    TopQuotient(lo, hi, numBins);
  }

  lemma TopQuotient(lo: real, hi: real, numBins: int)
    requires lo < hi && numBins > 0
    ensures (hi - lo) / ((hi - lo) / (numBins as real)) == numBins as real
  {
    var d := hi - lo;
    var n := numBins as real;
    var step := d / n;
    assert step * n == d;
    assert d / step == n;
  }

  /** The minimum maps to level 0 and the maximum to level `numBins`. */
  lemma LevelEndpoints(lo: real, hi: real, numBins: int)
    requires lo < hi && numBins > 0
    ensures Level(lo, lo, hi, numBins) == 0
    ensures Level(hi, lo, hi, numBins) == numBins
  {
    TopQuotient(lo, hi, numBins);
  }

  /** Levels are monotone in the value. */
  lemma LevelMonotone(v: real, w: real, lo: real, hi: real, numBins: int)
    requires v <= w && lo < hi && numBins > 0
    ensures Level(v, lo, hi, numBins) <= Level(w, lo, hi, numBins)
  {
    var step := (hi - lo) / (numBins as real);
    DivOrder(v - lo, w - lo, step);
  }

  /** Quantized levels with a positive bin count: index-aligned, all in
      `[0, numBins]`, the minimum at 0, the maximum at `numBins`, and order
      preserved. */
  lemma QuantizeProperties(values: seq<real>, numBins: int)
    requires |values| > 0 && numBins > 0 && Min(values) < Max(values)
    ensures Quantize(values, numBins).Some?
    ensures var q := Quantize(values, numBins).value;
      && |q| == |values|
      && (forall i :: 0 <= i < |q| ==> 0 <= q[i] <= numBins)
      && (forall i :: 0 <= i < |q| && values[i] == Min(values) ==> q[i] == 0)
      && (forall i :: 0 <= i < |q| && values[i] == Max(values) ==> q[i] == numBins)
      && (forall i, j :: 0 <= i < |q| && 0 <= j < |q| && values[i] <= values[j] ==> q[i] <= q[j])
  {
    var lo, hi := Min(values), Max(values);
    var q := Quantize(values, numBins).value;
    forall i | 0 <= i < |q|
      ensures 0 <= q[i] <= numBins
    {
      LevelBounds(values[i], lo, hi, numBins);
    }
    LevelEndpoints(lo, hi, numBins);
    forall i, j | 0 <= i < |q| && 0 <= j < |q| && values[i] <= values[j]
      ensures q[i] <= q[j]
    {
      LevelMonotone(values[i], values[j], lo, hi, numBins);
    }
  }

  /** The i-th quantized level is the level of the i-th value: reading it
      back as `min + level * step` lands within half a step of that value. */
  lemma QuantizeNearest(values: seq<real>, numBins: int, i: nat)
    requires |values| > 0 && numBins != 0 && Min(values) < Max(values) && i < |values|
    ensures Quantize(values, numBins).Some?
    ensures Quantize(values, numBins).value[i] == Level(values[i], Min(values), Max(values), numBins)
    ensures NearestGridPoint(values[i], Min(values), Max(values), numBins, Quantize(values, numBins).value[i])
  {
    var lo, hi := Min(values), Max(values);
    var q := Quantize(values, numBins).value;
    assert q == seq(|values|, k requires 0 <= k < |values| => Level(values[k], lo, hi, numBins));
    var l := Level(values[i], lo, hi, numBins);
    assert q[i] == l;
  }

  /** With a zero bin count and distinct values every level is 0. */
  lemma QuantizeZeroBins(values: seq<real>)
    requires |values| > 0 && Min(values) < Max(values)
    ensures Quantize(values, 0).Some?
    ensures forall i :: 0 <= i < |Quantize(values, 0).value| ==> Quantize(values, 0).value[i] == 0
  {
  }

}
