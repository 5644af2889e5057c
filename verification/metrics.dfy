/**
 * The two overlap metrics registered as custom objects when the models are
 * loaded: the Jaccard index (intersection over union) and the Dice
 * coefficient, both smoothed. Inputs are the flattened tensors, as reals.
 */
module Metrics {
  import opened Outcomes

  /** Default smoothing constant of the Jaccard index. */
  const JaccardSmooth: real := 100.0
  /** Default smoothing constant of the Dice coefficient. */
  const DiceSmooth: real := 1.0

  /** `reduce_sum` of a flat vector. */
  function Sum(xs: seq<real>): real
    decreases |xs|
  {
    if |xs| == 0 then 0.0 else xs[0] + Sum(xs[1..])
  }

  /** `reduce_sum(a * b)`: the (soft) intersection of two flat vectors. */
  function Dot(a: seq<real>, b: seq<real>): real
    requires |a| == |b|
    decreases |a|
  {
    if |a| == 0 then 0.0 else a[0] * b[0] + Dot(a[1..], b[1..])
  }

  /** Every element lies in [0, 1], as for masks and probabilities. */
  predicate InUnitRange(xs: seq<real>) {
    forall k :: 0 <= k < |xs| ==> 0.0 <= xs[k] <= 1.0
  }

  /** Every element is exactly 0 or 1, as for a hard mask. */
  predicate IsBinary(xs: seq<real>) {
    forall k :: 0 <= k < |xs| ==> xs[k] == 0.0 || xs[k] == 1.0
  }

  /** Every element is 0. */
  predicate IsZero(xs: seq<real>) {
    forall k :: 0 <= k < |xs| ==> xs[k] == 0.0
  }

  /** Floating-point division: a zero denominator yields no finite value. */
  function Ratio(num: real, den: real): (r: Option<real>)
    ensures r.Some? <==> den != 0.0
    ensures r.Some? ==> r.value * den == num
  {
    if den == 0.0 then None else Some(num / den)
  }

  /** Smoothed Jaccard index: intersection plus smooth over union plus smooth. */
  function JaccardIndex(yTrue: seq<real>, yPred: seq<real>, smooth: real): (r: Option<real>)
    requires |yTrue| == |yPred|
    ensures r.None? <==> Sum(yTrue) + Sum(yPred) - Dot(yTrue, yPred) + smooth == 0.0
    ensures r.Some? ==>
      r.value * (Sum(yTrue) + Sum(yPred) - Dot(yTrue, yPred) + smooth) == Dot(yTrue, yPred) + smooth
  {
    var inter := Dot(yTrue, yPred);
    Ratio(inter + smooth, Sum(yTrue) + Sum(yPred) - inter + smooth)
  }

  /** Smoothed Dice coefficient: twice the intersection plus smooth over total mass plus smooth. */
  function DiceCoefficient(yTrue: seq<real>, yPred: seq<real>, smooth: real): (r: Option<real>)
    requires |yTrue| == |yPred|
    ensures r.None? <==> Sum(yTrue) + Sum(yPred) + smooth == 0.0
    ensures r.Some? ==> r.value * (Sum(yTrue) + Sum(yPred) + smooth) == 2.0 * Dot(yTrue, yPred) + smooth
  {
    Ratio(2.0 * Dot(yTrue, yPred) + smooth, Sum(yTrue) + Sum(yPred) + smooth)
  }

  // ---------------------------------------------------------------------------
  // Facts about sums and intersections
  // ---------------------------------------------------------------------------

  lemma {:induction false} DotSymmetric(a: seq<real>, b: seq<real>)
    requires |a| == |b|
    ensures Dot(a, b) == Dot(b, a)
    decreases |a|
  {
    if |a| > 0 {
      DotSymmetric(a[1..], b[1..]);
    }
  }

  /**
   * On [0, 1]-valued vectors the intersection is non-negative and at most
   * half the total mass: each term t*p is at most (t + p) / 2.
   */
  lemma {:induction false} DotBounds(a: seq<real>, b: seq<real>)
    requires |a| == |b| && InUnitRange(a) && InUnitRange(b)
    ensures 0.0 <= Dot(a, b)
    ensures 2.0 * Dot(a, b) <= Sum(a) + Sum(b)
    decreases |a|
  {
    if |a| > 0 {
      assert InUnitRange(a[1..]) && InUnitRange(b[1..]) by {
        assert forall k :: 0 <= k < |a| - 1 ==> a[1..][k] == a[k + 1] && b[1..][k] == b[k + 1];
      }
      DotBounds(a[1..], b[1..]);
      var x, y := a[0], b[0];
      ProductNonNegative(x, y);
      ProductNonNegative(x, 1.0 - y);
      ProductNonNegative(y, 1.0 - x);
      assert 2.0 * (x * y) <= x + y;
    }
  }

  lemma ProductNonNegative(x: real, y: real)
    requires 0.0 <= x && 0.0 <= y
    ensures 0.0 <= x * y
  {
  }

  /** A ratio whose numerator equals its non-zero denominator is exactly 1. */
  lemma RatioOfEqualTerms(n: real)
    requires n != 0.0
    ensures Ratio(n, n) == Some(1.0)
  {
    assert n / n == 1.0;
  }

  lemma {:induction false} ZeroSums(a: seq<real>, b: seq<real>)
    requires |a| == |b| && IsZero(a) && IsZero(b)
    ensures Sum(a) == 0.0 && Sum(b) == 0.0 && Dot(a, b) == 0.0
    decreases |a|
  {
    if |a| > 0 {
      assert IsZero(a[1..]) && IsZero(b[1..]) by {
        assert forall k :: 0 <= k < |a| - 1 ==> a[1..][k] == a[k + 1] && b[1..][k] == b[k + 1];
      }
      ZeroSums(a[1..], b[1..]);
    }
  }

  /** A hard mask intersected with itself is itself: the intersection is its sum. */
  lemma {:induction false} BinarySelfDot(a: seq<real>)
    requires IsBinary(a)
    ensures Dot(a, a) == Sum(a)
    ensures Sum(a) >= 0.0
    decreases |a|
  {
    if |a| > 0 {
      assert IsBinary(a[1..]) by {
        assert forall k :: 0 <= k < |a| - 1 ==> a[1..][k] == a[k + 1];
      }
      BinarySelfDot(a[1..]);
      assert a[0] * a[0] == a[0];
    }
  }

  /** If 0 < num <= den then num / den lies in (0, 1]. */
  lemma RatioInUnitInterval(num: real, den: real)
    requires 0.0 < num <= den
    ensures Ratio(num, den).Some? && 0.0 < Ratio(num, den).value <= 1.0
  {
    var q := num / den;
    assert q * den == num;
    if q > 1.0 {
      assert q * den > 1.0 * den;
    }
  }

  // ---------------------------------------------------------------------------
  // Properties of the metrics
  // ---------------------------------------------------------------------------

  /** The Jaccard index does not care which argument is the ground truth. */
  lemma JaccardSymmetric(a: seq<real>, b: seq<real>, smooth: real)
    requires |a| == |b|
    ensures JaccardIndex(a, b, smooth) == JaccardIndex(b, a, smooth)
  {
    DotSymmetric(a, b);
  }

  /** The Dice coefficient does not care which argument is the ground truth. */
  lemma DiceSymmetric(a: seq<real>, b: seq<real>, smooth: real)
    requires |a| == |b|
    ensures DiceCoefficient(a, b, smooth) == DiceCoefficient(b, a, smooth)
  {
    DotSymmetric(a, b);
  }

  /**
   * On [0, 1]-valued inputs with positive smoothing, the union is never
   * negative, so the denominator is at least `smooth` (never zero) and the
   * index lies in (0, 1].
   */
  lemma JaccardInUnitInterval(yTrue: seq<real>, yPred: seq<real>, smooth: real)
    requires |yTrue| == |yPred| && InUnitRange(yTrue) && InUnitRange(yPred) && smooth > 0.0
    ensures Sum(yTrue) + Sum(yPred) - Dot(yTrue, yPred) + smooth >= smooth
    ensures JaccardIndex(yTrue, yPred, smooth).Some?
    ensures 0.0 < JaccardIndex(yTrue, yPred, smooth).value <= 1.0
  {
    DotBounds(yTrue, yPred);
    var inter := Dot(yTrue, yPred);
    RatioInUnitInterval(inter + smooth, Sum(yTrue) + Sum(yPred) - inter + smooth);
  }

  /**
   * On [0, 1]-valued inputs with positive smoothing, the denominator is at
   * least `smooth` and the coefficient lies in (0, 1].
   */
  lemma DiceInUnitInterval(yTrue: seq<real>, yPred: seq<real>, smooth: real)
    requires |yTrue| == |yPred| && InUnitRange(yTrue) && InUnitRange(yPred) && smooth > 0.0
    ensures Sum(yTrue) + Sum(yPred) + smooth >= smooth
    ensures DiceCoefficient(yTrue, yPred, smooth).Some?
    ensures 0.0 < DiceCoefficient(yTrue, yPred, smooth).value <= 1.0
  {
    DotBounds(yTrue, yPred);
    RatioInUnitInterval(2.0 * Dot(yTrue, yPred) + smooth, Sum(yTrue) + Sum(yPred) + smooth);
  }

  /** Two empty masks agree perfectly: both metrics are exactly 1. */
  lemma MetricsOfZeroMasks(yTrue: seq<real>, yPred: seq<real>, smooth: real)
    requires |yTrue| == |yPred| && IsZero(yTrue) && IsZero(yPred) && smooth != 0.0
    ensures JaccardIndex(yTrue, yPred, smooth) == Some(1.0)
    ensures DiceCoefficient(yTrue, yPred, smooth) == Some(1.0)
  {
    ZeroSums(yTrue, yPred);
    RatioOfEqualTerms(smooth);
  }

  /** A hard mask compared with itself scores exactly 1 on both metrics. */
  lemma MetricsOfIdenticalBinaryMasks(y: seq<real>, smooth: real)
    requires IsBinary(y) && smooth > 0.0
    ensures JaccardIndex(y, y, smooth) == Some(1.0)
    ensures DiceCoefficient(y, y, smooth) == Some(1.0)
  {
    BinarySelfDot(y);
    RatioOfEqualTerms(Sum(y) + smooth);
    RatioOfEqualTerms(2.0 * Sum(y) + smooth);
  }

  /** Both default smoothing constants are positive, so the bounds above apply to the defaults. */
  lemma DefaultsNeverDivideByZero(yTrue: seq<real>, yPred: seq<real>)
    requires |yTrue| == |yPred| && InUnitRange(yTrue) && InUnitRange(yPred)
    ensures JaccardIndex(yTrue, yPred, JaccardSmooth).Some?
    ensures DiceCoefficient(yTrue, yPred, DiceSmooth).Some?
  {
    JaccardInUnitInterval(yTrue, yPred, JaccardSmooth);
    DiceInUnitInterval(yTrue, yPred, DiceSmooth);
  }
}
