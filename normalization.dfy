/** `normalize` (line 140): min-max scaling of a vector, with a constant fallback when the
    vector is constant. */
module Normalization {

  /** `np.allclose(x, x[0])`, read as exact equality. */
  predicate AllEqual(x: seq<real>)
    requires |x| > 0
  {
    forall i :: 0 <= i < |x| ==> x[i] == x[0]
  }

  // `Least` and `Greatest` are `np.min` and `np.max` on the real-valued fitness vector;
  // `Decoding.MinOf` and `Decoding.MaxOf` are `min` and `max` on the integer node x list.
  // Dafny has no overloading across `int` and `real`, so each element type has its own pair.

  /** `np.min(x)`. */
  function Least(x: seq<real>): (r: real)
    requires |x| > 0
    ensures r in x && forall i :: 0 <= i < |x| ==> r <= x[i]
  {
    if |x| == 1 then x[0]
    else
      var r := Least(x[..|x| - 1]);
      if x[|x| - 1] < r then x[|x| - 1] else r
  }

  /** `np.max(x)`. */
  function Greatest(x: seq<real>): (r: real)
    requires |x| > 0
    ensures r in x && forall i :: 0 <= i < |x| ==> x[i] <= r
  {
    if |x| == 1 then x[0]
    else
      var r := Greatest(x[..|x| - 1]);
      if x[|x| - 1] > r then x[|x| - 1] else r
  }

  /** The value of `normalize(x)`. */
  function Normalize(x: seq<real>): (r: seq<real>)
    requires |x| > 0
    ensures |r| == |x|
  {
    if AllEqual(x) then seq(|x|, _ => 0.1)
    else
      SpreadApart(x);
      Rescale(x, Least(x), Greatest(x))
  }

  /** `(x - lo) / (hi - lo)`, entry by entry. */
  function Rescale(x: seq<real>, lo: real, hi: real): (r: seq<real>)
    requires lo < hi
    ensures |r| == |x|
  {
    seq(|x|, i requires 0 <= i < |x| => (x[i] - lo) / (hi - lo))
  }

  /** A vector that is not constant has its minimum strictly below its maximum. */
  lemma SpreadApart(x: seq<real>)
    requires |x| > 0 && !AllEqual(x)
    ensures Least(x) < Greatest(x)
  {
    var k :| 0 <= k < |x| && x[k] != x[0];
    assert Least(x) <= x[k] && Least(x) <= x[0];
    assert x[k] <= Greatest(x) && x[0] <= Greatest(x);
  }

  /** A constant vector becomes the constant 0.1. Otherwise every entry lands in [0, 1], exactly
      the smallest entries map to 0 and exactly the largest to 1, and the order of entries is kept. */
  lemma NormalizeRange(x: seq<real>)
    requires |x| > 0
    ensures AllEqual(x) ==> forall i :: 0 <= i < |x| ==> Normalize(x)[i] == 0.1
    ensures !AllEqual(x) ==> forall i :: 0 <= i < |x| ==>
      && 0.0 <= Normalize(x)[i] <= 1.0
      && (Normalize(x)[i] == 0.0 <==> x[i] == Least(x))
      && (Normalize(x)[i] == 1.0 <==> x[i] == Greatest(x))
    ensures !AllEqual(x) ==> forall i, j :: 0 <= i < |x| && 0 <= j < |x| && x[i] <= x[j] ==>
      Normalize(x)[i] <= Normalize(x)[j]
  {
    if !AllEqual(x) {
      SpreadApart(x);
      RescaleRange(x, Least(x), Greatest(x));
    }
  }

  /** Rescaling a vector whose entries lie in [lo, hi]. */
  lemma RescaleRange(x: seq<real>, lo: real, hi: real)
    requires lo < hi && forall i :: 0 <= i < |x| ==> lo <= x[i] <= hi
    ensures forall i :: 0 <= i < |x| ==>
      && 0.0 <= Rescale(x, lo, hi)[i] <= 1.0
      && (Rescale(x, lo, hi)[i] == 0.0 <==> x[i] == lo)
      && (Rescale(x, lo, hi)[i] == 1.0 <==> x[i] == hi)
    ensures forall i, j :: 0 <= i < |x| && 0 <= j < |x| && x[i] <= x[j] ==>
      Rescale(x, lo, hi)[i] <= Rescale(x, lo, hi)[j]
  {
    var r := Rescale(x, lo, hi);
    forall i | 0 <= i < |x|
      ensures 0.0 <= r[i] <= 1.0
      ensures r[i] == 0.0 <==> x[i] == lo
      ensures r[i] == 1.0 <==> x[i] == hi
    {
      Entry(x[i], lo, hi);
    }
    forall i, j | 0 <= i < |x| && 0 <= j < |x| && x[i] <= x[j] ensures r[i] <= r[j] {
      Scale(x[i] - lo, x[j] - lo, hi - lo);
    }
  }

  /** One scaled entry of a non-constant vector. */
  lemma Entry(v: real, lo: real, hi: real)
    requires lo <= v <= hi && lo < hi
    ensures 0.0 <= (v - lo) / (hi - lo) <= 1.0
    ensures (v - lo) / (hi - lo) == 0.0 <==> v == lo
    ensures (v - lo) / (hi - lo) == 1.0 <==> v == hi
  {
    Scale(0.0, v - lo, hi - lo);
    Scale(v - lo, hi - lo, hi - lo);
  }

  /** Division by a positive number keeps order and equality. */
  lemma Scale(a: real, b: real, d: real)
    requires d > 0.0
    ensures a <= b <==> a / d <= b / d
    ensures a == b <==> a / d == b / d
    ensures d / d == 1.0 && 0.0 / d == 0.0
  {
    assert a / d * d == a && b / d * d == b;
    if a / d <= b / d {
      assert a / d * d <= b / d * d;
    }
  }
}
