/**
 * `ref_clip_by_value` of `test_clip_by_value.py`: clamps an array in place, first
 * raising every element below its lower bound to that bound, then lowering every
 * element above its upper bound to that bound. Arrays are flattened in row-major order.
 */
module ClipByValue {
  /** `min_` or `max_`: a scalar, or an array with `x`'s shape. */
  datatype Bound = Scalar(v: real) | Elementwise(vs: seq<real>)

  /** A bound fits an array of `n` elements. */
  predicate Fits(b: Bound, n: nat)
  {
    b.Elementwise? ==> |b.vs| == n
  }

  /** `b * np.ones(x.shape)` for a scalar `b`, the array itself otherwise. */
  function Broadcast(b: Bound, n: nat): (r: seq<real>)
    requires Fits(b, n)
    ensures |r| == n
    ensures b.Scalar? ==> forall i :: 0 <= i < n ==> r[i] == b.v
    ensures b.Elementwise? ==> r == b.vs
  {
    if b.Scalar? then seq(n, _ => b.v) else b.vs
  }

  /** The value of one element after both passes, with bounds `lo` and `hi`. */
  function Clip(x: real, lo: real, hi: real): real
  {
    var y := if x < lo then lo else x;
    if y > hi then hi else y
  }

  /** Where the lower bound does not exceed the upper one, the result lies between them. */
  lemma ClipInRange(x: real, lo: real, hi: real)
    requires lo <= hi
    ensures lo <= Clip(x, lo, hi) <= hi
    ensures Clip(x, lo, hi) == x <==> lo <= x <= hi
  {
  }

  /** Where the lower bound exceeds the upper one, the second pass wins: the result is the upper bound. */
  lemma ClipInverted(x: real, lo: real, hi: real)
    requires lo > hi
    ensures Clip(x, lo, hi) == hi
  {
  }

  /** Clipping an already clipped value changes nothing. */
  lemma ClipIdempotent(x: real, lo: real, hi: real)
    ensures Clip(Clip(x, lo, hi), lo, hi) == Clip(x, lo, hi)
  {
  }

  /** `x[np.where(x < lo)] = lo[np.where(x < lo)]`: the first pass. */
  method RaiseToMin(x: array<real>, lo: seq<real>)
    requires |lo| == x.Length
    modifies x
    ensures forall i :: 0 <= i < x.Length ==> x[i] == (if old(x[i]) < lo[i] then lo[i] else old(x[i]))
  {
    var i := 0;
    while i < x.Length
      invariant 0 <= i <= x.Length
      invariant forall j :: 0 <= j < i ==> x[j] == (if old(x[j]) < lo[j] then lo[j] else old(x[j]))
      invariant forall j :: i <= j < x.Length ==> x[j] == old(x[j])
    {
      if x[i] < lo[i] {
        x[i] := lo[i];
      }
      i := i + 1;
    }
  }

  /** `x[np.where(x > hi)] = hi[np.where(x > hi)]`: the second pass. */
  method LowerToMax(x: array<real>, hi: seq<real>)
    requires |hi| == x.Length
    modifies x
    ensures forall i :: 0 <= i < x.Length ==> x[i] == (if old(x[i]) > hi[i] then hi[i] else old(x[i]))
  {
    var i := 0;
    while i < x.Length
      invariant 0 <= i <= x.Length
      invariant forall j :: 0 <= j < i ==> x[j] == (if old(x[j]) > hi[j] then hi[j] else old(x[j]))
      invariant forall j :: i <= j < x.Length ==> x[j] == old(x[j])
    {
      if x[i] > hi[i] {
        x[i] := hi[i];
      }
      i := i + 1;
    }
  }

  /**
   * `ref_clip_by_value(x, min_, max_)`: broadcasts scalar bounds, runs both passes on `x`
   * in place and returns `x` itself. Every element ends up clipped by its own bounds.
   */
  method RefClipByValue(x: array<real>, min_: Bound, max_: Bound) returns (r: array<real>)
    requires Fits(min_, x.Length) && Fits(max_, x.Length)
    modifies x
    ensures r == x
    ensures forall i :: 0 <= i < x.Length ==>
      x[i] == Clip(old(x[i]), Broadcast(min_, x.Length)[i], Broadcast(max_, x.Length)[i])
  {
    var lo := Broadcast(min_, x.Length);
    RaiseToMin(x, lo);
    var hi := Broadcast(max_, x.Length);
    LowerToMax(x, hi);
    r := x;
  }
}
