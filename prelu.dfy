/**
 * `ref_prelu` of `test_prelu.py`: `max(0, x) + w * min(0, x)` elementwise, where `w` is
 * a single slope or one slope per channel of the axis `base_axis` of `x`, reshaped to
 * `wshape` and broadcast against `x`. Arrays are flattened in row-major order.
 */
module PReLU {
  import opened Wrappers
  import opened Tensors

  /** `max(0, x) + w * min(0, x)` for one element: non-negative values pass, negative ones are scaled. */
  function Elem(x: real, w: real): (r: real)
    ensures x >= 0.0 ==> r == x
    ensures x < 0.0 ==> r == w * x
  {
    (if x > 0.0 then x else 0.0) + w * (if x < 0.0 then x else 0.0)
  }

  /** The entry a Python list index `b` names in a list of length `n`: counted from the end when negative. */
  function ListIndex(b: int, n: nat): (r: Option<nat>)
    ensures r.Some? <==> -(n as int) <= b < n
    ensures r.Some? ==> r.value < n && r.value as int == (if b < 0 then b + n else b)
  {
    if b < 0 then (if b + n < 0 then None else Some((b + n) as nat))
    else if b < n then Some(b as nat) else None
  }

  /**
   * `wshape`: `ndim` ones, with entry `base_axis` set to `w.size` unless `w` holds a single
   * value. Setting an entry that does not exist is Python's `IndexError`.
   */
  function WeightShape(ndim: nat, wsize: nat, baseAxis: int): (r: Result<seq<nat>>)
    ensures r.Failure? <==> wsize != 1 && ListIndex(baseAxis, ndim).None?
    ensures r.Success? ==> |r.value| == ndim && forall j :: 0 <= j < ndim ==>
      r.value[j] == if wsize != 1 && ListIndex(baseAxis, ndim) == Some(j) then wsize else 1
  {
    var ones := seq(ndim, _ => 1);
    if wsize == 1 then Success(ones)
    else match ListIndex(baseAxis, ndim)
      case None => Failure("list assignment index out of range")
      case Some(a) => Success(ones[a := wsize])
  }

  /** A shape of ones except possibly at entry `a`, which holds `v`. */
  predicate OnesBut(ws: seq<nat>, a: int, v: nat)
  {
    forall j :: 0 <= j < |ws| ==> ws[j] == if j == a then v else 1
  }

  /**
   * Such a shape has `v` elements (or 1 when `a` is no entry), and the position of a
   * multi-index into it is its coordinate along `a`.
   */
  lemma {:induction false} OnesButIndex(ws: seq<nat>, a: int, v: nat, t: seq<nat>)
    requires OnesBut(ws, a, v)
    ensures Prod(ws) == if 0 <= a < |ws| then v else 1
    ensures InRange(ws, t) ==> FlatIndex(ws, t) == if 0 <= a < |ws| then t[a] else 0
  {
    if ws != [] {
      var t' := if |t| > 0 then t[1..] else [];
      OnesButIndex(ws[1..], a - 1, v, t');
      if a == 0 {
        assert Prod(ws[1..]) == 1;
      }
    }
  }

  /** `w.reshape(wshape)` is defined: `wshape` has `w.size` elements. */
  lemma WeightShapeSize(ndim: nat, wsize: nat, baseAxis: int)
    requires WeightShape(ndim, wsize, baseAxis).Success?
    ensures Prod(WeightShape(ndim, wsize, baseAxis).value) == wsize
  {
    var ws := WeightShape(ndim, wsize, baseAxis).value;
    var a := if wsize != 1 then ListIndex(baseAxis, ndim).value as int else -1;
    OnesButIndex(ws, a, wsize, []);
  }

  /** The broadcast of `wshape` against the shape of `x` needs no expansion of `x`. */
  predicate Broadcastable(shape: seq<nat>, wsize: nat, baseAxis: int)
  {
    wsize != 1 && ListIndex(baseAxis, |shape|).Some? ==> shape[ListIndex(baseAxis, |shape|).value] == wsize
  }

  /** numpy broadcasting: a coordinate along an axis of size 1 of `ws` reads entry 0. */
  function BroadcastIndex(ws: seq<nat>, t: seq<nat>): (r: seq<nat>)
    requires |t| == |ws|
    ensures |r| == |ws| && forall j :: 0 <= j < |ws| ==> r[j] == if ws[j] == 1 then 0 else t[j]
  {
    seq(|ws|, j requires 0 <= j < |ws| => if ws[j] == 1 then 0 else t[j])
  }

  /** The slope for element `p` of `x`: the element of `w.reshape(wshape)` broadcast to `p`'s multi-index. */
  function SlopeAt(shape: seq<nat>, w: seq<real>, ws: seq<nat>, a: int, p: nat): real
    requires p < Prod(shape) && |ws| == |shape| && OnesBut(ws, a, |w|) && Prod(ws) == |w|
    requires forall j :: 0 <= j < |ws| ==> ws[j] == 1 || ws[j] == shape[j]
  {
    var t := Unflatten(shape, p);
    var b := BroadcastIndex(ws, t);
    assert InRange(ws, b);
    w[FlatIndex(ws, b)]
  }

  /**
   * `ref_prelu(x, w, base_axis)`: the `IndexError` of building `wshape`, or the elementwise
   * result with each element's slope taken from the broadcast weights.
   */
  function RefPReLU(x: seq<real>, shape: seq<nat>, w: seq<real>, baseAxis: int): (r: Result<seq<real>>)
    requires |x| == Prod(shape) && Broadcastable(shape, |w|, baseAxis)
    ensures r.Failure? <==> |w| != 1 && ListIndex(baseAxis, |shape|).None?
    ensures r.Success? ==> |r.value| == |x|
  {
    match WeightShape(|shape|, |w|, baseAxis)
    case Failure(e) => Failure(e)
    case Success(ws) =>
      var a := if |w| != 1 then ListIndex(baseAxis, |shape|).value as int else -1;
      OnesButIndex(ws, a, |w|, []);
      Success(seq(|x|, p requires 0 <= p < |x| => Elem(x[p], SlopeAt(shape, w, ws, a, p))))
  }

  /**
   * The element of `x` at multi-index `t` is scaled, when negative, by the single slope,
   * or by the slope of its channel `t[base_axis]`; a non-negative element passes unchanged.
   */
  lemma RefPReLUAt(x: seq<real>, shape: seq<nat>, w: seq<real>, baseAxis: int, t: seq<nat>)
    requires |x| == Prod(shape) && Broadcastable(shape, |w|, baseAxis)
    requires RefPReLU(x, shape, w, baseAxis).Success? && InRange(shape, t)
    ensures |w| != 1 ==> ListIndex(baseAxis, |shape|).Some? && t[ListIndex(baseAxis, |shape|).value] < |w|
    ensures FlatIndex(shape, t) < |x|
    ensures RefPReLU(x, shape, w, baseAxis).value[FlatIndex(shape, t)] ==
      Elem(x[FlatIndex(shape, t)], if |w| == 1 then w[0] else w[t[ListIndex(baseAxis, |shape|).value]])
  {
    var p := FlatIndex(shape, t);
    if |w| == 1 {
      ScalarSlope(x, shape, w, baseAxis, p);
    } else {
      ChannelSlope(x, shape, w, baseAxis, t);
    }
  }

  /** Per-channel slopes: the element at multi-index `t` takes the slope of its channel along `base_axis`. */
  lemma ChannelSlope(x: seq<real>, shape: seq<nat>, w: seq<real>, baseAxis: int, t: seq<nat>)
    requires |x| == Prod(shape) && Broadcastable(shape, |w|, baseAxis) && |w| != 1
    requires RefPReLU(x, shape, w, baseAxis).Success? && InRange(shape, t)
    ensures ListIndex(baseAxis, |shape|).Some? && t[ListIndex(baseAxis, |shape|).value] < |w|
    ensures FlatIndex(shape, t) < |x|
    ensures RefPReLU(x, shape, w, baseAxis).value[FlatIndex(shape, t)] ==
      Elem(x[FlatIndex(shape, t)], w[t[ListIndex(baseAxis, |shape|).value]])
  {
    var p := FlatIndex(shape, t);
    var ws := WeightShape(|shape|, |w|, baseAxis).value;
    var a := ListIndex(baseAxis, |shape|).value;
    UnflattenFlat(shape, t);
    var b := BroadcastIndex(ws, t);
    assert InRange(ws, b);
    OnesButIndex(ws, a, |w|, b);
    assert SlopeAt(shape, w, ws, a, p) == w[t[a]];
    assert RefPReLU(x, shape, w, baseAxis).value[p] == Elem(x[p], SlopeAt(shape, w, ws, a, p));
  }

  /** A single slope applies to every negative element alike: a leaky ReLU. */
  lemma ScalarSlope(x: seq<real>, shape: seq<nat>, w: seq<real>, baseAxis: int, p: nat)
    requires |x| == Prod(shape) && |w| == 1 && p < |x|
    ensures Broadcastable(shape, |w|, baseAxis) && RefPReLU(x, shape, w, baseAxis).Success?
    ensures RefPReLU(x, shape, w, baseAxis).value[p] == Elem(x[p], w[0])
  {
    var ws := WeightShape(|shape|, |w|, baseAxis).value;
    var t := Unflatten(shape, p);
    var b := BroadcastIndex(ws, t);
    assert InRange(ws, b);
    OnesButIndex(ws, -1, |w|, b);
  }
}
