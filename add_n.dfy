/**
 * `ref_function` of `test_add_n.py` (the elementwise sum of any number of arrays of one
 * shape) and the active-input-mask property of `test_add_n_active_inputs`: an `add_n`
 * whose inactive inputs are masked out behaves like an `add_n` built from the active
 * inputs only, forward and backward. Arrays are flattened in row-major order.
 */
module AddN {
  import opened Wrappers

  /** The accumulator `y`: the integer `0` it starts as, or the array it becomes. */
  datatype Acc = Zero | Tensor(vs: seq<real>)

  /** Every input has `n` elements. */
  predicate SameShape(inputs: seq<seq<real>>, n: nat)
  {
    forall i :: 0 <= i < |inputs| ==> |inputs[i]| == n
  }

  /** Element `p` of the sum of `inputs`, added in order. */
  function ColumnSum(inputs: seq<seq<real>>, p: nat): real
    requires forall i :: 0 <= i < |inputs| ==> p < |inputs[i]|
  {
    if inputs == [] then 0.0
    else ColumnSum(inputs[..|inputs| - 1], p) + inputs[|inputs| - 1][p]
  }

  /** `y += x`: `0 + x` makes a new array, an array accumulates elementwise. */
  function AddTo(y: Acc, x: seq<real>): (r: Acc)
    requires y.Tensor? ==> |y.vs| == |x|
    ensures r.Tensor? && |r.vs| == |x|
    ensures forall p :: 0 <= p < |x| ==> r.vs[p] == (if y.Zero? then 0.0 else y.vs[p]) + x[p]
  {
    match y
    case Zero => Tensor(seq(|x|, p requires 0 <= p < |x| => 0.0 + x[p]))
    case Tensor(vs) => Tensor(seq(|x|, p requires 0 <= p < |x| => vs[p] + x[p]))
  }

  /**
   * `ref_function(*inputs)`: `y = 0`, then `y += inputs[i]` for each input in order.
   * With no inputs the result is the integer `0`; otherwise each element of the result
   * is the sum of that element over all inputs.
   */
  method RefAddN(inputs: seq<seq<real>>, n: nat) returns (y: Acc)
    requires SameShape(inputs, n)
    ensures |inputs| == 0 <==> y == Zero
    ensures y.Tensor? ==> |y.vs| == n && forall p :: 0 <= p < n ==> y.vs[p] == ColumnSum(inputs, p)
  {
    y := Zero;
    var i := 0;
    while i < |inputs|
      invariant 0 <= i <= |inputs|
      invariant i == 0 <==> y == Zero
      invariant y.Tensor? ==> |y.vs| == n && forall p :: 0 <= p < n ==> y.vs[p] == ColumnSum(inputs[..i], p)
    {
      assert inputs[..i + 1][..i] == inputs[..i];
      y := AddTo(y, inputs[i]);
      i := i + 1;
    }
    assert inputs[..i] == inputs;
  }

  /** Moving element `p` of input `i` by `e`. */
  function Bump(inputs: seq<seq<real>>, i: nat, p: nat, e: real): (r: seq<seq<real>>)
    requires i < |inputs| && p < |inputs[i]|
    ensures |r| == |inputs| && forall j :: 0 <= j < |inputs| ==> |r[j]| == |inputs[j]|
  {
    inputs[i := inputs[i][p := inputs[i][p] + e]]
  }

  /**
   * The gradient of the sum with respect to any input is the output gradient: moving one
   * element of one input by `e` moves that element of the sum by `e` and no other element.
   */
  lemma {:induction false} SumSlope(inputs: seq<seq<real>>, n: nat, i: nat, p: nat, q: nat, e: real)
    requires SameShape(inputs, n) && i < |inputs| && p < n && q < n
    ensures ColumnSum(Bump(inputs, i, p, e), q) == ColumnSum(inputs, q) + (if q == p then e else 0.0)
  {
    var m := |inputs| - 1;
    var b := Bump(inputs, i, p, e);
    if i < m {
      assert b[..m] == Bump(inputs[..m], i, p, e);
      SumSlope(inputs[..m], n, i, p, q, e);
    } else {
      assert b[..m] == inputs[..m];
    }
  }

  /** The inputs with their active flags: `None` for a masked-out input. */
  function Marked(inputs: seq<seq<real>>, active: seq<bool>): (r: seq<Option<seq<real>>>)
    requires |active| == |inputs|
    ensures |r| == |inputs|
  {
    seq(|inputs|, i requires 0 <= i < |inputs| => if active[i] then Some(inputs[i]) else None)
  }

  /** `[inp for (act, inp) in zip(active, inputs) if act]`: the inputs of the reduced `add_n`. */
  function Active(inputs: seq<seq<real>>, active: seq<bool>): seq<seq<real>>
    requires |active| == |inputs|
  {
    Present(Marked(inputs, active))
  }

  /** The active inputs have the common shape. */
  lemma ActiveShape(inputs: seq<seq<real>>, active: seq<bool>, n: nat)
    requires |active| == |inputs| && SameShape(inputs, n)
    ensures SameShape(Active(inputs, active), n)
  {
    ActivePrefixShape(inputs, active, n, |inputs|);
    assert Marked(inputs, active)[..|inputs|] == Marked(inputs, active);
  }

  lemma {:induction false} ActivePrefixShape(inputs: seq<seq<real>>, active: seq<bool>, n: nat, k: nat)
    requires |active| == |inputs| && SameShape(inputs, n) && k <= |inputs|
    ensures SameShape(Present(Marked(inputs, active)[..k]), n)
  {
    if k > 0 {
      ActivePrefixShape(inputs, active, n, k - 1);
      RankStep(Marked(inputs, active), k - 1);
    }
  }

  /**
   * Element `p` of the forward result of an `add_n` with an active-input mask: the sum,
   * in order, of that element over the active inputs only.
   */
  function MaskedSum(inputs: seq<seq<real>>, active: seq<bool>, p: nat): real
    requires |active| == |inputs| && forall i :: 0 <= i < |inputs| ==> p < |inputs[i]|
  {
    if inputs == [] then 0.0
    else
      var m := |inputs| - 1;
      MaskedSum(inputs[..m], active[..m], p) + (if active[m] then inputs[m][p] else 0.0)
  }

  /** The masked forward result equals the result of `add_n` over the active inputs. */
  lemma {:induction false} MaskedIsReduced(inputs: seq<seq<real>>, active: seq<bool>, n: nat, p: nat)
    requires |active| == |inputs| && SameShape(inputs, n) && p < n
    ensures SameShape(Active(inputs, active), n)
    ensures MaskedSum(inputs, active, p) == ColumnSum(Active(inputs, active), p)
  {
    ActiveShape(inputs, active, n);
    if inputs != [] {
      var m := |inputs| - 1;
      MaskedIsReduced(inputs[..m], active[..m], n, p);
      var mk := Marked(inputs, active);
      assert Marked(inputs[..m], active[..m]) == mk[..m];
      RankStep(mk, m);
      assert mk[..m + 1] == mk;
      var a := Active(inputs, active);
      if active[m] {
        assert a[..|a| - 1] == Active(inputs[..m], active[..m]);
      } else {
        assert a == Active(inputs[..m], active[..m]);
      }
    }
  }

  /**
   * The gradient an input receives from a masked `add_n`: moving one element of an active
   * input by `e` moves that element of the masked sum by `e`, exactly as moving the same
   * element of the same input moves the sum of the reduced `add_n` (that input is the one
   * at its rank among the active inputs). An inactive input does not affect the sum.
   */
  lemma {:induction false} MaskedSlope(inputs: seq<seq<real>>, active: seq<bool>, n: nat, i: nat, p: nat, e: real)
    requires |active| == |inputs| && SameShape(inputs, n) && i < |inputs| && p < n
    ensures MaskedSum(Bump(inputs, i, p, e), active, p) == MaskedSum(inputs, active, p) + (if active[i] then e else 0.0)
  {
    var m := |inputs| - 1;
    var b := Bump(inputs, i, p, e);
    if i < m {
      assert b[..m] == Bump(inputs[..m], i, p, e);
      MaskedSlope(inputs[..m], active[..m], n, i, p, e);
    } else {
      assert b[..m] == inputs[..m];
    }
  }

  /**
   * With zeroed input gradients, an active input of the masked `add_n` receives the same
   * gradient as its counterpart in the reduced `add_n`: both sums have slope 1 along the
   * input's elements.
   */
  lemma ActiveGradientMatches(inputs: seq<seq<real>>, active: seq<bool>, n: nat, i: nat, p: nat, e: real)
    requires |active| == |inputs| && SameShape(inputs, n) && i < |inputs| && active[i] && p < n
    ensures SameShape(Active(inputs, active), n)
    ensures Rank(Marked(inputs, active), i) < |Active(inputs, active)|
    ensures Active(inputs, active)[Rank(Marked(inputs, active), i)] == inputs[i]
    ensures MaskedSum(Bump(inputs, i, p, e), active, p) - MaskedSum(inputs, active, p) ==
      ColumnSum(Bump(Active(inputs, active), Rank(Marked(inputs, active), i), p, e), p) -
      ColumnSum(Active(inputs, active), p)
  {
    var a := Active(inputs, active);
    var r := Rank(Marked(inputs, active), i);
    PresentAt(Marked(inputs, active), i);
    ActiveShape(inputs, active, n);
    MaskedSlope(inputs, active, n, i, p, e);
    SumSlope(a, n, r, p, p, e);
  }
}
