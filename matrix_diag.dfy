/**
 * `ref_matrix_diag` of `test_matrix_diag.py`: `y` is a zero array of shape
 * `x.shape + (x.shape[-1],)`; for a batch of vectors (rank 2) or a batch of batches
 * (rank 3) every vector `v` of `x` becomes the square matrix `np.diag(v)` in `y`. For
 * any other rank `y` stays all zeros.
 */
module MatrixDiag {
  import opened Wrappers
  import opened Tensors

  /** `np.diag(v)` of a vector: the square matrix with `v` on its diagonal and zeros elsewhere. */
  function Diag(v: seq<real>): (m: seq<seq<real>>)
    ensures |m| == |v| && forall i :: 0 <= i < |v| ==> |m[i]| == |v|
  {
    seq(|v|, i requires 0 <= i < |v| => seq(|v|, j requires 0 <= j < |v| => if i == j then v[i] else 0.0))
  }

  /** `np.diag(m)` of a square matrix: its diagonal. */
  function Diagonal(m: seq<seq<real>>): (v: seq<real>)
    requires forall i :: 0 <= i < |m| ==> |m[i]| == |m|
    ensures |v| == |m|
  {
    seq(|m|, i requires 0 <= i < |m| => m[i][i])
  }

  /** The diagonal of `np.diag(v)` is `v`, and everything off it is zero. */
  lemma DiagRoundTrip(v: seq<real>)
    ensures Diagonal(Diag(v)) == v
    ensures forall i, j :: 0 <= i < |v| && 0 <= j < |v| && i != j ==> Diag(v)[i][j] == 0.0
  {
  }

  /** Row `b` of a matrix, `x[b, :]`. */
  function Row2(x: array2<real>, b: nat): (r: seq<real>)
    requires b < x.Length0
    reads x
    ensures |r| == x.Length1 && forall i :: 0 <= i < x.Length1 ==> r[i] == x[b, i]
  {
    seq(x.Length1, i requires 0 <= i < x.Length1 reads x => x[b, i])
  }

  /** Vector `(t, b)` of a rank-3 array, `x[t, b, :]`. */
  function Row3(x: array3<real>, t: nat, b: nat): (r: seq<real>)
    requires t < x.Length0 && b < x.Length1
    reads x
    ensures |r| == x.Length2 && forall i :: 0 <= i < x.Length2 ==> r[i] == x[t, b, i]
  {
    seq(x.Length2, i requires 0 <= i < x.Length2 reads x => x[t, b, i])
  }

  /** `y[b, :, :] = m`. */
  method AssignSlab3(y: array3<real>, b: nat, m: seq<seq<real>>)
    requires b < y.Length0 && |m| == y.Length1 && forall i :: 0 <= i < |m| ==> |m[i]| == y.Length2
    modifies y
    ensures forall b', i, j :: 0 <= b' < y.Length0 && 0 <= i < y.Length1 && 0 <= j < y.Length2 ==>
      y[b', i, j] == if b' == b then m[i][j] else old(y[b', i, j])
  {
    for i := 0 to y.Length1
      invariant forall b', i', j :: 0 <= b' < y.Length0 && 0 <= i' < y.Length1 && 0 <= j < y.Length2 ==>
        y[b', i', j] == if b' == b && i' < i then m[i'][j] else old(y[b', i', j])
    {
      for j := 0 to y.Length2
        invariant forall b', i', j' :: 0 <= b' < y.Length0 && 0 <= i' < y.Length1 && 0 <= j' < y.Length2 ==>
          y[b', i', j'] == if b' == b && (i' < i || (i' == i && j' < j)) then m[i'][j'] else old(y[b', i', j'])
      {
        y[b, i, j] := m[i][j];
      }
    }
  }

  /** `y[t, b, :, :] = m`. */
  method AssignSlab4(y: array4<real>, t: nat, b: nat, m: seq<seq<real>>)
    requires t < y.Length0 && b < y.Length1 && |m| == y.Length2 && forall i :: 0 <= i < |m| ==> |m[i]| == y.Length3
    modifies y
    ensures forall t', b', i, j :: 0 <= t' < y.Length0 && 0 <= b' < y.Length1 && 0 <= i < y.Length2 && 0 <= j < y.Length3 ==>
      y[t', b', i, j] == if t' == t && b' == b then m[i][j] else old(y[t', b', i, j])
  {
    for i := 0 to y.Length2
      invariant forall t', b', i', j :: 0 <= t' < y.Length0 && 0 <= b' < y.Length1 && 0 <= i' < y.Length2 && 0 <= j < y.Length3 ==>
        y[t', b', i', j] == if t' == t && b' == b && i' < i then m[i'][j] else old(y[t', b', i', j])
    {
      for j := 0 to y.Length3
        invariant forall t', b', i', j' :: 0 <= t' < y.Length0 && 0 <= b' < y.Length1 && 0 <= i' < y.Length2 && 0 <= j' < y.Length3 ==>
          y[t', b', i', j'] == if t' == t && b' == b && (i' < i || (i' == i && j' < j)) then m[i'][j'] else old(y[t', b', i', j'])
      {
        y[t, b, i, j] := m[i][j];
      }
    }
  }

  /**
   * `ref_matrix_diag(x)` for `x` of rank 2, shape `(B, d)`: `y` of shape `(B, d, d)` holds
   * `x[b, i]` at `[b, i, i]` and zero everywhere else.
   */
  method RefMatrixDiag2(x: array2<real>) returns (y: array3<real>)
    ensures fresh(y) && y.Length0 == x.Length0 && y.Length1 == x.Length1 && y.Length2 == x.Length1
    ensures forall b, i, j :: 0 <= b < y.Length0 && 0 <= i < y.Length1 && 0 <= j < y.Length2 ==>
      y[b, i, j] == if i == j then x[b, i] else 0.0
  {
    y := new real[x.Length0, x.Length1, x.Length1]((_, _, _) => 0.0);
    for b := 0 to x.Length0
      invariant forall b', i, j :: 0 <= b' < y.Length0 && 0 <= i < y.Length1 && 0 <= j < y.Length2 ==>
        y[b', i, j] == if b' < b && i == j then x[b', i] else 0.0
    {
      AssignSlab3(y, b, Diag(Row2(x, b)));
    }
  }

  /**
   * `ref_matrix_diag(x)` for `x` of rank 3, shape `(T, B, d)`: `y` of shape `(T, B, d, d)`
   * holds `x[t, b, i]` at `[t, b, i, i]` and zero everywhere else.
   */
  method RefMatrixDiag3(x: array3<real>) returns (y: array4<real>)
    ensures fresh(y) && y.Length0 == x.Length0 && y.Length1 == x.Length1
    ensures y.Length2 == x.Length2 && y.Length3 == x.Length2
    ensures forall t, b, i, j :: 0 <= t < y.Length0 && 0 <= b < y.Length1 && 0 <= i < y.Length2 && 0 <= j < y.Length3 ==>
      y[t, b, i, j] == if i == j then x[t, b, i] else 0.0
  {
    y := new real[x.Length0, x.Length1, x.Length2, x.Length2]((_, _, _, _) => 0.0);
    for t := 0 to x.Length0
      invariant forall t', b', i, j :: 0 <= t' < y.Length0 && 0 <= b' < y.Length1 && 0 <= i < y.Length2 && 0 <= j < y.Length3 ==>
        y[t', b', i, j] == if t' < t && i == j then x[t', b', i] else 0.0
    {
      for b := 0 to x.Length1
        invariant forall t', b', i, j :: 0 <= t' < y.Length0 && 0 <= b' < y.Length1 && 0 <= i < y.Length2 && 0 <= j < y.Length3 ==>
          y[t', b', i, j] == if (t' < t || (t' == t && b' < b)) && i == j then x[t', b', i] else 0.0
      {
        AssignSlab4(y, t, b, Diag(Row3(x, t, b)));
      }
    }
  }

  /**
   * `ref_matrix_diag(x)` for any other rank, on the flattened result: all zeros of shape
   * `x.shape + (x.shape[-1],)`; a rank-0 `x` has no last dimension (`IndexError`).
   */
  function RefMatrixDiagOther(shape: seq<nat>): (r: Result<seq<real>>)
    requires |shape| != 2 && |shape| != 3
    ensures r.Failure? <==> shape == []
    ensures r.Success? ==> |r.value| == Prod(shape) * shape[|shape| - 1]
    ensures r.Success? ==> forall p :: 0 <= p < |r.value| ==> r.value[p] == 0.0
  {
    if shape == [] then Failure("tuple index out of range")
    else
      var d := shape[|shape| - 1];
      ProdSplit(shape + [d], |shape|);
      assert (shape + [d])[..|shape|] == shape && (shape + [d])[|shape|..] == [d];
      Success(seq(Prod(shape + [d]), _ => 0.0))
  }
}
