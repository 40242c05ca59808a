/**
 * `ref_top_k_grad` of `test_top_k_grad.py`: the gradient is viewed as `outer_dim` rows of
 * `inner_dim` elements (split at `base_axis`); in each row only the `k` elements with the
 * largest keys (the values, or their magnitudes when `abs` is set) keep their gradient and
 * every other element gets 0. Arrays are flattened in row-major order.
 */
module TopKGrad {
  import opened Tensors

  /** The sort key of one gradient value: `np.abs(gg) if abs else gg`. */
  function Key(v: real, abs: bool): (r: real)
    ensures !abs ==> r == v
    ensures abs ==> r >= 0.0 && (r == v || r == -v)
  {
    if abs && v < 0.0 then -v else v
  }

  /** The sort keys of one row. */
  function Keys(row: seq<real>, abs: bool): (r: seq<real>)
    ensures |r| == |row| && forall c :: 0 <= c < |row| ==> r[c] == Key(row[c], abs)
  {
    seq(|row|, c requires 0 <= c < |row| => Key(row[c], abs))
  }

  /** No column is listed twice. */
  predicate Distinct(ix: seq<nat>)
  {
    forall p, q :: 0 <= p < q < |ix| ==> ix[p] != ix[q]
  }

  /** Columns of a row with `n` elements, in nondecreasing key order. */
  predicate Sorted(ix: seq<nat>, keys: seq<real>)
  {
    (forall p :: 0 <= p < |ix| ==> ix[p] < |keys|) &&
    forall p, q :: 0 <= p < q < |ix| ==> keys[ix[p]] <= keys[ix[q]]
  }

  /** `ix` lists every column `0 .. n - 1` exactly once. */
  predicate IsPermutation(ix: seq<nat>, n: nat)
  {
    |ix| == n && Distinct(ix) &&
    (forall p :: 0 <= p < n ==> ix[p] < n) && forall c :: 0 <= c < n ==> c in ix
  }

  /** `ix` is an argsort of `keys`: a permutation of the columns in nondecreasing key order. */
  predicate ArgSorted(ix: seq<nat>, keys: seq<real>)
  {
    IsPermutation(ix, |keys|) && Sorted(ix, keys)
  }

  /** Inserts column `j` into a sorted list of columns, after every column whose key is at most `keys[j]`. */
  function Insert(ix: seq<nat>, keys: seq<real>, j: nat): (r: seq<nat>)
    requires j < |keys| && forall p :: 0 <= p < |ix| ==> ix[p] < |keys|
    ensures |r| == |ix| + 1
    ensures forall c :: c in r <==> c in ix || c == j
    ensures forall p :: 0 <= p < |r| ==> r[p] < |keys|
  {
    if ix == [] then [j]
    else
      var m := |ix| - 1;
      if keys[ix[m]] <= keys[j] then ix + [j]
      else
        assert ix == ix[..m] + [ix[m]];
        Insert(ix[..m], keys, j) + [ix[m]]
  }

  /** Inserting a new column into a list without repeats keeps it without repeats. */
  lemma {:induction false} InsertDistinct(ix: seq<nat>, keys: seq<real>, j: nat)
    requires j < |keys| && forall p :: 0 <= p < |ix| ==> ix[p] < |keys|
    requires Distinct(ix) && j !in ix
    ensures Distinct(Insert(ix, keys, j))
  {
    if ix != [] {
      var m := |ix| - 1;
      if keys[j] < keys[ix[m]] {
        assert j !in ix[..m];
        InsertDistinct(ix[..m], keys, j);
        assert ix[m] !in ix[..m];
      }
    }
  }

  /** Appending a column whose key bounds every listed key keeps a list sorted. */
  lemma SortedAppend(ix: seq<nat>, keys: seq<real>, j: nat)
    requires j < |keys| && Sorted(ix, keys)
    requires forall p :: 0 <= p < |ix| ==> keys[ix[p]] <= keys[j]
    ensures Sorted(ix + [j], keys)
  {
  }

  /** Inserting into a sorted list of columns keeps it sorted. */
  lemma {:induction false} InsertSorted(ix: seq<nat>, keys: seq<real>, j: nat)
    requires j < |keys| && Sorted(ix, keys)
    ensures Sorted(Insert(ix, keys, j), keys)
  {
    if ix != [] {
      var m := |ix| - 1;
      var last := ix[m];
      assert forall p :: 0 <= p < m ==> keys[ix[p]] <= keys[last];
      if keys[j] < keys[last] {
        var front := ix[..m];
        assert Sorted(front, keys);
        InsertSorted(front, keys, j);
        var init := Insert(front, keys, j);
        assert Insert(ix, keys, j) == init + [last];
        forall p | 0 <= p < |init|
          ensures keys[init[p]] <= keys[last]
        {
          if init[p] != j {
            assert init[p] in front;
            var q :| 0 <= q < m && front[q] == init[p];
          }
        }
        SortedAppend(init, keys, last);
      } else {
        assert Insert(ix, keys, j) == ix + [j];
        SortedAppend(ix, keys, j);
      }
    }
  }

  /** A stable argsort of the first `m` columns, by insertion. */
  function ArgSortPrefix(keys: seq<real>, m: nat): (r: seq<nat>)
    requires m <= |keys|
    ensures |r| == m && Distinct(r) && Sorted(r, keys)
    ensures forall c: nat :: c in r <==> c < m
  {
    if m == 0 then []
    else
      var init := ArgSortPrefix(keys, m - 1);
      InsertDistinct(init, keys, m - 1);
      InsertSorted(init, keys, m - 1);
      Insert(init, keys, m - 1)
  }

  /** `np.argsort` of one row, in a stable order (any order of equal keys is allowed by numpy). */
  function ArgSort(keys: seq<real>): (r: seq<nat>)
    ensures ArgSorted(r, keys)
  {
    ArgSortPrefix(keys, |keys|)
  }

  /** `ix[-k:]`: the last `k` columns of the argsort, all of them when `k` is 0 or exceeds the row. */
  function Kept(ix: seq<nat>, k: int): (r: seq<nat>)
    ensures k == 0 || k >= |ix| ==> r == ix
    ensures 0 < k <= |ix| ==> |r| == k
  {
    ix[SliceBound(-k, |ix|)..]
  }

  /**
   * Whatever order an argsort gives equal keys, every kept column has a key at least as
   * large as every dropped column, and no column is kept twice.
   */
  lemma KeptAreLargest(ix: seq<nat>, keys: seq<real>, k: int, c: nat, d: nat)
    requires ArgSorted(ix, keys) && c in Kept(ix, k) && d < |keys| && d !in Kept(ix, k)
    ensures c < |keys| && keys[d] <= keys[c]
    ensures Distinct(Kept(ix, k))
  {
    var s := SliceBound(-k, |ix|);
    var p :| s <= p < |ix| && ix[p] == c;
    assert d in ix;
    var q :| 0 <= q < |ix| && ix[q] == d;
  }

  /** The sizes before and after `base_axis`: `outer_dim` and `inner_dim`. */
  function Outer(shape: seq<nat>, baseAxis: int): nat
  {
    Prod(shape[..SliceBound(baseAxis, |shape|)])
  }

  function Inner(shape: seq<nat>, baseAxis: int): nat
  {
    Prod(shape[SliceBound(baseAxis, |shape|)..])
  }

  /** The split at `base_axis` covers the whole gradient. */
  lemma OuterInner(shape: seq<nat>, baseAxis: int)
    ensures Outer(shape, baseAxis) * Inner(shape, baseAxis) == Prod(shape)
  {
    ProdSplit(shape, SliceBound(baseAxis, |shape|));
  }

  /** The columns of row `r` of `gg` that keep their gradient. */
  function KeptColumns(gg: seq<seq<real>>, r: nat, k: int, abs: bool): seq<nat>
    requires r < |gg|
  {
    Kept(ArgSort(Keys(gg[r], abs)), k)
  }

  /** The kept columns are columns of the row. */
  lemma KeptColumnsBound(gg: seq<seq<real>>, r: nat, k: int, abs: bool)
    requires r < |gg|
    ensures forall p :: 0 <= p < |KeptColumns(gg, r, k, abs)| ==> KeptColumns(gg, r, k, abs)[p] < |gg[r]|
  {
    var sorted := ArgSort(Keys(gg[r], abs));
    assert forall p :: 0 <= p < |KeptColumns(gg, r, k, abs)| ==> KeptColumns(gg, r, k, abs)[p] in sorted;
  }

  /** `dx[idx, row] = vals[row]`: writes the listed columns of one row of `dx`. */
  method CopyColumns(dx: array2<real>, idx: nat, row: seq<nat>, vals: seq<real>)
    requires idx < dx.Length0 && |vals| == dx.Length1
    requires forall p :: 0 <= p < |row| ==> row[p] < dx.Length1
    modifies dx
    ensures forall r, c :: 0 <= r < dx.Length0 && 0 <= c < dx.Length1 ==>
      dx[r, c] == if r == idx && c in row then vals[c] else old(dx[r, c])
  {
    for p := 0 to |row|
      invariant forall r, c :: 0 <= r < dx.Length0 && 0 <= c < dx.Length1 ==>
        dx[r, c] == if r == idx && c in row[..p] then vals[c] else old(dx[r, c])
    {
      dx[idx, row[p]] := vals[row[p]];
      assert row[..p + 1] == row[..p] + [row[p]];
    }
    assert row[..|row|] == row;
  }

  /**
   * `ref_top_k_grad(k, abs, base_axis, grad)`: `dx` starts as zeros of shape
   * `(outer_dim, inner_dim)`, and `dx[idx, row] = gg[idx, row]` copies, row by row, the
   * gradient at the kept columns. (`squeeze` and the final `reshape` leave the row-major
   * data unchanged.)
   */
  method RefTopKGrad(k: int, abs: bool, baseAxis: int, shape: seq<nat>, grad: seq<real>)
    returns (dx: array2<real>)
    requires |grad| == Prod(shape)
    ensures fresh(dx) && dx.Length0 == Outer(shape, baseAxis) && dx.Length1 == Inner(shape, baseAxis)
    ensures Outer(shape, baseAxis) * Inner(shape, baseAxis) == |grad|
    ensures forall r, c :: 0 <= r < dx.Length0 && 0 <= c < dx.Length1 ==>
      var gg := Rows(grad, dx.Length0, dx.Length1);
      dx[r, c] == if c in KeptColumns(gg, r, k, abs) then gg[r][c] else 0.0
  {
    var outerDim, innerDim := Outer(shape, baseAxis), Inner(shape, baseAxis);
    OuterInner(shape, baseAxis);
    var gg := Rows(grad, outerDim, innerDim);
    var ix := seq(outerDim, r requires 0 <= r < outerDim => KeptColumns(gg, r, k, abs));
    dx := new real[outerDim, innerDim]((_, _) => 0.0);
    for idx := 0 to outerDim
      invariant forall r, c :: 0 <= r < outerDim && 0 <= c < innerDim ==>
        dx[r, c] == if r < idx && c in ix[r] then gg[r][c] else 0.0
    {
      KeptColumnsBound(gg, idx, k, abs);
      CopyColumns(dx, idx, ix[idx], gg[idx]);
    }
  }

  /**
   * `ref_top_k_grad_bw(x, g, k, abs, base_axis)`: `ref_top_k_grad` of the output gradient
   * `g`, flattened. The result has as many elements as `g`, and reshaping it into
   * `outer_dim` rows of `inner_dim` gives back `dx`.
   */
  method RefTopKGradBw(k: int, abs: bool, baseAxis: int, shape: seq<nat>, g: seq<real>) returns (r: seq<real>)
    requires |g| == Prod(shape)
    ensures |r| == |g| && Outer(shape, baseAxis) * Inner(shape, baseAxis) == |g|
    ensures forall i, c :: 0 <= i < Outer(shape, baseAxis) && 0 <= c < Inner(shape, baseAxis) ==>
      var outerDim, innerDim := Outer(shape, baseAxis), Inner(shape, baseAxis);
      var gg := Rows(g, outerDim, innerDim);
      Rows(r, outerDim, innerDim)[i][c] == if c in KeptColumns(gg, i, k, abs) then gg[i][c] else 0.0
  {
    var dx := RefTopKGrad(k, abs, baseAxis, shape, g);
    var rows := seq(dx.Length0, i requires 0 <= i < dx.Length0 reads dx =>
      seq(dx.Length1, c requires 0 <= c < dx.Length1 reads dx => dx[i, c]));
    r := Concat(rows);
    FlattenRows(rows, dx.Length0, dx.Length1);
    assert Rows(r, Outer(shape, baseAxis), Inner(shape, baseAxis)) == rows;
  }
}
