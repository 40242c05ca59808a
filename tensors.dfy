/**
 * Flat, row-major tensors and the size bookkeeping the test harness does with
 * them: element counts of shapes, concatenation of flattened tensors, the
 * prefix-sum offset table and splitting a flat vector back into pieces.
 */
module Tensors {

  /** Number of elements of a tensor of shape `shape` (numpy's `prod`, 1 for `()`). */
  function Prod(shape: seq<nat>): nat
  {
    if shape == [] then 1 else shape[0] * Prod(shape[1..])
  }

  /** Sum of a sequence of sizes. */
  function Sum(sizes: seq<nat>): nat
  {
    if sizes == [] then 0 else Sum(sizes[..|sizes| - 1]) + sizes[|sizes| - 1]
  }

  /** Lengths of the pieces, in order. */
  function Lengths<T>(parts: seq<seq<T>>): (r: seq<nat>)
    ensures |r| == |parts|
    ensures forall k :: 0 <= k < |parts| ==> r[k] == |parts[k]|
  {
    seq(|parts|, k requires 0 <= k < |parts| => |parts[k]|)
  }

  /** Concatenation of the pieces, in order (`np.concatenate` of flattened arrays). */
  function Concat<T>(parts: seq<seq<T>>): (r: seq<T>)
    ensures |r| == Sum(Lengths(parts))
  {
    if parts == [] then []
    else
      assert Lengths(parts[..|parts| - 1]) == Lengths(parts)[..|parts| - 1];
      Concat(parts[..|parts| - 1]) + parts[|parts| - 1]
  }

  /** The vector of `n` zeros. */
  function Zeros(n: nat): (r: seq<real>)
    ensures |r| == n && forall i :: 0 <= i < n ==> r[i] == 0.0
  {
    seq(n, _ => 0.0)
  }

  /**
   * The offset table `[0, s0, s0 + s1, ...]`: entry `k` is where piece `k`
   * starts in the concatenation and entry `k + 1` is where it ends.
   */
  function Seps(sizes: seq<nat>): (r: seq<nat>)
    ensures |r| == |sizes| + 1
    ensures r[0] == 0 && r[|sizes|] == Sum(sizes)
    ensures forall k {:trigger sizes[k]} :: 0 <= k < |sizes| ==> r[k + 1] == r[k] + sizes[k]
  {
    if sizes == [] then [0]
    else
      var prev := Seps(sizes[..|sizes| - 1]);
      assert forall k :: 0 <= k < |sizes| - 1 ==> sizes[..|sizes| - 1][k] == sizes[k];
      prev + [prev[|sizes| - 1] + sizes[|sizes| - 1]]
  }

  /** Offsets never decrease, so every piece lies inside the concatenation. */
  lemma {:induction false} SepsMonotone(sizes: seq<nat>, i: nat, j: nat)
    requires i <= j <= |sizes|
    ensures Seps(sizes)[i] <= Seps(sizes)[j] <= Sum(sizes)
    decreases |sizes| - i
  {
    if i < j {
      SepsMonotone(sizes, i + 1, j);
      assert Seps(sizes)[i + 1] == Seps(sizes)[i] + sizes[i];
    } else if j < |sizes| {
      SepsMonotone(sizes, j + 1, |sizes|);
      assert Seps(sizes)[j + 1] == Seps(sizes)[j] + sizes[j];
    }
  }

  /** The pieces of `x` cut at successive sizes (a tail beyond the sizes is ignored). */
  function Split<T>(x: seq<T>, sizes: seq<nat>): (r: seq<seq<T>>)
    requires Sum(sizes) <= |x|
    ensures |r| == |sizes|
    ensures forall k :: 0 <= k < |sizes| ==> |r[k]| == sizes[k]
    decreases |sizes|
  {
    if sizes == [] then []
    else
      var n := |sizes| - 1;
      var init := Split(x[..Sum(sizes[..n])], sizes[..n]);
      assert forall k :: 0 <= k < n ==> sizes[..n][k] == sizes[k];
      init + [x[Sum(sizes[..n])..Sum(sizes)]]
  }

  /** Piece `k` of a split is the slice between offsets `k` and `k + 1` of the offset table. */
  lemma {:induction false} SplitAt<T>(x: seq<T>, sizes: seq<nat>, k: nat)
    requires Sum(sizes) <= |x| && k < |sizes|
    ensures Seps(sizes)[k] <= Seps(sizes)[k + 1] <= |x|
    ensures Split(x, sizes)[k] == x[Seps(sizes)[k]..Seps(sizes)[k + 1]]
    decreases |sizes|
  {
    var n := |sizes| - 1;
    SepsMonotone(sizes, k + 1, |sizes|);
    if k < n {
      assert Seps(sizes)[..n + 1] == Seps(sizes[..n]);
      SepsMonotone(sizes[..n], k + 1, n);
      SplitAt(x[..Sum(sizes[..n])], sizes[..n], k);
    }
  }

  /** Cutting a concatenation at the lengths of its pieces gives back every piece. */
  lemma {:induction false} SplitConcat<T>(parts: seq<seq<T>>)
    ensures Split(Concat(parts), Lengths(parts)) == parts
  {
    if parts != [] {
      var n := |parts| - 1;
      var init := parts[..n];
      var sizes := Lengths(parts);
      assert sizes[..n] == Lengths(init);
      SplitConcat(init);
      var c := Concat(parts);
      assert c == Concat(init) + parts[n];
      assert c[..Sum(sizes[..n])] == Concat(init);
      assert c[Sum(sizes[..n])..Sum(sizes)] == parts[n];
      assert Split(c, sizes) == Split(Concat(init), Lengths(init)) + [parts[n]];
      assert parts == init + [parts[n]];
    }
  }

  /** Splitting a vector of exactly the total size and concatenating the pieces gives back the vector. */
  lemma {:induction false} ConcatSplit<T>(x: seq<T>, sizes: seq<nat>)
    requires |x| == Sum(sizes)
    ensures Concat(Split(x, sizes)) == x
    decreases |sizes|
  {
    if sizes != [] {
      var n := |sizes| - 1;
      var m := Sum(sizes[..n]);
      var init := Split(x[..m], sizes[..n]);
      var parts := Split(x, sizes);
      ConcatSplit(x[..m], sizes[..n]);
      assert x[m..Sum(sizes)] == x[m..];
      assert parts == init + [x[m..Sum(sizes)]];
      assert parts[..n] == init;
      assert Concat(parts) == Concat(init) + x[m..];
      assert x == x[..m] + x[m..];
    }
  }

  /**
   * Python's normalisation of a slice bound `b` for a sequence of length `len`:
   * a negative bound counts from the end and the result is clamped to `[0, len]`.
   */
  function SliceBound(b: int, len: nat): (r: nat)
    ensures r <= len
    ensures 0 <= b <= len ==> r == b
    ensures -(len as int) <= b < 0 ==> r == len + b
    ensures b < -(len as int) ==> r == 0
    ensures len < b ==> r == len
  {
    if b < 0 then (if b + len < 0 then 0 else b + len)
    else if b > len then len else b
  }

  /** Splitting a shape anywhere: the sizes of the two halves multiply to the whole size. */
  lemma {:induction false} ProdSplit(shape: seq<nat>, c: nat)
    requires c <= |shape|
    ensures Prod(shape[..c]) * Prod(shape[c..]) == Prod(shape)
  {
    if c > 0 {
      ProdSplit(shape[1..], c - 1);
      assert shape[1..][..c - 1] == shape[..c][1..];
      assert shape[1..][c - 1..] == shape[c..];
      var x, y := Prod(shape[..c][1..]), Prod(shape[c..]);
      assert Prod(shape[..c]) == shape[0] * x;
      assert x * y == Prod(shape[1..]);
      MulAssoc(shape[0], x, y);
    } else {
      assert shape[..0] == [] && shape[0..] == shape;
    }
  }

  lemma MulAssoc(a: nat, b: nat, c: nat)
    ensures (a * b) * c == a * (b * c)
  {
  }

  /** `n` copies of the size `size`. */
  function Repeat(size: nat, n: nat): (r: seq<nat>)
    ensures |r| == n && forall i :: 0 <= i < n ==> r[i] == size
  {
    seq(n, _ => size)
  }

  /** `n` pieces of equal size `size` have total size `n * size`. */
  lemma {:induction false} SumRepeat(size: nat, n: nat)
    ensures Sum(Repeat(size, n)) == n * size
  {
    if n > 0 {
      assert Repeat(size, n)[..n - 1] == Repeat(size, n - 1);
      SumRepeat(size, n - 1);
    }
  }

  /** The rows of a flat row-major matrix with `outer` rows of `inner` elements (numpy's `reshape`). */
  function Rows<T>(flat: seq<T>, outer: nat, inner: nat): (r: seq<seq<T>>)
    requires |flat| == outer * inner
    ensures |r| == outer
    ensures forall i :: 0 <= i < outer ==> |r[i]| == inner
  {
    SumRepeat(inner, outer);
    Split(flat, Repeat(inner, outer))
  }

  /** Reshaping into rows and flattening again is the identity. */
  lemma ConcatRows<T>(flat: seq<T>, outer: nat, inner: nat)
    requires |flat| == outer * inner
    ensures Concat(Rows(flat, outer, inner)) == flat
  {
    SumRepeat(inner, outer);
    ConcatSplit(flat, Repeat(inner, outer));
  }

  /** Flattening rows of `inner` elements and reshaping back into rows gives the rows. */
  lemma FlattenRows<T>(rows: seq<seq<T>>, outer: nat, inner: nat)
    requires |rows| == outer && forall i :: 0 <= i < outer ==> |rows[i]| == inner
    ensures |Concat(rows)| == outer * inner
    ensures Rows(Concat(rows), outer, inner) == rows
  {
    assert Lengths(rows) == Repeat(inner, outer);
    SumRepeat(inner, outer);
    SplitConcat(rows);
  }

  /** `t` is a multi-index into a tensor of shape `shape`. */
  predicate InRange(shape: seq<nat>, t: seq<nat>)
  {
    |t| == |shape| && forall j :: 0 <= j < |t| ==> t[j] < shape[j]
  }

  /** Position of the element at multi-index `t` in the row-major flattening of a tensor of shape `shape`. */
  function FlatIndex(shape: seq<nat>, t: seq<nat>): (r: nat)
    requires InRange(shape, t)
    ensures r < Prod(shape)
  {
    if shape == [] then 0
    else
      var rest := FlatIndex(shape[1..], t[1..]);
      MulAddBound(t[0], shape[0], Prod(shape[1..]), rest);
      t[0] * Prod(shape[1..]) + rest
  }

  /** The multi-index of position `p` of the row-major flattening of a tensor of shape `shape`. */
  function Unflatten(shape: seq<nat>, p: nat): (r: seq<nat>)
    requires p < Prod(shape)
    ensures InRange(shape, r)
  {
    if shape == [] then []
    else
      var s := Prod(shape[1..]);
      DivBound(p, shape[0], s);
      [p / s] + Unflatten(shape[1..], p % s)
  }

  /** Multiplying by a fixed size preserves order. */
  lemma {:induction false} MulMono(a: nat, b: nat, s: nat)
    requires a <= b
    ensures a * s <= b * s
  {
    if a < b {
      MulMono(a, b - 1, s);
      assert b * s == (b - 1) * s + s;
    }
  }

  /** A block index and an offset inside a block of size `s` stay below `n` blocks. */
  lemma MulAddBound(a: nat, n: nat, s: nat, lo: nat)
    requires a < n && lo < s
    ensures a * s + lo < n * s
  {
    MulMono(a + 1, n, s);
    assert (a + 1) * s == a * s + s;
  }

  /** A position below `n` blocks of size `s` lies in a block numbered below `n`. */
  lemma DivBound(p: nat, n: nat, s: nat)
    requires p < n * s
    ensures s > 0 && p / s < n
  {
    var q := p / s;
    if q >= n {
      MulMono(n, q, s);
    }
  }

  /** A position is its block number times the block size plus its offset in the block. */
  lemma DivMod(p: nat, s: nat)
    requires s > 0
    ensures p == (p / s) * s + p % s
  {
  }

  /** Block `a`, offset `lo` within blocks of size `s`: division and remainder recover both. */
  lemma DivMulAdd(a: nat, s: nat, lo: nat)
    requires lo < s
    ensures (a * s + lo) / s == a && (a * s + lo) % s == lo
  {
    var n := a * s + lo;
    var q, r := n / s, n % s;
    assert n == q * s + r;
    if q < a {
      MulAddBound(q, a, s, r);
    } else if q > a {
      MulAddBound(a, q, s, lo);
    }
  }

  /** Flattening a multi-index and unflattening the position gives the multi-index back. */
  lemma {:induction false} UnflattenFlat(shape: seq<nat>, t: seq<nat>)
    requires InRange(shape, t)
    ensures Unflatten(shape, FlatIndex(shape, t)) == t
  {
    if shape != [] {
      var s := Prod(shape[1..]);
      var rest := FlatIndex(shape[1..], t[1..]);
      DivMulAdd(t[0], s, rest);
      UnflattenFlat(shape[1..], t[1..]);
      assert t == [t[0]] + t[1..];
    }
  }

  /** Unflattening a position and flattening the multi-index gives the position back. */
  lemma {:induction false} FlatUnflatten(shape: seq<nat>, p: nat)
    requires p < Prod(shape)
    ensures FlatIndex(shape, Unflatten(shape, p)) == p
  {
    if shape != [] {
      var s := Prod(shape[1..]);
      DivBound(p, shape[0], s);
      FlatUnflatten(shape[1..], p % s);
      var u := Unflatten(shape, p);
      assert u[0] == p / s && u[1..] == Unflatten(shape[1..], p % s);
      assert FlatIndex(shape, u) == (p / s) * s + p % s;
      DivMod(p, s);
    }
  }

  /** Distinct multi-indices have distinct positions. */
  lemma FlatIndexInjective(shape: seq<nat>, t: seq<nat>, u: seq<nat>)
    requires InRange(shape, t) && InRange(shape, u) && FlatIndex(shape, t) == FlatIndex(shape, u)
    ensures t == u
  {
    UnflattenFlat(shape, t);
    UnflattenFlat(shape, u);
  }
}
