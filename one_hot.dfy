/**
 * `ref_one_hot` of `test_one_hot.py`: each row of an integer array `x` holds one class
 * index per dimension of `shape`; the result has one row per row of `x`, shaped `shape`,
 * with a single 1 at the position the row's indices name, or no 1 at all when an index
 * is out of range. A negative index counts from the end of its dimension, once. The
 * `shape` part of each result row is flattened in row-major order.
 */
module OneHot {
  import opened Wrappers
  import opened Tensors

  /** `class_idx += num_classes` for a negative index: one wrap only. */
  function Wrap(c: int, n: nat): int
  {
    if c < 0 then c + n else c
  }

  /** An index is a valid class of a dimension with `n` classes exactly when it lies in `[-n, n)`. */
  lemma WrapValid(c: int, n: nat)
    ensures 0 <= Wrap(c, n) < n <==> -(n as int) <= c < n
  {
  }

  /** Every index of the row names a class of its dimension once wrapped. */
  predicate ValidRow(row: seq<int>, shape: seq<nat>)
    requires |row| == |shape|
  {
    forall j :: 0 <= j < |row| ==> 0 <= Wrap(row[j], shape[j]) < shape[j]
  }

  /** `class_idxs` of a valid row: the wrapped indices. */
  function Wrapped(row: seq<int>, shape: seq<nat>): (r: seq<nat>)
    requires |row| == |shape| && ValidRow(row, shape)
    ensures InRange(shape, r)
    ensures forall j :: 0 <= j < |r| ==> r[j] as int == Wrap(row[j], shape[j])
  {
    seq(|row|, j requires 0 <= j < |row| => Wrap(row[j], shape[j]) as nat)
  }

  /** Rows with one index per dimension of `shape`. */
  predicate IndexRows(x: seq<seq<int>>, shape: seq<nat>)
  {
    forall i :: 0 <= i < |x| ==> |x[i]| == |shape|
  }

  /**
   * Building `F.one_hot(x, shape)` for an input whose rows have `width` indices: a
   * `RuntimeError` unless there is one index per dimension of `shape`; otherwise each
   * result row has `prod(shape)` elements.
   */
  function Setup(x: seq<seq<int>>, width: nat, shape: seq<nat>): (r: Result<nat>)
    requires forall i :: 0 <= i < |x| ==> |x[i]| == width
    ensures r.Failure? <==> width != |shape|
    ensures r.Success? ==> r.value == Prod(shape) && IndexRows(x, shape)
  {
    if width != |shape| then Failure("RuntimeError") else Success(Prod(shape))
  }

  /** The value `ref_one_hot` puts at position `p` of row `i`. */
  function Expected(x: seq<seq<int>>, shape: seq<nat>, i: nat, p: nat): real
    requires IndexRows(x, shape) && i < |x|
  {
    if ValidRow(x[i], shape) && p == FlatIndex(shape, Wrapped(x[i], shape)) then 1.0 else 0.0
  }

  /**
   * `ref_one_hot(x, shape)`: a zero array of `len(x)` rows of `prod(shape)` elements; for
   * each row the indices are wrapped one after the other, the scan stops at the first one
   * out of range, and only a row whose indices are all valid gets its 1.
   */
  method RefOneHot(x: seq<seq<int>>, shape: seq<nat>) returns (result: array2<real>)
    requires IndexRows(x, shape)
    ensures fresh(result) && result.Length0 == |x| && result.Length1 == Prod(shape)
    ensures forall i, p :: 0 <= i < |x| && 0 <= p < Prod(shape) ==> result[i, p] == Expected(x, shape, i, p)
  {
    result := new real[|x|, Prod(shape)]((_, _) => 0.0);
    for i := 0 to |x|
      invariant forall i', p :: 0 <= i' < |x| && 0 <= p < Prod(shape) ==>
        result[i', p] == if i' < i then Expected(x, shape, i', p) else 0.0
    {
      var row := x[i];
      var classIdxs: seq<nat> := [];
      var validClass := true;
      var j := 0;
      while j < |shape|
        invariant 0 <= j <= |shape|
        invariant validClass && |classIdxs| == j
        invariant forall j' :: 0 <= j' < j ==>
          0 <= Wrap(row[j'], shape[j']) < shape[j'] && classIdxs[j'] as int == Wrap(row[j'], shape[j'])
      {
        var classIdx := row[j];
        if classIdx < 0 {
          classIdx := classIdx + shape[j];
        }
        if classIdx < 0 || shape[j] <= classIdx {
          assert !ValidRow(row, shape);
          validClass := false;
          break;
        }
        classIdxs := classIdxs + [classIdx];
        j := j + 1;
      }
      if validClass {
        assert classIdxs == Wrapped(row, shape);
        result[i, FlatIndex(shape, classIdxs)] := 1.0;
      }
    }
  }

  /**
   * `F.one_hot(x, shape)` as `test_one_hot_forward` exercises it, on an input whose rows
   * have `width` indices: a `RuntimeError` when `width` is not the number of dimensions of
   * `shape`, and otherwise the array `ref_one_hot` computes, which the test compares the
   * operator's output against.
   */
  method OneHotForward(x: seq<seq<int>>, width: nat, shape: seq<nat>) returns (r: Result<array2<real>>)
    requires forall i :: 0 <= i < |x| ==> |x[i]| == width
    ensures r.Failure? <==> width != |shape|
    ensures r.Success? ==> fresh(r.value) && r.value.Length0 == |x| && r.value.Length1 == Prod(shape)
    ensures r.Success? ==> IndexRows(x, shape)
    ensures r.Success? ==> forall i, p :: 0 <= i < |x| && 0 <= p < Prod(shape) ==>
      r.value[i, p] == Expected(x, shape, i, p)
  {
    match Setup(x, width, shape)
    case Failure(e) =>
      r := Failure(e);
    case Success(_) =>
      var result := RefOneHot(x, shape);
      r := Success(result);
  }

  /**
   * A valid row has exactly one 1, at the position whose multi-index is the row's wrapped
   * indices; every other position, and every position of an invalid row, holds 0.
   */
  lemma OneHotAt(x: seq<seq<int>>, shape: seq<nat>, i: nat, p: nat)
    requires IndexRows(x, shape) && i < |x| && p < Prod(shape)
    ensures Expected(x, shape, i, p) == 1.0 <==> ValidRow(x[i], shape) && Unflatten(shape, p) == Wrapped(x[i], shape)
    ensures Expected(x, shape, i, p) == 0.0 || Expected(x, shape, i, p) == 1.0
  {
    if ValidRow(x[i], shape) {
      UnflattenFlat(shape, Wrapped(x[i], shape));
      FlatUnflatten(shape, p);
    }
  }

  /** Two positions of one row that both hold 1 are the same position. */
  lemma AtMostOneHot(x: seq<seq<int>>, shape: seq<nat>, i: nat, p: nat, q: nat)
    requires IndexRows(x, shape) && i < |x| && p < Prod(shape) && q < Prod(shape)
    requires Expected(x, shape, i, p) == 1.0 && Expected(x, shape, i, q) == 1.0
    ensures p == q
  {
  }

  /** A valid row holds a 1 somewhere. */
  lemma ValidRowHasOne(x: seq<seq<int>>, shape: seq<nat>, i: nat)
    requires IndexRows(x, shape) && i < |x| && ValidRow(x[i], shape)
    ensures exists p :: 0 <= p < Prod(shape) && Expected(x, shape, i, p) == 1.0
  {
    var p := FlatIndex(shape, Wrapped(x[i], shape));
    assert Expected(x, shape, i, p) == 1.0;
  }

  /** With 10 classes, `-10` names class 0 and `-11` or `10` name none (the test draws from `[-20, 20)`). */
  lemma WrapExamples()
    ensures Wrap(-10, 10) == 0 && Wrap(-1, 10) == 9 && Wrap(9, 10) == 9
    ensures Wrap(-11, 10) < 0 && Wrap(-20, 10) < 0 && Wrap(10, 10) >= 10
  {
  }
}
