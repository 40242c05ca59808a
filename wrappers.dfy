/** Optional values (Python's `None`) and filtering them out of a list. */
module Wrappers {

  /** A value that may be absent, as an optional argument that is `None`. */
  datatype Option<+T> = None | Some(value: T)

  /** The outcome of an operation that may raise instead of returning. */
  datatype Result<+T> = Success(value: T) | Failure(error: string)

  /** `[x for x in xs if x is not None]`, in order. */
  function Present<T>(xs: seq<Option<T>>): (r: seq<T>)
    ensures |r| <= |xs|
  {
    if xs == [] then []
    else
      var last := xs[|xs| - 1];
      Present(xs[..|xs| - 1]) + (if last.Some? then [last.value] else [])
  }

  /** The position of entry `k` among the entries of `xs` that are not `None`. */
  function Rank<T>(xs: seq<Option<T>>, k: nat): nat
    requires k <= |xs|
  {
    |Present(xs[..k])|
  }

  /** Taking one more entry adds one to the rank exactly when that entry is present. */
  lemma RankStep<T>(xs: seq<Option<T>>, k: nat)
    requires k < |xs|
    ensures Present(xs[..k + 1]) == Present(xs[..k]) + (if xs[k].Some? then [xs[k].value] else [])
    ensures Rank(xs, k + 1) == Rank(xs, k) + (if xs[k].Some? then 1 else 0)
  {
    assert xs[..k + 1][..k] == xs[..k];
  }

  /** The filtered list of a prefix is a prefix of the filtered list. */
  lemma {:induction false} PresentPrefix<T>(xs: seq<Option<T>>, k: nat)
    requires k <= |xs|
    ensures Rank(xs, k) <= |Present(xs)|
    ensures Present(xs)[..Rank(xs, k)] == Present(xs[..k])
    decreases |xs| - k
  {
    if k < |xs| {
      PresentPrefix(xs, k + 1);
      RankStep(xs, k);
    } else {
      assert xs[..k] == xs;
    }
  }

  /** A present entry sits in the filtered list at its rank. */
  lemma PresentAt<T>(xs: seq<Option<T>>, k: nat)
    requires k < |xs| && xs[k].Some?
    ensures Rank(xs, k) < |Present(xs)|
    ensures Present(xs)[Rank(xs, k)] == xs[k].value
  {
    PresentPrefix(xs, k + 1);
    RankStep(xs, k);
  }

  /** Present entries have distinct ranks, in the order of their positions. */
  lemma RankMonotone<T>(xs: seq<Option<T>>, j: nat, k: nat)
    requires j < k <= |xs| && xs[j].Some?
    ensures Rank(xs, j) < Rank(xs, k)
    decreases k - j
  {
    RankStep(xs, j);
    if j + 1 < k {
      PrefixRankMonotone(xs, j + 1, k);
    }
  }

  lemma {:induction false} PrefixRankMonotone<T>(xs: seq<Option<T>>, j: nat, k: nat)
    requires j <= k <= |xs|
    ensures Rank(xs, j) <= Rank(xs, k)
    decreases k - j
  {
    if j < k {
      RankStep(xs, j);
      PrefixRankMonotone(xs, j + 1, k);
    }
  }

  /** `[j for j, x in enumerate(xs) if x is not None]`: the positions of the present entries, in order. */
  function PresentIndices<T>(xs: seq<Option<T>>): (r: seq<nat>)
    ensures |r| == |Present(xs)|
    ensures forall p :: 0 <= p < |r| ==> r[p] < |xs| && xs[r[p]].Some?
  {
    if xs == [] then []
    else
      var n := |xs| - 1;
      PresentIndices(xs[..n]) + (if xs[n].Some? then [n] else [])
  }

  /** The entry of rank `Rank(xs, j)` in the filtered list came from position `j`. */
  lemma {:induction false} PresentIndicesAt<T>(xs: seq<Option<T>>, j: nat)
    requires j < |xs| && xs[j].Some?
    ensures Rank(xs, j) < |PresentIndices(xs)| && PresentIndices(xs)[Rank(xs, j)] == j
  {
    var n := |xs| - 1;
    PresentAt(xs, j);
    var init := PresentIndices(xs[..n]);
    assert PresentIndices(xs) == init + (if xs[n].Some? then [n] else []);
    if j < n {
      PresentIndicesAt(xs[..n], j);
      assert xs[..n][..j] == xs[..j];
      assert Rank(xs, j) == Rank(xs[..n], j);
    } else {
      assert xs[..n] == xs[..j];
      assert Rank(xs, j) == |init|;
    }
  }
}

