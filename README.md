# nnabla function-test harness, modelled in Dafny

nnabla tests each operator against a NumPy reference implementation, using the
shared utilities of `python/test/nbla_test_utils.py`. This project models two
parts of that test suite:

- **The harness's own bookkeeping.**
  - Turning names into class names, and coercing values into tuples or lists.
  - Capping values out of an ignore region.
  - Cutting a flat vector into the inputs' data (`set_inputs`).
  - The `grad` and `func` closures of the gradient check. They write each checked input's slice of `x0`, back up and restore buffers, and return after-minus-before gradients.
  - The need_grad, accumulation and NaN checks of `function_tester`.
  - The segment table and skip rule of `backward_function_tester`.
- **The reference implementations** that several operator tests use as ground truth:
  - `ref_one_hot`, `ref_top_k_grad`, `ref_matrix_diag`, `ref_clip_by_value`, the `add_n` reference and `ref_prelu`;
  - the active-input-mask equivalence of the `add_n` test.

Modules:

| module | file | contents |
|---|---|---|
| `Wrappers` | `wrappers.dfy` | `Option`/`Result`, and filtering `None` out of a list (`Present`, `Rank`) |
| `Tensors` | `tensors.dfy` | sizes and row-major layout: `Prod`, `Concat`, the offset table `Seps`, `Split`, Python slice bounds, `FlatIndex`/`Unflatten` |
| `TestUtilsNaming` | `test_utils_naming.dfy` | `str.title`, `split`, `snake_to_camel`, `ext_to_camel`, `force_tuple`, `force_list` |
| `IgnoreRegion` | `test_utils_region.dfy` | `cap_ignore_region` |
| `GradHarness` | `test_utils_grad.dfy` | variables as a class, the backward contract, `grad`/`func`, need_grad and accumulation checks, `set_inputs` |
| `SegmentChecks` | `test_utils_segments.dfy` | the `seps`/`backward_b` comparison loop of `backward_function_tester` |
| `OneHot`, `TopKGrad`, `MatrixDiag`, `ClipByValue`, `AddN`, `PReLU` | one file each | the reference implementations |

The operator engine is not part of this model. A function's forward pass is a
function parameter. Its backward pass is `GradHarness.Backward`: the contract the
harness checks every backward against.
- When accumulating, the buffer gets `buffer + contribution`.
- When not accumulating, the buffer is overwritten with the contribution.
- An input that needs no gradient keeps its buffer.

The contributions themselves are parameters. The random values the harness draws
are parameters too. Gradient buffers hold `Fin(v) | NaN`, so the NaN check can be
stated. Data are mathematical reals.

## Model

| member | source | states |
|---|---|---|
| TestUtilsNaming.TitleAt | python/test/nbla_test_utils.py:33 | `str.title()` upper-cases exactly the letters that start a word, lower-cases every other letter, and keeps every other character |
| TestUtilsNaming.TitleIdempotent | python/test/nbla_test_utils.py:33 | title-casing twice is title-casing once |
| TestUtilsNaming.TitleKeepsNonLetters | python/test/nbla_test_utils.py:33 | a non-letter occurs in the title-cased string iff it occurs in the original |
| TestUtilsNaming.TitleWord | python/test/nbla_test_utils.py:33 | a lower-case word is title-cased by upper-casing its first letter |
| TestUtilsNaming.SplitOn | python/test/nbla_test_utils.py:33 | `split(sep)` gives one more piece than there are separators, and no piece contains the separator |
| TestUtilsNaming.JoinSplit | python/test/nbla_test_utils.py:33 | joining the pieces of a split with the separator gives back the string |
| TestUtilsNaming.SplitFirst | python/test/nbla_test_utils.py:33 | the first piece of a split ends at the first separator, and the rest is the split of what follows |
| TestUtilsNaming.CamelJoinShape | python/test/nbla_test_utils.py:33 | the CamelCase join drops every separator and keeps every other character, so it has `len(s) - count(sep)` characters |
| TestUtilsNaming.SnakeToCamelShape | python/test/nbla_test_utils.py:36-37 | `snake_to_camel` has no underscore, and its length is that of the input minus its underscores |
| TestUtilsNaming.CamelJoin3 | python/test/nbla_test_utils.py:37 | a name that splits into three pieces becomes the three title-cased pieces, concatenated |
| TestUtilsNaming.ExtToCamelExamples | python/test/nbla_test_utils.py:30-33 | `ext_to_camel("cpu") == ""` and `ext_to_camel("cuda.cudnn") == "CudaCudnn"` |
| TestUtilsNaming.SnakeToCamelExample | python/test/nbla_test_utils.py:36-37 | `snake_to_camel("top_k_grad") == "TopKGrad"` |
| TestUtilsNaming.ForceTuple | python/test/nbla_test_utils.py:271-276 | the result is a tuple with the same elements in order; a tuple is returned as is; any other value becomes a one-element tuple |
| TestUtilsNaming.ForceList | python/test/nbla_test_utils.py:279-284 | the same for lists |
| TestUtilsNaming.ForceIdempotent | python/test/nbla_test_utils.py:271-284 | both coercions are idempotent, and each undoes the other's container while keeping the elements |
| IgnoreRegion.Capped | python/test/nbla_test_utils.py:222-223 | after capping, no element lies strictly inside the region; elements outside it are unchanged; every changed element became the lower bound |
| IgnoreRegion.CappedIdempotent | python/test/nbla_test_utils.py:219-224 | capping twice is capping once |
| IgnoreRegion.CapIgnoreRegion | python/test/nbla_test_utils.py:219-224 | requires two bounds and sorts them; the array is capped in place (`arr[..] == Capped(old(arr[..]), lo, hi)`) and the same array is returned |
| Tensors.Concat | python/test/nbla_test_utils.py:123 | the concatenation is as long as the sum of the pieces' lengths |
| Tensors.Seps | python/test/nbla_test_utils.py:1188-1189 | `seps` starts at 0, ends at the total size, and each entry is the previous one plus that piece's size |
| Tensors.SepsMonotone | python/test/nbla_test_utils.py:1188-1189 | the offsets never decrease and never pass the total |
| Tensors.Split | python/test/nbla_test_utils.py:96-101 | cutting at successive sizes gives one piece per size, each of that size |
| Tensors.SplitAt | python/test/nbla_test_utils.py:97-100 | piece `k` is the slice `x0[begin:end]` between offsets `k` and `k+1` |
| Tensors.SplitConcat | python/test/nbla_test_utils.py:96-101 | cutting a concatenation at its pieces' lengths gives back every piece |
| Tensors.ConcatSplit | python/test/nbla_test_utils.py:96-101 | concatenating the pieces of a vector of exactly the total size gives back the vector |
| Tensors.SliceBound | python/test/function/test_top_k_grad.py:25-28 | Python's slice-bound normalisation: a negative bound counts from the end, and the result is clamped to `[0, len]` |
| Tensors.ProdSplit | python/test/function/test_top_k_grad.py:25-26 | the sizes before and after any split point multiply to the total size |
| Tensors.Rows | python/test/function/test_top_k_grad.py:27 | `reshape(outer_dim, inner_dim)` of a vector of `outer_dim * inner_dim` elements has `outer_dim` rows of `inner_dim` elements |
| Tensors.ConcatRows | python/test/function/test_top_k_grad.py:27 | reshaping a flat vector into rows and flattening again is the identity |
| Tensors.FlattenRows | python/test/function/test_top_k_grad.py:41 | flattening rows of equal length and reshaping back gives the rows |
| Tensors.FlatIndex | python/test/function/test_one_hot.py:38-40 | the row-major position of an in-range multi-index lies below the tensor's size |
| Tensors.Unflatten | python/test/function/test_one_hot.py:38-40 | every position below the size has an in-range multi-index |
| Tensors.UnflattenFlat | python/test/function/test_one_hot.py:38-40 | unflattening the position of a multi-index gives back the multi-index |
| Tensors.FlatUnflatten | python/test/function/test_one_hot.py:38-40 | flattening the multi-index of a position gives back the position |
| Tensors.FlatIndexInjective | python/test/function/test_one_hot.py:38-40 | distinct multi-indices have distinct positions |
| Wrappers.PresentAt | python/test/nbla_test_utils.py:894 | a present input sits in `filter(None, inputs)` at its rank among the present inputs |
| Wrappers.PresentPrefix | python/test/nbla_test_utils.py:894 | filtering a prefix gives a prefix of the filtered list |
| Wrappers.RankMonotone | python/test/nbla_test_utils.py:894 | present inputs keep their order after filtering |
| Wrappers.PresentIndices | python/test/nbla_test_utils.py:1046 | the inputs that survive filtering `None` out: one per present input, each naming a present input |
| Wrappers.PresentIndicesAt | python/test/nbla_test_utils.py:1046 | the filtered entry at a present input's rank came from that input |
| GradHarness.AccumulateRecovers | python/test/nbla_test_utils.py:896-902 | accumulating onto a finite seed and subtracting the seed gives exactly the contribution (`true_g`) |
| GradHarness.OverwriteForgets | python/test/nbla_test_utils.py:904-919 | a non-accumulating backward leaves the same buffer whatever was there before, and no NaN |
| GradHarness.NoGradUntouched | python/test/nbla_test_utils.py:865-875 | a backward leaves the buffer of an input that needs no gradient untouched |
| GradHarness.AccumulatingKeepsNaN | python/test/nbla_test_utils.py:914-919 | over a NaN seed, accumulating leaves a NaN and overwriting does not, so the NaN check tells the two apart |
| GradHarness.Backward | python/test/nbla_test_utils.py:901-909 | the backward contract: each present input's buffer is overwritten, accumulated or left alone per its flag and need_grad; data and need_grad are unchanged |
| GradHarness.Variable.constructor | python/test/nbla_test_utils.py:747-748 | a new variable holds the given data, the given need_grad flag and a gradient buffer of the same size |
| GradHarness.CreateVariables | python/test/nbla_test_utils.py:741-749 | one fresh, distinct variable per non-`None` input with its data and need_grad `backward[k]`, and `None` where the input is `None` |
| GradHarness.OffsetMonotone | python/test/nbla_test_utils.py:184-187 | `bind` only grows, and each checked input's stretch ends before any later offset |
| GradHarness.PickAt | python/test/nbla_test_utils.py:186-204 | the backup of input `j` is at position `ind`, the number of checked inputs before it |
| GradHarness.JoinedAt | python/test/nbla_test_utils.py:204 | each input's piece of the joined vector lands exactly on its slice `[bind, bind + size)` |
| GradHarness.ConcatRefs | python/test/nbla_test_utils.py:210-211 | `np.concatenate` of the non-`None` references is their join at the offsets `bind` |
| GradHarness.WriteSlice | python/test/nbla_test_utils.py:180-189 | one step of the first loop of `grad`: the checked input gets its slice of `x0` and backs up its gradient; an unchecked input must not need a gradient |
| GradHarness.WriteSlices | python/test/nbla_test_utils.py:180-189 | the first loop of `grad`: every checked input holds its slice of `x0`; the backups are the checked inputs' gradients in order; gradients and flags are unchanged |
| GradHarness.RestoreGrad | python/test/nbla_test_utils.py:203-207 | one step of the second loop: a checked input yields its gradient minus its backup and gets the backup back |
| GradHarness.RestoreGrads | python/test/nbla_test_utils.py:197-208 | the second loop: the result is the per-input segments joined in input order; every checked input's buffer is restored to its backup |
| GradHarness.CollectGrads | python/test/nbla_test_utils.py:197-208 | the second loop's result has one slice per checked input (`None`s skipped, not zero-filled), holding its gradient minus its backup; the buffers are restored |
| GradHarness.Grad | python/test/nbla_test_utils.py:176-208 | `grad(x0)`: each checked input's slice of the result is the buffer after an accumulating backward minus before it; the result has `len(x0)` elements, zeros past the last slice; gradients are back to their old values; each input's data is what the forward pass overwrote it with, else its slice of `x0` if checked, else unchanged |
| GradHarness.GradRecovers | python/test/nbla_test_utils.py:195-204 | the after-minus-before difference is the backward's contribution, or zeros for an input that needs no gradient |
| GradHarness.SeedGrads | python/test/nbla_test_utils.py:148-151 | every present input's buffer gets its random seed; data and flags are unchanged |
| GradHarness.ComputeAnalyticalGrad | python/test/nbla_test_utils.py:147-212 | the analytical gradient has the total size of the non-`None` references; each checked input's slice is exactly its contribution (the seed cancels); buffers end at their seeds; data end at the references, except where the forward pass overwrote them in place |
| GradHarness.DotSlope | python/test/nbla_test_utils.py:174 | moving one output element by `e` moves `np.sum(o.g * o.d)` by `o.g[p] * e` |
| GradHarness.ObjectiveSlope | python/test/nbla_test_utils.py:174 | the slope of `func`'s objective along an output element is that element's output gradient |
| GradHarness.WriteData | python/test/nbla_test_utils.py:159-167 | one step of `func`'s first loop: write the checked input's slice, back up the data after the write |
| GradHarness.WriteForFunc | python/test/nbla_test_utils.py:159-167 | `func`'s first loop: checked inputs hold their slices; every present input's backup is its data after the write; `None` inputs get a `None` backup |
| GradHarness.ForwardInPlace | python/test/nbla_test_utils.py:169 | an in-place forward overwrites the data of some inputs and nothing else |
| GradHarness.RestoreData | python/test/nbla_test_utils.py:170-173 | every present input gets its backup back as data |
| GradHarness.Func | python/test/nbla_test_utils.py:155-174 | `func(x0)`: whatever the forward pass overwrites, each input ends holding what was written into it; the objective is that of the forward pass on exactly that data |
| GradHarness.MarksPrefix | python/test/nbla_test_utils.py:905 | over any prefix, the accumulation flags line up with the ranks, and only input `i`'s rank is false |
| GradHarness.AccumFlagsOneFalse | python/test/nbla_test_utils.py:905 | the accumulation flags for input `i` have one entry per non-`None` input, and exactly the one at `i`'s rank is false |
| GradHarness.AccumFlagOf | python/test/nbla_test_utils.py:905-909 | the backward call accumulates into every present input except `i` |
| GradHarness.NeedGradStep | python/test/nbla_test_utils.py:862-875 | zero `v.g`, switch need_grad off, run an accumulating backward: `v.g` stays zero (the check passes) and other inputs are accumulated into |
| GradHarness.CheckNeedGrad | python/test/nbla_test_utils.py:861-875 | every need_grad check passes; afterwards no input needs a gradient, and the checked ones hold zeros |
| GradHarness.ResetNeedGrad | python/test/nbla_test_utils.py:877-882 | need_grad is set back to `backward[i]` for every present input |
| GradHarness.AccumStep | python/test/nbla_test_utils.py:884-919 | for one checked input, `true_g` is the contribution; the non-accumulating backward reproduces it over a fresh seed; over a NaN seed it leaves no NaN; other inputs are accumulated into three times |
| GradHarness.CheckAccumulation | python/test/nbla_test_utils.py:877-919 | all accumulation and NaN checks pass; need_grad ends at `backward`; unchecked inputs keep their buffers |
| GradHarness.SetInput | python/test/nbla_test_utils.py:97-100 | one step of the cursor: input `k` gets the slice between offsets `k` and `k+1`; `end` is offset `k+1`; no other input changes |
| GradHarness.SetInputs | python/test/nbla_test_utils.py:96-101 | every input gets its own piece of `x0` cut at the inputs' sizes; gradients and flags are unchanged |
| GradHarness.SetInputsRoundTrip | python/test/nbla_test_utils.py:96-101 | `set_inputs` of the concatenated inputs gives every input back its own data |
| SegmentChecks.SegmentOf | python/test/nbla_test_utils.py:1188-1193 | every position of the concatenation lies in some segment `[seps[k], seps[k+1])` |
| SegmentChecks.SegmentFrom | python/test/nbla_test_utils.py:1188-1193 | the same, searching from segment `k` on |
| SegmentChecks.SegmentsDisjoint | python/test/nbla_test_utils.py:1193 | a position lies in one segment only, so the consecutive pairs of `seps` partition the vector |
| SegmentChecks.SegmentIsPiece | python/test/nbla_test_utils.py:1188-1198 | segment `k` of the concatenated gradients is the gradient of input `k` |
| SegmentChecks.SkippedReadsOwnFlag | python/test/nbla_test_utils.py:1193-1195 | under the intended rule, the segment of present input `j` is skipped iff `backward[j]` or its `backward_b` entry is false |
| SegmentChecks.AsWrittenReadsWrongFlag | python/test/nbla_test_utils.py:1194 | with inputs `[x, None, w]`, the rule as written reads the `None` input's flag for `w`, both ways (see Findings) |
| SegmentChecks.AsWrittenAgreesWithoutNone | python/test/nbla_test_utils.py:1194 | without `None` inputs, the rule as written and the intended rule agree |
| SegmentChecks.ComparedSegments | python/test/nbla_test_utils.py:1188-1198 | the loop compares, in increasing order, exactly the segments the selected skip rule (as written, or intended) does not skip, with bounds `(seps[k], seps[k+1])` |
| OneHot.WrapValid | python/test/function/test_one_hot.py:32-34 | after one wrap an index is a valid class iff it lay in `[-n, n)` |
| OneHot.Wrapped | python/test/function/test_one_hot.py:37 | the wrapped indices of a valid row form an in-range multi-index |
| OneHot.OneHotForward | python/test/function/test_one_hot.py:53-70 | `F.one_hot` raises `RuntimeError` iff the rows do not hold one index per dimension of `shape`; otherwise the result is the `(n, prod(shape))` array of `ref_one_hot`, with a 1 exactly at each valid row's wrapped multi-index |
| OneHot.RefOneHot | python/test/function/test_one_hot.py:25-41 | the result has shape `(n, prod(shape))`; row `i` holds 1 exactly at the position of its wrapped indices when all are valid, and 0 everywhere else |
| OneHot.OneHotAt | python/test/function/test_one_hot.py:34-40 | a position holds 1 iff the row is valid and the position's multi-index is the wrapped row; every entry is 0 or 1 |
| OneHot.AtMostOneHot | python/test/function/test_one_hot.py:27-41 | a row holds at most one 1 |
| OneHot.ValidRowHasOne | python/test/function/test_one_hot.py:39-40 | a valid row holds a 1 |
| OneHot.WrapExamples | python/test/function/test_one_hot.py:58-63 | with 10 classes, `-10` names class 0 and `-11`, `-20` and `10` name none |
| TopKGrad.Key | python/test/function/test_top_k_grad.py:28 | the sort key is the value, or its magnitude when `abs` is set |
| TopKGrad.Insert | python/test/function/test_top_k_grad.py:28 | inserting a column adds exactly that column |
| TopKGrad.InsertDistinct | python/test/function/test_top_k_grad.py:28 | inserting a new column keeps the list free of repeats |
| TopKGrad.InsertSorted | python/test/function/test_top_k_grad.py:28 | inserting keeps the columns in nondecreasing key order |
| TopKGrad.ArgSortPrefix | python/test/function/test_top_k_grad.py:28 | the argsort of the first `m` columns lists each of them once, in key order |
| TopKGrad.ArgSort | python/test/function/test_top_k_grad.py:28 | `np.argsort` of a row is a permutation of its columns in nondecreasing key order |
| TopKGrad.Kept | python/test/function/test_top_k_grad.py:28 | `ix[-k:]` keeps `k` columns for `0 < k <= inner`, and all of them for `k == 0` or `k > inner` |
| TopKGrad.KeptAreLargest | python/test/function/test_top_k_grad.py:28 | for any argsort, every kept key is at least every dropped key, and no column is kept twice |
| TopKGrad.OuterInner | python/test/function/test_top_k_grad.py:25-26 | `outer_dim * inner_dim` is the size of `grad`, for any `base_axis` |
| TopKGrad.KeptColumnsBound | python/test/function/test_top_k_grad.py:31 | the kept columns are columns of the row |
| TopKGrad.CopyColumns | python/test/function/test_top_k_grad.py:31 | `dx[idx, row] = gg[idx, row]` writes exactly the listed columns of row `idx` |
| TopKGrad.RefTopKGrad | python/test/function/test_top_k_grad.py:24-33 | `dx` has shape `(outer_dim, inner_dim)`; an entry equals the gradient at a kept column and is 0 elsewhere |
| TopKGrad.RefTopKGradBw | python/test/function/test_top_k_grad.py:40-41 | the backward reference has as many elements as `g`, and reshaped into rows it is `dx` |
| MatrixDiag.Diag | python/test/function/test_matrix_diag.py:29 | `np.diag(v)` is square of side `len(v)` |
| MatrixDiag.DiagRoundTrip | python/test/function/test_matrix_diag.py:29 | the diagonal of `np.diag(v)` is `v`, and everything off it is zero |
| MatrixDiag.AssignSlab3 | python/test/function/test_matrix_diag.py:29 | `y[b, :, :] = m` changes only slab `b` |
| MatrixDiag.AssignSlab4 | python/test/function/test_matrix_diag.py:33 | `y[t, b, :, :] = m` changes only slab `(t, b)` |
| MatrixDiag.RefMatrixDiag2 | python/test/function/test_matrix_diag.py:25-29 | for rank 2, `y` has shape `x.shape + (d,)`, and `y[b,i,j]` is `x[b,i]` when `i == j` and 0 otherwise |
| MatrixDiag.RefMatrixDiag3 | python/test/function/test_matrix_diag.py:25-33 | for rank 3, `y[t,b,i,j]` is `x[t,b,i]` when `i == j` and 0 otherwise |
| MatrixDiag.RefMatrixDiagOther | python/test/function/test_matrix_diag.py:26-34 | for any other rank, `y` is all zeros with `prod(shape) * shape[-1]` elements; rank 0 has no last dimension and fails |
| ClipByValue.ClipInRange | python/test/function/test_clip_by_value.py:25-35 | where `min <= max`, the result lies in `[min, max]` and equals `x` iff `x` already did |
| ClipByValue.ClipInverted | python/test/function/test_clip_by_value.py:33-35 | where `min > max`, the second pass wins: the result is `max` |
| ClipByValue.ClipIdempotent | python/test/function/test_clip_by_value.py:25-35 | clipping a clipped value changes nothing |
| ClipByValue.RaiseToMin | python/test/function/test_clip_by_value.py:28-29 | the first pass raises exactly the elements below their lower bound to it |
| ClipByValue.LowerToMax | python/test/function/test_clip_by_value.py:33-34 | the second pass lowers exactly the elements above their upper bound to it |
| ClipByValue.RefClipByValue | python/test/function/test_clip_by_value.py:25-35 | `x` is clipped in place, element by element, by its broadcast bounds, and `x` itself is returned |
| AddN.RefAddN | python/test/function/test_add_n.py:24-28 | with no inputs the result is the integer 0; otherwise each element is the in-order sum of that element over all inputs |
| AddN.SumSlope | python/test/function/test_add_n.py:85-89 | moving one element of one input by `e` moves that element of the sum by `e` and no other element |
| AddN.ActiveShape | python/test/function/test_add_n.py:75-76 | the active inputs keep the common shape |
| AddN.MaskedIsReduced | python/test/function/test_add_n.py:72-80 | the masked sum equals the sum over the active inputs only, in order |
| AddN.MaskedSlope | python/test/function/test_add_n.py:82-89 | an active input moves the masked sum with slope 1; an inactive input does not move it |
| AddN.ActiveGradientMatches | python/test/function/test_add_n.py:82-89 | each active input gets the same gradient as its counterpart in the reduced `add_n` |
| PReLU.Elem | python/test/function/test_prelu.py:27 | a non-negative element passes unchanged; a negative one is multiplied by the slope |
| PReLU.ListIndex | python/test/function/test_prelu.py:26 | a Python list index names an entry iff it lies in `[-n, n)`, counting from the end when negative |
| PReLU.WeightShape | python/test/function/test_prelu.py:24-26 | `wshape` is all ones, with `w.size` at `base_axis` when `w.size != 1`; it fails (`IndexError`) iff that index names no axis |
| PReLU.OnesButIndex | python/test/function/test_prelu.py:26-27 | such a shape has `w.size` elements, and a multi-index into it points at its coordinate along `base_axis` |
| PReLU.WeightShapeSize | python/test/function/test_prelu.py:26-27 | `w.reshape(wshape)` is well defined: `wshape` has `w.size` elements |
| PReLU.RefPReLU | python/test/function/test_prelu.py:23-27 | the result fails exactly when `wshape` cannot be built, and otherwise has `x`'s size |
| PReLU.RefPReLUAt | python/test/function/test_prelu.py:25-27 | the element at multi-index `t` is `x` when non-negative, and otherwise `w * x` with the single slope, or the slope of channel `t[base_axis]` |
| PReLU.ChannelSlope | python/test/function/test_prelu.py:26-27 | per-channel weights: a negative element is scaled by the slope of its own channel |
| PReLU.ScalarSlope | python/test/function/test_prelu.py:25-27 | a single weight applies to every element alike (a leaky ReLU) |

## Left out

- The operator engine: graph construction, `f.setup`, `f.forward`, `f.backward` and the output-gradient resets (`reset_ograds`, lines 192-193). A forward pass is a function parameter. A backward pass is the contract `GradHarness.Backward`, with each input's contribution as a parameter.
- scipy's `approx_fprime`, `assert_allclose` and its tolerances, the half-precision test, `ArrayStats` and `ArrayDiffStats`: floating-point numerics. `GradHarness.ObjectiveSlope` states what the numerical gradient of `func` approximates; the approximation is not modelled.
- float32 data: data are reals. NaN is modelled in gradient buffers only.
- `randn`: the random seeds are method parameters (`SeedGrads`, `AccumStep`).
- Shapes of variables: a `Variable` carries its size, and `reshape(i.shape)` is the identity on its flat data.
- TestUtilsNaming.TitleAt: ASCII letters only. Python's `str.title()` also changes non-ASCII cased letters and can change the length (`'ß'` becomes `'Ss'`). The names the harness converts are ASCII identifiers.
- GradHarness.Variable.constructor: a new variable's gradient buffer is modelled as zeros. The engine's initial value is not visible.
- GradHarness.CheckNeedGrad: assumes the backward call does not raise. The `except RuntimeError: continue` escape at lines 873-874 is not modelled.
- GradHarness.CheckAccumulation: states the final buffers of unchecked inputs only. The buffer of each checked input is stated per step by `AccumStep`.
- GradHarness.NeedGradStep: states the data as unchanged. An in-place forward pass (lines 869-870) is not modelled here; in-place writes are modelled in `Func` and `Grad` only.
- GradHarness.CheckNeedGrad: data stated unchanged, for the reason given for `NeedGradStep`.
- GradHarness.AccumStep: states the data as unchanged. The three forward passes (lines 900, 908 and 917) are assumed not to write their inputs in place.
- GradHarness.CheckAccumulation: data stated unchanged, for the reason given for `AccumStep`.
- `assert not i.need_grad` (line 189) and `assert len(region) == 2` (line 220) are preconditions of `GradHarness.WriteSlice`/`Grad` and `IgnoreRegion.CapIgnoreRegion`, not failure paths.
- `compute_analytical_and_numerical_grad_graph`'s `func` and `grad` (lines 103-121) drive the engine directly. Its `set_inputs` is `GradHarness.SetInputs`. The backup-subtract-restore pattern of its `grad` is modelled on `compute_analytical_and_numerical_grad`.
- `backward_function_tester`: only the segment table and skip rule are modelled. The outer loop at line 1165 indexes `backward` with a position among the filtered outputs in the same way as line 1194. It is not modelled.
- `list_context`, `list_ctx_and_func_name*`, `quit_with_gc`, `create_function_nnp` and the complex-array converters: dynamic imports, protobuf and lossy float casts.
- OneHot.RefOneHot: requires one index per dimension. `zip(x[i], shape)` would silently truncate a longer or shorter row, but `OneHot.OneHotForward` shows the op rejects such an input before the reference is reached.
- TopKGrad.ArgSort: a stable insertion sort. numpy's default sort leaves the order of equal keys unspecified. `TopKGrad.KeptAreLargest` holds for any argsort, so the kept set's key property does not depend on that choice.
- `ref_top_k_grad_fw` returns its input unchanged. `squeeze(axis=0)` and the final `reshape` do not change row-major data. None of the three is a separate member.
- PReLU.RefPReLU: requires that `wshape` broadcasts against `x` without expanding `x` (`Broadcastable`). numpy's broadcast errors and the expansion of a size-1 axis of `x` are not modelled.
- MatrixDiag: the rank dispatch of `ref_matrix_diag` is three entry points (`RefMatrixDiag2`, `RefMatrixDiag3`, `RefMatrixDiagOther`), one per branch.
- ClipByValue: the `dtype` variants of the test (`nn.Variable`, `NdArray`, `float`, and the `TypeError` for `np.array`) are engine-side. `np.isscalar` is the `Bound` datatype.
- AddN: `set_active_input_mask` is engine-side. `AddN.MaskedSum` defines the masked forward pass as the in-order sum over the active inputs.

## Findings

| source | as written | input that shows it | evidently intended | confidence | as-written member | corrected member |
|---|---|---|---|---|---|---|
| python/test/nbla_test_utils.py:1194 | `backward[k - ngrads]` indexes `backward`, which has one entry per input including `None`s, with the position of segment `k` among the non-`None` inputs (`grad_vinputs` is built from the filtered `vinputs`, lines 1046 and 1080) | inputs `[x, None, w]`, one output gradient, `backward = [True, True, False]`: segment 2 (`w`) reads `backward[1]` (the `None`) and is compared although `w` needs no gradient; with `backward = [True, False, True]` it is skipped although it should be checked | read the flag of the input the segment belongs to: `backward[j]` for the `j`-th present input | not executed; follows from the indexing, and matters only for tests with an optional `None` input | SegmentChecks.AsWrittenReadsWrongFlag | SegmentChecks.SkippedReadsOwnFlag |
