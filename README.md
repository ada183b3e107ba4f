# cluster_graph: threshold clustering over powers of a directed adjacency matrix

This project models `cluster_graph` from `clustering.py`. It is the clustering engine of a
cross-lingual word-relation pipeline. The engine takes an n-by-n directed adjacency matrix `M`,
a threshold `theta` and a depth `k`. For every power `M^1 .. M^k` it scans every cell `(i, j)`,
diagonal included. Each cell whose entry is strictly greater than `theta` is recorded in a nested
auto-vivifying dictionary `clusters[i][j] = 1`. The result is one of three things:

- nothing (`None`) when `k <= 0`;
- the dictionary of markers (`dictionary_form=True`), keyed only by rows that got a mark;
- with `dictionary_form=False`, the same dictionary with every row `0 .. n-1` replaced by its key
  set. This raises `KeyError` at the first row that has no mark.

Files:

- `matrices.dfy` (module `Matrices`): square matrices over exact `real`, the product `Mul`, and
  `Power`, which stands in for `np.linalg.matrix_power`. `Power(M, 1) == M` and
  `Power(M, m) == Power(M, m-1) * M`.
- `clustering.dfy` (module `Clustering`) holds three layers:
  - the outcome datatype;
  - the declarative meaning of a mark. `Related(M, theta, k, i, j)` holds when some `1 <= m <= k`
    has `(M^m)[i][j] > theta`. `Expected` is the dictionary of all marks. `ClusterGraphSpec` is the
    whole call;
  - the imperative engine `ClusterGraph`. It runs the same triple loop as the source over a
    `map<nat, map<nat, int>>` accumulator, followed by the key-set pass `KeySets`. It is proved equal
    to `ClusterGraphSpec`. The proof goes through `Acc`, the accumulator in scan order, and through
    lemmas tying each scan step to the set of cells marked so far.

The matrix is passed as a value (a sequence of rows), so the call cannot change anything the
caller holds. Each power is a freshly computed value, as in the source.

The specification of the system and the code differ in three places. The model follows the code:

- The specification's worked example excludes the diagonal and expects `{0: {1}, 1: {}}` for
  `M = [[1, 0.5], [0.3, 1]]`, `theta = 0.4`, `k = 1`. The code scans `i == j` like any other cell,
  so the result is `{0: {0: 1, 1: 1}, 1: {1: 1}}` (`ExampleDepthOne`).
- The specification has every row `0 .. n-1` present in dictionary form, possibly empty. The code
  creates a key only for a row that receives a mark (`DictFormRows`).
- The specification has the key-set form cover all n rows. The code raises `KeyError` at the
  first row with no mark (`KeyFormOutcome`).

## Model

| member | source | states |
|---|---|---|
| `Clustering.ClusterGraph` | clustering.py:5-23 | Returns `None` for any `k <= 0`. Otherwise it returns exactly what `ClusterGraphSpec` prescribes: `NotSquare` when `matrix_power` refuses the matrix, the dictionary of all marks of `M^1 .. M^k`, or its key-set view. |
| `Clustering.KeySets` | clustering.py:20-22 | The `dictionary_form=False` pass gives `KeyError(r)` for the first row `r` in `0 .. n-1` absent from the dictionary. Otherwise it maps every row `0 .. n-1` to its key set. |
| `Clustering.FirstMissing` | clustering.py:21-22 | The row found is absent from the dictionary and every earlier row is present. "None" means every row in the range is present. |
| `Clustering.MarkCell` | clustering.py:15 | `clusters[i][j] = 1` on the auto-vivifying accumulator adds exactly the cell `(i, j)` to the set of marked cells. |
| `Clustering.ToDictMembers` | clustering.py:12-18 | The accumulator holds exactly the marked cells. No row maps to an empty dictionary. Every stored marker is 1. |
| `Clustering.ScanCellDict` | clustering.py:14-15 | Scanning cell `(i, j)` of `M^m` sets the marker exactly when the entry is strictly above `theta`, and otherwise leaves the accumulator unchanged. |
| `Clustering.AccScanned` | clustering.py:10-15 | At every point of the triple loop, the accumulator is the dictionary of the cells marked so far: all cells of the earlier powers, plus those of the current power that come before the current cell in row-major order. |
| `Clustering.AccExpected` | clustering.py:10-15 | After the loop over `m = 1 .. k`, the accumulator is the dictionary of all marks of `M^1 .. M^k`. |
| `Clustering.HitUpToRelated` | clustering.py:10-15 | The power-by-power accumulation marks `(i, j)` exactly when some `1 <= m <= k` has `(M^m)[i][j] > theta`. |
| `Clustering.DictFormMembership` | clustering.py:10-15 | For `k >= 1`, `j` is in `result[i]` exactly when `i, j < n` and `(M^m)[i][j] > theta` for some `1 <= m <= k`. Every stored value is 1. |
| `Clustering.DictFormRows` | clustering.py:7-19 | The keys of the dictionary form are exactly the rows in `0 .. n-1` with at least one partner. No kept row is empty, and partner indices lie in `0 .. n-1`. |
| `Clustering.ThresholdIsStrict` | clustering.py:14 | A cell whose entries are never above `theta` in any power up to `k` is never recorded. This includes entries equal to `theta`. |
| `Clustering.MonotoneInDepth` | clustering.py:10-15 | For `1 <= k1 <= k2`, every row of the `k1` result is a row of the `k2` result. Its partner set is a subset there, and each marker keeps its value. |
| `Clustering.KeyFormOutcome` | clustering.py:17-22 | The key-set form succeeds exactly when every row `0 .. n-1` has a partner. Otherwise it raises `KeyError` for the least row without one. |
| `Clustering.KeyFormPartners` | clustering.py:20-22 | When the key-set form succeeds, its keys are exactly `0 .. n-1`, and `j` is in row `i`'s set exactly when some power up to `k` exceeds `theta` at `(i, j)`. |
| `Clustering.ExampleDepthOne` | clustering.py:25-28 | For the module-level example the dictionary form is `{0: {0: 1, 1: 1}, 1: {1: 1}}` and the key-set form is `{0: {0, 1}, 1: {1}}`, because the diagonal is scanned. |
| `Clustering.ExampleDepthTwo` | clustering.py:11 | At depth 2 the same matrix gives every row both partners, because `(M^2)[1][0] = 0.6` under the matrix product. |
| `Matrices.Power` | clustering.py:11 | For `m >= 1`, the power of an n-by-n matrix is again n-by-n, so the scan's bounds stay those of `M`. |

## Left out

- The `print(clusters)` inside the loop (clustering.py:16) and the example's `print` (clustering.py:28) are output only and not modelled. The example's value is stated by `ExampleDepthOne` instead.
- The unused `tensorflow_datasets` import (clustering.py:2) is left out. It plays no part in the logic.
- Floating point is not modelled. Entries and `theta` are exact `real`, so IEEE rounding, NaN and infinities are out. So is numpy's exponentiation-by-squaring order: `Power` multiplies by `M` one factor at a time, which is equal over exact reals.
- Integer-typed arrays and their fixed-width overflow inside `matrix_power` are not modelled.
- Inputs other than a two-dimensional array are not modelled: stacks of matrices, and a non-integer `k`, which `matrix_power` rejects. A `0 x c` array with `c > 0` reads as the empty matrix here, where numpy would raise for `k >= 1`. A ragged sequence of rows, which no array can be, is reported as `NotSquare`.
- `clusters = dict(clusters)` (clustering.py:17-19) only changes the container type, so the model has no step for it. Its one observable effect is that a later lookup of an absent row raises instead of creating the row, and `KeySets` models that.
- The key-set values are `set<nat>`, not live `dict_keys` views. Python's dict insertion order is not modelled, since maps and sets are unordered.
- `MonotoneInDepth`: monotonicity is stated for the dictionary form only. In the key-set form a smaller depth can raise `KeyError` where a larger one succeeds.
- dir_sgm.py is not part of this model: its `main` is an empty stub.
- Corpus counting and building the adjacency matrix from counts are not part of this model. No source file implements them.
