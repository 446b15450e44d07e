# simupy matrices: a verified model

simupy's `matrices` module handles the bookkeeping between a matrix of
symbolic unknowns and the vector of its distinct unknowns. Its pieces:

- `construct_explicit_matrix` builds a plain, diagonal or symmetric matrix of unknowns.
- `matrix_subs` flattens (from, to) matrix pairs into the element pairs a substitution takes.
- `block_matrix` joins a grid of blocks.
- `system_from_matrix_DE` turns a matrix differential equation into a vector one.
- `matrix_callable_from_vector_trajectory` turns an interpolated vector back into a matrix, or into a stack of matrices, one per time.

The model keeps the discrete structure and leaves out the computer algebra:

- An expression is `Exprs.Expr`: the literal zero, an unknown `Sym(base, row, col)`, or an opaque compound.
- A matrix is a sequence of rows.
- The exceptions the code raises are `Exprs.Error` values inside a `Result`.

Modules:

| module | file | models |
|---|---|---|
| `Exprs` | exprs.dfy | expressions, matrices, errors, `list.index` (`IndexOf`), row-major flattening |
| `Construct` | construct.dfy | `construct_explicit_matrix`. The symmetric fill is a method over a two-dimensional array. |
| `Subs` | subs.dfy | `matrix_subs`, as functions and lemmas |
| `Blocks` | blocks.dfy | `block_matrix` as written, and the composition it evidently intends |
| `Trajectory` | trajectory.dfy | the `matrix_callable` closure. Its fill loops are methods over two- and three-dimensional arrays. |
| `VectorForm` | vectorform.dfy | `system_from_matrix_DE`. Deduplication and the scatter loop are methods. |

Each imperative piece of the code becomes a method proved against a
specification function. The properties the code promises are proved about
that function as lemmas:

- `ConstructExplicitMatrix` against `PlainMatrix`, `DiagonalMatrix` and `SymmetricMatrix`;
- `ScatterDerivatives` against `Scatter`;
- `FillMatrix` and `FillStack` against `Gather` and `GatherOver`.

Scatter (`system_from_matrix_DE`) and gather (`matrix_callable`) are
partners, and the model proves that they are inverse to each other:

- `VectorForm.GatherAfterScatter`: a derivative matrix that respects the aliasing of the state matrix (equal unknowns, equal derivatives) comes back unchanged after a scatter and then a gather.
- `VectorForm.ScatterAfterGather`: a vector over the deduplicated state comes back unchanged after a gather and then a scatter.

Behaviour the code fixes and its documentation leaves open or states otherwise:

- **Order of the state.** `vec_var` is `list(set(...))` (simupy/matrices.py:191), so the order of the state vector is unspecified, not first-seen. `VectorForm.Deduplicate` picks each next element nondeterministically. Every contract about the state holds for every order.
- **Shared unknowns.** When several cells share an unknown, the scatter loop keeps the derivative of the last such cell in row-major order, because later writes overwrite earlier ones (simupy/matrices.py:194-198). It does not keep the first such cell. The two agree when the derivative respects the aliasing, which is the premise of `GatherAfterScatter`.
- **Call forms of `matrix_subs`.** The docstring of `matrix_subs` (simupy/matrices.py:67-70) also promises a single list argument and a dict argument. The code cannot handle either:
  - `*subs` then wraps the list in a one-element tuple, so the comprehension indexes the whole list as if it were one pair.
  - The `dict` branch is unreachable, because `*subs` is always a tuple.

  Only the two forms the code handles are modelled: `matrix_subs(A, B)` and `matrix_subs((A, B), (C, D), ...)`.
- **Missing state cell.** Every entry of `mat_var` is in `vec_var`, so `vec_var.index` (simupy/matrices.py:197) cannot fail. The only lookup error is an IndexError, raised when the derivative matrix has a cell the state matrix lacks.
- **Empty arrays.** `np.nditer` over an array with no element raises ValueError (`EmptyIteration`), both in `system_from_matrix_DE` and in `matrix_callable`.

## Model

`GatherAt`, `GatherOverAt`, `BatchSliceIsSingleCall` and `LastCellStep`
only unfold a definition. They are listed because they state a promise of
the code in the code's own terms, not because they hold proof work.

| member | source | states |
|---|---|---|
| Exprs.IndexOf | simupy/matrices.py:197 | `list.index`: finds a position exactly when the value occurs, and the position found is the first one holding the value |
| Exprs.FlattenEntries | simupy/matrices.py:191 | `sp.flatten` of a matrix holds exactly the entries of the matrix |
| Exprs.FlattenAt | simupy/matrices.py:146 | row-major flattening puts entry (i, j) of a w-column matrix at offset i*w + j |
| Construct.PlainMatrix | simupy/matrices.py:50-53 | the plain grid is n x m, and no unknown occurs in two cells |
| Construct.DiagonalMatrix | simupy/matrices.py:45-48 | the diagonal grid is m x m, zero off the diagonal, and holds the plain unknown (k+1, k+1) at (k, k) |
| Construct.SymmetricMatrix | simupy/matrices.py:55-58 | the symmetric grid is n x n and equal to its transpose, and keeps the plain unknown on and above the diagonal |
| Construct.ConstructExplicitMatrix | simupy/matrices.py:42-59 | raises ValueError exactly when n != m and diagonal or symmetric is asked; diagonal takes precedence over symmetric; the in-place symmetric loop yields the symmetric grid, otherwise the plain one |
| Construct.PlainSymbolCount | simupy/matrices.py:50-53 | the plain grid holds n*m distinct unknowns |
| Construct.SymmetricSymbolCount | simupy/matrices.py:55-58 | the symmetric grid holds n(n+1)/2 distinct unknowns |
| Construct.DiagonalSymbolCount | simupy/matrices.py:45-48 | the diagonal grid holds m distinct unknowns besides zero, and holds zero exactly when m >= 2 |
| Subs.NonzeroPositionsExact | simupy/matrices.py:78-80 | the cells a pair contributes are exactly the in-bounds cells where `from` is nonzero, in strictly increasing row-major order |
| Subs.FitsExact | simupy/matrices.py:77 | a pair is readable exactly when `to` has every cell where `from` is nonzero |
| Subs.PairSubsExact | simupy/matrices.py:76-81 | one pair yields as many element pairs as `from` has nonzero cells, and (x, y) is among them exactly when some nonzero cell holds x in `from` and y in `to` |
| Subs.SequenceSubsAppend | simupy/matrices.py:76-78 | several pairs contribute their element pairs concatenated in argument order |
| Subs.BarePairAsSequence | simupy/matrices.py:73-74 | `matrix_subs(A, B)` returns what `matrix_subs((A, B))` returns, namely the pairs of (A, B) |
| Subs.MatrixSubsFails | simupy/matrices.py:76-81 | the call raises IndexError exactly when some pair's `to` lacks a cell where its `from` is nonzero |
| Subs.SameShapeFits | simupy/matrices.py:76-81 | two matrices of one shape never raise |
| Subs.DiagonalSubsCount | simupy/matrices.py:76-81 | a diagonal m x m `from` yields exactly m element pairs |
| Subs.FullSubs | simupy/matrices.py:76-81 | a `from` with no zero entry yields n*m pairs, and pair i*m + j is (A[i][j], B[i][j]) |
| Blocks.RowJoinSpec | simupy/matrices.py:110-111 | joining two h-row blocks side by side gives an h-row matrix with a's columns followed by b's |
| Blocks.HStackShape | simupy/matrices.py:110-111 | a grid row of equally tall blocks joins to one matrix as wide as the blocks together |
| Blocks.HStackAt | simupy/matrices.py:110-111 | block k's entry (r, c) lands at column (widths of blocks before k) + c |
| Blocks.VStackShape | simupy/matrices.py:108-109 | equally wide matrices stack to one matrix as tall as they are together |
| Blocks.VStackAt | simupy/matrices.py:108-109 | row r of matrix k lands at row (heights of matrices before k) + r |
| Blocks.JoinedRowsSpec | simupy/matrices.py:108-113 | a compatible grid joins to one matrix per grid row, each as tall as its blocks and all as wide as the first |
| Blocks.BlockMatrixShape | simupy/matrices.py:108-113 | the block matrix is as tall as the grid rows together and as wide as any joined row |
| Blocks.BlockMatrixAt | simupy/matrices.py:108-113 | entry (r, c) of block (bi, bj) is at row (heights of grid rows before bi) + r and column (widths of blocks before bj) + c |
| Blocks.AsWrittenAgreesOnTwoByTwo | simupy/matrices.py:108-113 | on a 2 x 2 grid the code as written computes the intended block matrix |
| Blocks.AsWrittenRejectsOtherGrids | simupy/matrices.py:108-113 | on any other grid the code as written raises |
| Blocks.OneByThreeCounterexample | simupy/matrices.py:108-113 | three 1 x 1 blocks in one grid row: the code raises TypeError, and the intended result is the 1 x 3 row |
| Blocks.TwoByTwoExample | simupy/matrices.py:108-113 | four 1 x 1 blocks in a 2 x 2 grid give the 2 x 2 matrix of their entries |
| Trajectory.UnravelAsWritten | simupy/matrices.py:145-146 | the keys are flattened only when the array has more than one dimension; a one-dimensional array is left without an `index` to search it |
| Trajectory.Unravel | simupy/matrices.py:145-146 | the keys searched are the list itself, or exactly the entries of the flattened key array |
| Trajectory.UnravelGridAt | simupy/matrices.py:146 | a key array of two dimensions is searched in row-major order |
| Trajectory.CallAsWritten | simupy/matrices.py:145-165 | a call of the closure as written: a layout without cells raises ValueError first, a one-dimensional key array then raises AttributeError at the first lookup, and any other keys give what the closure built from them returns |
| Trajectory.VectorKeysCounterexample | simupy/matrices.py:145-160 | with one key `a` in a one-dimensional array and layout [[a]], the call as written raises AttributeError while the closure over the same keys returns [[x]]; with an empty layout the ValueError comes first |
| Trajectory.UnravelAgrees | simupy/matrices.py:145-146 | apart from a one-dimensional array, the keys are those of the code as written |
| Trajectory.FirstGridSlot | simupy/matrices.py:146-160 | in the row-major unravelling of a key array, a key is found at the offset of the first cell holding it |
| Trajectory.GridKeysSelectFirstCell | simupy/matrices.py:144-164 | a single-time call on the closure built from a key array of two dimensions succeeds and fills cell (i, j) with the component at the row-major offset of the first array cell holding that cell's key |
| Trajectory.Slot | simupy/matrices.py:160 | the component a key reads is at the first position of the key |
| Trajectory.GatherAt | simupy/matrices.py:159-164 | cell (i, j) of a single-time call holds v[unraveled.index(raveled[i][j])] |
| Trajectory.AliasedCellsAgree | simupy/matrices.py:157-164 | cells with the same key receive the same value |
| Trajectory.GatherDistinct | simupy/matrices.py:160-164 | with duplicate-free keys, a cell keyed by the k-th key reads component k |
| Trajectory.GatherOverAt | simupy/matrices.py:161-162 | in a batch call, out[k][i][j] is component idx of the interpolated value at time k, with time as the leading axis |
| Trajectory.BatchSliceIsSingleCall | simupy/matrices.py:151-164 | each time slice of a batch is the single-time matrix for the values at that time |
| Trajectory.FillMatrix | simupy/matrices.py:155-164 | the single-time fill loop raises ValueError exactly when some key of the layout is missing, and otherwise fills every cell with the component its key selects |
| Trajectory.FillStack | simupy/matrices.py:152-162 | the batch fill loop raises ValueError exactly when some key is missing, and otherwise fills every time slice with the values at that time |
| Trajectory.FillRun | simupy/matrices.py:162 | `matrix_result[..., i, j] = run` writes cell (i, j) at every time and nothing else |
| Trajectory.Call | simupy/matrices.py:148-165 | a layout without cells raises ValueError; a missing key raises ValueError; a list of more than one time gives the stack, and any other argument gives one matrix; the result is the value `Outcome` gives for the closure, the argument and the interpolated values |
| VectorForm.Deduplicate | simupy/matrices.py:191 | the state vector has no duplicates and holds exactly the entries of the state matrix, in any order |
| VectorForm.LastCellSpec | simupy/matrices.py:194-198 | the cell found holds the unknown and no later cell before the bound does; no cell is found only when no earlier cell holds the unknown |
| VectorForm.LastCellStep | simupy/matrices.py:196-198 | visiting a cell makes it the last cell seen for its own unknown and for no other |
| VectorForm.ScatterDerivatives | simupy/matrices.py:192-198 | the scatter loop raises IndexError exactly when the derivative matrix has a cell the state matrix lacks, and otherwise leaves the vector `Scatter` describes |
| VectorForm.SystemFromMatrixDE | simupy/matrices.py:191-201 | an empty derivative matrix raises ValueError; a cell outside the state raises IndexError; otherwise the result is a duplicate-free state holding exactly the state's entries, the scattered derivative, and the inputs and constants passed on unchanged |
| VectorForm.ScatterLastWins | simupy/matrices.py:194-198 | where several cells share an unknown, the slot holds the derivative of the last of them in row-major order |
| VectorForm.ScatterUntouched | simupy/matrices.py:192 | a slot whose unknown no cell visits keeps its initial zero |
| VectorForm.StateHoldsEveryKey | simupy/matrices.py:191 | the deduplicated state contains every entry of the state matrix, so the lookup at line 197 cannot fail |
| VectorForm.GatherAfterScatter | simupy/matrices.py:191-198 | gathering the scattered derivative through the state matrix gives back a derivative that respects aliasing |
| VectorForm.ScatterAfterGather | simupy/matrices.py:191-198 | scattering a gathered vector gives back the vector |

## Left out

- Symbol creation is left out: `sp.symbols` versus `dynamicsymbols` (the `dynamic` flag) and `**kwass` forwarding. An unknown is `Sym(name, row, col)`, not the formatted name `name_ij`, which is ambiguous for indices of 10 or more.
- sympy semantics beyond "is the literal zero" are left out. `!= 0` is a comparison with `Zero`, and no expression is simplified.
- The interpolator `callable_from_trajectory` (simupy/matrices.py:144) is left out: it is numerical, works in floating point and is external. What it returns at a call is an input of `Trajectory.Call`.
- The samples `tt`, `x` and `x.shape` (simupy/matrices.py:142) only feed the interpolator and are not modelled.
- `DynamicalSystem` and ODE integration (simupy/matrices.py:200-201) are external. `VectorForm.SystemFromMatrixDE` returns the arguments it would receive.
- numpy mechanics are taken as plain row-major iteration and flattening: `np.nditer`, `np.zeros`, and `sp.flatten` of key arrays with more than two dimensions.
- The unreachable `dict` branch of `matrix_subs` (simupy/matrices.py:82-88) is not modelled.
- The mutable default `constants={}` is only passed through and is not modelled.
- `vec_DE` is a column matrix in the code and a sequence in the model.
- Blocks.RowJoin: a sympy matrix with no rows still has a width. A sequence of rows cannot carry that width, so a 0 x k block joins like a 0 x 0 block.
- Blocks.BlockMatrixShape: states its result only for compatible grids, which have blocks of positive height, equal heights within a grid row and equal joined widths. Other grids end in `ShapeMismatch` or in one of the null-matrix cases.
- Trajectory.Call: requires the interpolator's output to have one component per key and, in a batch, one value per requested time. numpy broadcasting of other shapes is not modelled, and neither is the IndexError raised by a shorter output.
- Trajectory.Call: the argument is a real number or a list of reals. Tuples and arrays behave like lists. A zero-dimensional array, whose `len` raises TypeError, is not modelled.
- VectorForm.SystemFromMatrixDE: requires the derivative matrix to be rectangular, as every sympy matrix is.

## Findings

| source | as written | input that shows it | evidently intended | confidence | as-written member | corrected member |
|---|---|---|---|---|---|---|
| simupy/matrices.py:108-113 | `sp.Matrix.row_join(*row)` and `sp.Matrix.col_join(*rows)` pass every block to joins that take one matrix and exactly one partner, so only grids of 2 rows of 2 blocks are accepted | `block_matrix([[A, B, C]])` with three 1 x 1 blocks raises TypeError | join any number of blocks per row, left to right, and stack any number of rows, as the docstring's "two level deep iterable" describes | not executed; follows from the arity of sympy's `row_join` and `col_join` | Blocks.OneByThreeCounterexample | Blocks.BlockMatrixAt |
| simupy/matrices.py:145-160 | a key array is flattened only when it has more than one dimension; a one-dimensional numpy array is kept, and `unraveled.index` then raises AttributeError | `unraveled = np.array([a])` with `raveled = np.array([[a]])` | a one-dimensional array of keys, as the docstring's "1D array-like" allows, is searched like a list | not executed; numpy arrays have no `index` method | Trajectory.VectorKeysCounterexample | Trajectory.Unravel |
