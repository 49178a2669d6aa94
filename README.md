# Linear-operator blocks of prost, in Dafny

prost solves convex problems min_x f(Kx) + g(x) with a primal-dual method on the GPU. Its
operator K is assembled from blocks, and each block adds its own product into a slice of
the result. This project models the two kinds of block and proves what their evaluation
computes.

**BlockSparse** (`include/linop/block_sparse.hpp`) is a sparse block given by compressed
columns (CSC).
- `CreateFromCSC` stores the columns. The header does not show where the compressed rows
  (CSR) are derived. This model derives them in `Initialize` with `csr2csc`, then copies
  both orientations to the device.
- `EvalLocalAdd` adds the block times the input, read through the rows.
- `EvalAdjointLocalAdd` adds the transpose times the input, read through the columns.
- `row_sum` and `col_sum` add up the magnitudes of one row or column. `gpu_mem_amount`
  counts the device bytes.
- The header declares `csr2csc` only by its interface: CSR in, CSC out, not in place, and
  the pattern only when the value array is null. The model implements it over arrays as
  the usual counting sort: zero the column counts, count, take prefix sums, scatter
  while advancing a cursor per column, then shift the cursors back. Its specification is `SparseMatrix.Transpose`: the entries grouped stably by
  column. The CSC arrays of an m x n matrix are the CSR arrays of its n x m transpose, so
  one conversion serves both directions.

**BlockDiags** (`include/prost/linop/block_diags.hpp`) is the `speye`/`spdiags` operator.
- Diagonal d starts at column `offsets[d]` and is scaled by `factors[d]`. So
  (K x)[i] = sum over d of factors[d] * x[i + offsets[d]], skipping the diagonals whose
  column is outside the block.
- The offsets and factors of all such blocks live in one shared constant-memory pool.
  Each block claims the next `ndiags` slots of it when constructed.
- `ResetConstMem` zeroes the claim counter.
- The static counter is modelled as a `ConstMem` object that every block holds.
- A ghost list of claims records the blocks built since the last reset.

Matrix values are `real`. The element type `T` of the source is not modelled as floating
point.

Modules:
- `Sums`: finite sums, inner products and the accumulate pattern.
- `Compressed`: compressed arrays, the stored entries, and counting-sort order.
- `SparseMatrix`: the transpose as a value, the matrix-vector product, and their properties.
- `Conversion`: the states of the counting sort.
- `LinopSparse`: the `BlockSparse` class, `csr2csc`, and the sparse accumulate.
- `LinopDiags`: the pool, the `BlockDiags` class, and the diagonal operator.

## Model

| member | source | states |
|---|---|---|
| LinopSparse.BlockSparse.constructor | include/linop/block_sparse.hpp:21 | a block records its placement and size; everything it stores starts empty |
| LinopSparse.BlockSparse.CreateFromCSC | include/linop/block_sparse.hpp:24-32 | for an m x n block with n + 1 column pointers from 0 to nnz, never decreasing, and nnz row indices below m: the new block is valid and stores exactly the given CSC arrays |
| LinopSparse.BlockSparse.Initialize | include/linop/block_sparse.hpp:36 | afterwards the CSR arrays are the conversion of the CSC arrays, the device holds both orientations, and the CSC input is unchanged |
| LinopSparse.BlockSparse.DeriveRows | include/linop/block_sparse.hpp:70-72 | the host CSR arrays become the transpose of the stored CSC arrays |
| LinopSparse.BlockSparse.Upload | include/linop/block_sparse.hpp:66-68 | the device arrays equal the host arrays, in both orientations |
| LinopSparse.BlockSparse.Convert | include/linop/block_sparse.hpp:75-80 | running `csr2csc` on arrays holding the CSC of an m x n block yields exactly the transpose of that CSC |
| LinopSparse.BlockSparse.RowSum | include/linop/block_sparse.hpp:38-40 | the sum read from CSR row r is non-negative and equals the sum of the magnitudes of exactly the created entries whose row index is r |
| LinopSparse.BlockSparse.ColSum | include/linop/block_sparse.hpp:38-41 | the sum read from CSC column c is non-negative and equals the sum of the magnitudes of exactly the entries of column c |
| LinopSparse.BlockSparse.GpuMemAmount | include/linop/block_sparse.hpp:43 | the bytes of the device arrays of both orientations; for an initialized block, 4 bytes for each of 2 nnz indices and nrows + ncols + 2 pointers, plus 2 nnz values |
| LinopSparse.BlockSparse.EvalLocalAdd | include/linop/block_sparse.hpp:48-52 | res[resBegin + i] grows by row i of the CSR product with the rhs slice; every other element of res keeps its value |
| LinopSparse.BlockSparse.EvalAdjointLocalAdd | include/linop/block_sparse.hpp:54-58 | the same with the CSC arrays, that is the product with the transpose |
| LinopSparse.BlockSparse.EvalAdjointIsTranspose | include/linop/block_sparse.hpp:48-58 | for a converted block, <y, A x> == <A^T y, x> for all x and y of matching lengths |
| LinopSparse.BlockSparse.Csr2Csc | include/linop/block_sparse.hpp:75-80 | output pointers, row indices and (when a is not null) values are exactly the transpose of the input. With a null value array only the pattern is written |
| LinopSparse.BlockSparse.CountColumns | include/linop/block_sparse.hpp:78-80 | after zeroing and counting, slot c + 1 holds the number of entries in column c |
| LinopSparse.BlockSparse.PrefixSums | include/linop/block_sparse.hpp:78-80 | after the prefix pass, slot c holds the number of entries in the columns before c |
| LinopSparse.BlockSparse.Scatter | include/linop/block_sparse.hpp:78-80 | after the scatter, every entry is in its column's segment, in input order, and each cursor has moved to the end of its segment |
| LinopSparse.BlockSparse.ShiftBack | include/linop/block_sparse.hpp:78-80 | shifting the cursors back restores the column start pointers, beginning with 0 |
| LinopSparse.AddMatVec | include/linop/block_sparse.hpp:48-58 | adds the compressed product row by row into the result slice and leaves the rest of the array alone |
| LinopSparse.MagnitudesSum | include/linop/block_sparse.hpp:40-41 | summing the magnitudes of stored values equals summing the magnitudes of the entries, and is never negative |
| LinopSparse.SmallTranspose | include/linop/block_sparse.hpp:24-32 | the CSC arrays ([0,2,3], [0,1,1], [1,3,4]) of [[1,0],[3,4]] convert to the CSR arrays ([0,1,3], [0,0,1], [1,3,4]) |
| LinopSparse.SmallProducts | include/linop/block_sparse.hpp:48-58 | for that matrix, the forward product with (1, 1) is (1, 7) and the adjoint product is (4, 4) |
| SparseMatrix.Transpose | include/linop/block_sparse.hpp:75-80 | the conversion of a valid n x m matrix is a valid m x n matrix with the same number of entries |
| SparseMatrix.TransposeColumn | include/linop/block_sparse.hpp:75-80 | column c of the output lists exactly the input entries whose column index is c, each with its row index and value, in input order |
| SparseMatrix.TransposeIsPermutation | include/linop/block_sparse.hpp:75-80 | the output entries are the input entries with row and column swapped, as a multiset: nothing lost, nothing added |
| SparseMatrix.TransposeSorted | include/linop/block_sparse.hpp:75-80 | the output of the conversion always has the indices of every row in order, whatever the order of the input |
| SparseMatrix.TransposeRoundTrip | include/linop/block_sparse.hpp:75-80 | so converting the output back and converting again gives the same output |
| SparseMatrix.RoundTrip | include/linop/block_sparse.hpp:75-80 | converting twice gives the input back when the column indices in each row are in order |
| SparseMatrix.Adjoint | include/linop/block_sparse.hpp:48-58 | <y, A x> == <A^T y, x> for an n x m matrix A, any x of length m and any y of length n: the product with the converted arrays is the adjoint of the product with the original ones |
| SparseMatrix.MatVecRows | include/linop/block_sparse.hpp:48-52 | row i of the product is the sum of value * x[column] over exactly the entries of row i |
| Compressed.GroupIsPermutation | include/linop/block_sparse.hpp:75-80 | grouping the entries by column keeps them as a multiset |
| Compressed.StartsValid | include/linop/block_sparse.hpp:75-80 | the group sizes form a valid pointer array: starting at 0, never decreasing, ending at nz |
| Compressed.GroupSorted | include/linop/block_sparse.hpp:75-80 | entries already in order of their key are left as they are by the grouping |
| LinopDiags.ConstMem.constructor | include/prost/linop/block_diags.hpp:63-64 | the shared pool starts with counter 0, no claims and no stored diagonals, and is valid: the counter is the total of the claims |
| LinopDiags.BlockDiags.constructor | include/prost/linop/block_diags.hpp:19-25 | with one offset and one factor per diagonal, the block starts at the current counter, the counter grows by ndiags, and the claim is appended to the pool's record |
| LinopDiags.BlockDiags.ResetConstMem | include/prost/linop/block_diags.hpp:35-36 | the counter and the record of claims go back to zero and empty |
| LinopDiags.ClaimsDisjoint | include/prost/linop/block_diags.hpp:51-64 | after a reset, blocks with n1, n2, ... diagonals start at 0, n1, n1 + n2, ...; their slot ranges do not overlap and lie below the counter |
| LinopDiags.BlockDiags.Initialize | include/prost/linop/block_diags.hpp:29 | the block's diagonals are in its slots of the pool and every other slot is unchanged |
| LinopDiags.HoldsKept | include/prost/linop/block_diags.hpp:51-52 | writing one block's slots leaves any block with a disjoint slot range loaded |
| LinopDiags.BlockDiags.GpuMemAmount | include/prost/linop/block_diags.hpp:31 | the block uses no device memory of its own |
| LinopDiags.BlockDiags.RowSum | include/prost/linop/block_diags.hpp:32 | sums abs(factor) over the diagonals whose column is inside row r; never negative; equals row r of the magnitude operator applied to all ones |
| LinopDiags.BlockDiags.ColSum | include/prost/linop/block_diags.hpp:33 | the mirror: abs(factor) over the diagonals whose row is inside column c; equals the adjoint magnitude operator applied to all ones |
| LinopDiags.RowSumIsProduct | include/prost/linop/block_diags.hpp:32 | the row sum of magnitudes is the magnitude operator applied to all ones, at that row |
| LinopDiags.ColSumIsProduct | include/prost/linop/block_diags.hpp:33 | the column sum of magnitudes is the adjoint magnitude operator applied to all ones, at that column |
| LinopDiags.BlockDiags.ForwardRow | include/prost/linop/block_diags.hpp:39-43 | summing factor * rhs[i + offset] over the loaded diagonals whose column exists gives row i of K x |
| LinopDiags.BlockDiags.AdjointRow | include/prost/linop/block_diags.hpp:45-49 | summing factor * rhs[j - offset] over the loaded diagonals whose row exists gives entry j of K^T y |
| LinopDiags.BlockDiags.EvalLocalAdd | include/prost/linop/block_diags.hpp:39-43 | res[resBegin + i] grows by row i of K times the rhs slice; every other element of res keeps its value |
| LinopDiags.BlockDiags.EvalAdjointLocalAdd | include/prost/linop/block_diags.hpp:45-49 | res[resBegin + j] grows by entry j of K^T times the rhs slice; every other element of res keeps its value |
| LinopDiags.ForwardIsDense | include/prost/linop/block_diags.hpp:9-14 | row i of the diagonal form equals row i of the dense product, where K[i, j] is the sum of the factors of the diagonals through (i, j) |
| LinopDiags.AdjointIsDense | include/prost/linop/block_diags.hpp:9-14 | entry j of the adjoint diagonal form equals column j of the same dense matrix applied to y |
| LinopDiags.AdjointIsTranspose | include/prost/linop/block_diags.hpp:39-49 | <y, K x> == <K^T y, x> for all x and y of matching lengths and any offsets and factors |
| LinopDiags.IdentityOperator | include/prost/linop/block_diags.hpp:9 | one diagonal at offset 0 with factor 1 maps x to x, forward and adjoint |
| LinopDiags.SpeyeBlock | include/prost/linop/block_diags.hpp:9-14 | a square speye block adds exactly its input, forward and adjoint, and every row and column sum is 1 |
| LinopDiags.SmallIdentity | include/prost/linop/block_diags.hpp:32-33 | a 2 x 2 speye block maps (1, 2) to (1, 2), and its row and column sums are all 1 |

## Left out

- `include/prost/backend/backend_pdhg.hpp`: the primal-dual iteration is floating-point work on device vectors. Its step-size rules use square roots, and its proximal operators are not visible. It is not part of this model.
- `bind_matlab/mex/mex_eval_linop.cpp`: MATLAB argument marshalling and logging. It ignores errors after printing them, and it computes `rowsum`/`colsum` into copies that never reach its outputs. It is not part of this model.
- The cuSPARSE handle and descriptor, and the host-to-device copies, are foreign library calls. The device arrays are modelled as fields that `Initialize` sets equal to the host arrays.
- The bodies of the kernels and member functions (the `.cu` files) are not part of this model. Each is modelled on the declared contract. The header gives only the interface of `csr2csc`; the counting sort is the model's choice of algorithm, and its output is pinned down by `SparseMatrix.Transpose` whatever algorithm the source uses.
- LinopSparse.BlockSparse.RowSum: only alpha = 1 is modelled, because |v|^alpha is a floating-point `pow`. The same holds for ColSum and for the RowSum and ColSum of BlockDiags.
- LinopDiags.BlockDiags.constructor: `factors_` is narrowed to `float` in the source. The model keeps it as `real`.
- LinopDiags.BlockDiags.constructor: the header shows no capacity for the constant-memory pool. The model does not bound the counter, and any capacity the device imposes is not modelled.
- A diagonal whose column (row, for the adjoint) is outside the block is skipped and the next one is still counted. Whether the kernel may stop early on sorted offsets is not visible.
- LinopSparse.BlockSparse.Initialize: where the conversion runs and its steps are not visible in the header; the model converts in Initialize with the classic counting sort. If the source converted in `CreateFromCSC` instead, the model's `CreateFromCSC` (which leaves the CSR arrays empty) and `RowSum` (which requires the conversion to have run) would differ from it before `Initialize`.
- LinopSparse.BlockSparse.Csr2Csc: requires output arrays of exactly m + 1 and nz elements, and distinct input and output arrays. The source only documents that it works "not in-place".
- LinopSparse.BlockSparse.EvalLocalAdd: requires only valid CSR arrays on the device, not that they are the conversion of the CSC arrays. `EvalAdjointIsTranspose` relates the two orientations for an initialized block.
- Integer widths: the `int`/`int32_t` indices and pointers, the `size_t` sizes and claim counter, and the `ssize_t` offsets are unbounded integers in the model. Nothing wraps for inputs whose sizes fit those types; overflow beyond them is not modelled.
- Kernel launches and concurrency are not modelled. The accumulate loops run one row at a time.
- `row`/`col` placement in the global operator only fixes which slice of the result and input a block uses. The composition of blocks into K is not part of this model.
