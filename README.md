# HPCG RVV kernels and the RISC-V vectorised benchmark kernels, in Dafny

This project models the sparse linear-algebra kernels of the RISC-V vector
(RVV) port of the HPCG benchmark and three small kernels of the RISC-V
vectorised benchmark suite. The HPCG kernels are:

- ComputeSPMV_ref (sparse matrix times vector);
- ComputeSYMGS_ref (one symmetric Gauss-Seidel step);
- ComputeDotProduct_ref;
- ComputeRestriction_ref and ComputeProlongation_ref (the multigrid transfers).

The benchmark-suite kernels are `spmv_m8.c`, `matmul_m8_T.c` and `axpy_m8.c`.

Every kernel has a scalar path and an RVV path. The RVV path is strip-mined:
`for (i = 0; i < n; i += vl) vl = vsetvl(n - i)`. Both paths are modelled as
imperative Dafny methods over arrays, with loop invariants. Each method is
proved against a specification function. The vector path is proved equal to
the scalar path under stated conditions: gather indices small enough for the
byte-offset shift to be exact (below 2^29 for HPCG, below 2^61 for
`spmv_m8.c`), an injective coarse-to-fine map in the prolongation scatter, a
dot-product accumulator with every lane cleared (the source clears lane 0
only; see "## Findings"), and p >= 1 in `matmul_m8_T.c`. Tail lanes are
taken to be undisturbed, which the source's intrinsics do not guarantee (see
"## Left out").

Floating-point values are Dafny `real`, so every equality holds in exact
arithmetic.

## Modules

- `Sums` (sums.dfy): left-to-right sums of `seq<real>` and their algebra.
- `Rvv` (rvv.dfy): the vector unit.
  - `VectorUnit` pairs VLMAX with the vl that vsetvl returns for each AVL.
    `Conforms` states the constraints of section 6.3 of the RISC-V "V"
    extension 1.0 for every AVL, so each result holds for every vsetvl that
    meets those constraints. Only the choice of vl is general in this way;
    the tail policy is fixed to tail-undisturbed (see "## Left out").
  - The lane operations are vle, vsll, vluxei, vfmul, vfadd, vfsub,
    vfmacc.vf/.vv, the sum reductions, vse and the ordered scatter vsoxei.
  - The shared strip-mine lemma `StripMineVisitsEachOnce` shows that the loop
    visits each index of [0, n) exactly once, in increasing order.
  - `ScaledIndex` is the gather byte offset `(idx << 3) mod 2^w`, read back
    as an element index. Here w = 32 for HPCG and w = 64 for `spmv_m8.c`.
- `Sparse` (sparse_matrix.dfy): HPCG's per-row matrix storage, row sums, and
  the matrix as the vector gather sees it (column indices through
  `ScaledIndex`).
- `ComputeSpmv`, `ComputeSymgs`, `ComputeDotProduct`, `Multigrid`,
  `CsrSpmv`, `Matmul`, `Axpy`: one module per kernel file.
  - Multigrid's `MgData` is a class whose array fields the kernels write in
    place.

In every vector path the gather uses the shifted index. The vector method is
therefore proved equal to the specification applied to those shifted indices.
When every index is small enough, the shift is exact and the result equals
the scalar path: below 2^29 for the 32-bit HPCG offsets, below 2^61 for the
64-bit `spmv_m8.c` offsets.

## Model

| member | source | states |
|---|---|---|
| Rvv.VlBounds | benchmarks/HPCG_rvv/src/ComputeDotProduct_ref.cpp:93 | a conforming vsetvl grants 1 <= vl <= min(AVL, VLMAX) for every positive AVL |
| Rvv.GreedyUnitConforms | benchmarks/riscv-vectorized-benchmark-suite/_axpy/src/axpy_m8.c:34 | the vsetvl that grants min(AVL, VLMAX) obeys section 6.3 for every VLMAX >= 1, so the vsetvl constraints can be met |
| Rvv.StripMineVisitsEachOnce | benchmarks/HPCG_rvv/src/ComputeDotProduct_ref.cpp:91-93 | the loop `i += vl, vl = vsetvl(n - i)` visits exactly the indices i..n-1, in increasing order, in chunks of 1..VLMAX |
| Rvv.StripMineCountsOnce | benchmarks/HPCG_rvv/src/ComputeDotProduct_ref.cpp:103-105 | every index below n is visited exactly once and no other index is visited |
| Rvv.ScaledIndexExact | benchmarks/HPCG_rvv/src/ComputeSPMV_ref.cpp:103-107 | the index a shifted gather reads never exceeds the column index, and equals it exactly when the index is below 2^(w-3) |
| Rvv.ScaledIndexWraps32 | benchmarks/HPCG_rvv/src/ComputeSPMV_ref.cpp:105 | column index 2^29 wraps in the 32-bit shift and gathers x[0] |
| Rvv.VfmaccSum | benchmarks/HPCG_rvv/src/ComputeDotProduct_ref.cpp:112 | vfmacc.vv adds the sum of the lane products to the sum of the accumulator, tail lanes included |
| Rvv.VsoxeiAt | benchmarks/HPCG_rvv/src/ComputeProlongation_ref.cpp:77 | an ordered scatter writes lane l at offset l when no offset repeats, and leaves every element no lane addresses unchanged |
| Rvv.StoreIndexedOrdered | benchmarks/HPCG_rvv/src/ComputeProlongation_ref.cpp:77 | the in-place scatter store leaves the buffer equal to Vsoxei of its old contents |
| Sums.SumSplit | benchmarks/HPCG_rvv/src/ComputeSPMV_ref.cpp:100-118 | a prefix sum splits at any point, which is how each chunk extends the running sum |
| Sums.SumPointwise | benchmarks/HPCG_rvv/src/ComputeSYMGS_ref.cpp:83-87 | summing a pointwise sum of two sequences is the sum of the two sums (the diagonal split) |
| Sparse.ScaledColumns | benchmarks/HPCG_rvv/src/ComputeSPMV_ref.cpp:103-107 | the shifted matrix keeps shape, values and diagonal, and each column index becomes ScaledIndex of the original |
| Sparse.ScaledColumnsIdentity | benchmarks/HPCG_rvv/src/ComputeSPMV_ref.cpp:92 | when every column index is below 2^29 the shifted matrix agrees with the original on every stored entry |
| Sparse.RowSumLocal | benchmarks/HPCG_rvv/src/ComputeSPMV_ref.cpp:76-85 | a row sum depends only on that row and the x entries it names |
| Sparse.ChunkProductsAreTerms | benchmarks/HPCG_rvv/src/ComputeSPMV_ref.cpp:103-111 | the gathered chunk of products is exactly terms j..j+vl-1 of the shifted row |
| Sparse.ChunkExtendsPrefix | benchmarks/HPCG_rvv/src/ComputeSPMV_ref.cpp:114-117 | adding the reduction of a chunk extends the prefix sum of the row by that chunk |
| Sparse.ScaledPrefixSumEnds | benchmarks/HPCG_rvv/src/ComputeSPMV_ref.cpp:90-119 | the row prefix sum starts at zero and ends at the full row sum |
| ComputeSpmv.RowSumScalar | benchmarks/HPCG_rvv/src/ComputeSPMV_ref.cpp:77-83 | the inner loop computes the sum over every nonzero of row i, diagonal included |
| ComputeSpmv.RowSumVector | benchmarks/HPCG_rvv/src/ComputeSPMV_ref.cpp:90-118 | the strip-mined inner loop computes the same row sum over the shifted column indices |
| ComputeSpmv.SpmvScalar | benchmarks/HPCG_rvv/src/ComputeSPMV_ref.cpp:56-85 | returns 0; y[0..nrow) is A*x and y[nrow..] is unchanged |
| ComputeSpmv.SpmvVector | benchmarks/HPCG_rvv/src/ComputeSPMV_ref.cpp:89-124 | returns 0; y[0..nrow) is (shifted A)*x, which is A*x, the scalar result, when every column index is below 2^29; y[nrow..] is unchanged |
| ComputeSpmv.MatVecAgree | benchmarks/HPCG_rvv/src/ComputeSPMV_ref.cpp:76-85 | matrices that agree on every stored entry give the same product |
| ComputeSpmv.MatVecRowLocal | benchmarks/HPCG_rvv/src/ComputeSPMV_ref.cpp:76-85 | y[i] depends only on row i and the x entries it names, never on other entries of y |
| ComputeSpmv.MatVecEmptyRow | benchmarks/HPCG_rvv/src/ComputeSPMV_ref.cpp:77-84 | a row with no nonzeros yields y[i] = 0 |
| ComputeSpmv.Identity | benchmarks/HPCG_rvv/src/ComputeSPMV_ref.cpp:76-85 | the n-by-n identity is well formed, with one nonzero diagonal per row stored once |
| ComputeSpmv.MatVecIdentity | benchmarks/HPCG_rvv/src/ComputeSPMV_ref.cpp:76-85 | the identity times x is x |
| ComputeSpmv.MatVecExample | benchmarks/HPCG_rvv/src/ComputeSPMV_ref.cpp:76-85 | the 1-by-1 identity times [3] is [3] |
| ComputeSymgs.ResidualScalar | benchmarks/HPCG_rvv/src/ComputeSYMGS_ref.cpp:81-86 | the scalar inner loop leaves r[i] minus the full row sum |
| ComputeSymgs.ResidualVector | benchmarks/HPCG_rvv/src/ComputeSYMGS_ref.cpp:118-143 | the strip-mined inner loop leaves r[i] minus the full row sum over the shifted column indices |
| ComputeSymgs.RowUpdateFromResidual | benchmarks/HPCG_rvv/src/ComputeSYMGS_ref.cpp:87-89 | adding x[i] times the diagonal to the residual and dividing by the diagonal is the row update |
| ComputeSymgs.UpdateRowScalar | benchmarks/HPCG_rvv/src/ComputeSYMGS_ref.cpp:76-90 | one row step writes only x[i], with the row update computed from the current x |
| ComputeSymgs.UpdateRowVector | benchmarks/HPCG_rvv/src/ComputeSYMGS_ref.cpp:113-149 | the RVV row step writes only x[i], with the row update of the shifted matrix |
| ComputeSymgs.SymgsScalar | benchmarks/HPCG_rvv/src/ComputeSYMGS_ref.cpp:60-109 | needs x to hold exactly the local columns; returns 0; x becomes the forward sweep 0..nrow-1 followed by the backward sweep nrow-1..0 |
| ComputeSymgs.SymgsVector | benchmarks/HPCG_rvv/src/ComputeSYMGS_ref.cpp:111-194 | returns 0; x becomes the symmetric sweep of the shifted matrix, which is the scalar result when every column index is below 2^29 |
| ComputeSymgs.ForwardUntouched | benchmarks/HPCG_rvv/src/ComputeSYMGS_ref.cpp:76-91 | the forward sweep up to row k leaves rows k.. and the halo untouched |
| ComputeSymgs.ForwardSettled | benchmarks/HPCG_rvv/src/ComputeSYMGS_ref.cpp:76-91 | a row passed by the forward sweep is not written again in that sweep |
| ComputeSymgs.ForwardUsesUpdatedRows | benchmarks/HPCG_rvv/src/ComputeSYMGS_ref.cpp:81-89 | row k of the forward sweep is computed from the final values of rows below k and the input values of rows k.. (Gauss-Seidel, not Jacobi) |
| ComputeSymgs.BackwardUntouched | benchmarks/HPCG_rvv/src/ComputeSYMGS_ref.cpp:95-109 | the backward sweep down to row k leaves rows below k and the halo untouched |
| ComputeSymgs.BackwardSettled | benchmarks/HPCG_rvv/src/ComputeSYMGS_ref.cpp:95-109 | a row passed by the backward sweep is not written again in that sweep |
| ComputeSymgs.BackwardUsesUpdatedRows | benchmarks/HPCG_rvv/src/ComputeSYMGS_ref.cpp:100-108 | row k of the backward sweep is computed from the final values of rows above k and the forward-sweep values of rows up to k |
| ComputeSymgs.SymgsLeavesHalo | benchmarks/HPCG_rvv/src/ComputeSYMGS_ref.cpp:68-71 | the halo slots x[nrow..ncol) keep their values |
| ComputeSymgs.RowSumSplitsDiagonal | benchmarks/HPCG_rvv/src/ComputeSYMGS_ref.cpp:83-87 | with the diagonal stored once, the full row sum is the off-diagonal sum plus the diagonal term |
| ComputeSymgs.RowUpdateSkipsDiagonal | benchmarks/HPCG_rvv/src/ComputeSYMGS_ref.cpp:47 | the add-back update equals the textbook update (r[i] - off-diagonal sum) / diagonal |
| ComputeSymgs.RowUpdateSolvesRow | benchmarks/HPCG_rvv/src/ComputeSYMGS_ref.cpp:81-89 | right after row i is updated, row i's equation holds for the current x |
| ComputeSymgs.ForwardSolvesRow | benchmarks/HPCG_rvv/src/ComputeSYMGS_ref.cpp:81-89 | in the forward sweep, row k's equation holds right after row k is written |
| ComputeSymgs.BackwardSolvesRow | benchmarks/HPCG_rvv/src/ComputeSYMGS_ref.cpp:100-108 | in the backward sweep, row k's equation holds right after row k is written |
| ComputeSymgs.SymgsZeroFixedPoint | benchmarks/HPCG_rvv/src/ComputeSYMGS_ref.cpp:76-109 | with r zero on the owned rows and x all zero, x stays all zero |
| ComputeSymgs.SymgsAgree | benchmarks/HPCG_rvv/src/ComputeSYMGS_ref.cpp:113-190 | matrices that agree on every stored entry give the same sweep |
| ComputeSymgs.RowUpdateAgree | benchmarks/HPCG_rvv/src/ComputeSYMGS_ref.cpp:146-148 | matrices that agree on row i update row i alike |
| ComputeSymgs.SymgsExample | benchmarks/HPCG_rvv/src/ComputeSYMGS_ref.cpp:76-109 | on the 1-by-1 identity with r = [3] and x = [0], both sweeps give [3] |
| ComputeDotProduct.DotProductScalar | benchmarks/HPCG_rvv/src/ComputeDotProduct_ref.cpp:53-74 | needs n within both vectors; the aliased and the general loop both give the sum of x[i]*y[i] for i < n; time_allreduce gains exactly 0; returns 0 |
| ComputeDotProduct.ChunkProductsAreProducts | benchmarks/HPCG_rvv/src/ComputeDotProduct_ref.cpp:108-112 | the lane products of one chunk are products i..i+vl-1 |
| ComputeDotProduct.ChunkStepSum | benchmarks/HPCG_rvv/src/ComputeDotProduct_ref.cpp:108-112 | one chunk adds exactly products i..i+vl-1 to the sum of the lanes |
| ComputeDotProduct.LanesAfterStep | benchmarks/HPCG_rvv/src/ComputeDotProduct_ref.cpp:103-105 | one turn of the strip-mined loop takes 1..n-i elements and continues at i + vl |
| ComputeDotProduct.ChunkSumsIsSum | benchmarks/HPCG_rvv/src/ComputeDotProduct_ref.cpp:103-113 | summing a sequence chunk by chunk, as vsetvl cuts it, is its sum |
| ComputeDotProduct.AddLeadingSum | benchmarks/HPCG_rvv/src/ComputeDotProduct_ref.cpp:112 | adding a chunk into the leading lanes adds its sum to the lane sum |
| ComputeDotProduct.AddChunksSum | benchmarks/HPCG_rvv/src/ComputeDotProduct_ref.cpp:103-113 | adding every chunk into the lanes adds the chunked sum |
| ComputeDotProduct.ChunkStepAdds | benchmarks/HPCG_rvv/src/ComputeDotProduct_ref.cpp:108-112 | a turn's vfmacc adds the chunk's products into the leading lanes |
| ComputeDotProduct.LanesAfterAddsChunks | benchmarks/HPCG_rvv/src/ComputeDotProduct_ref.cpp:103-113 | the lanes after the loop are the starting lanes plus every chunk of products |
| ComputeDotProduct.LanesAfterSum | benchmarks/HPCG_rvv/src/ComputeDotProduct_ref.cpp:103-117 | the lanes after the loop sum to the starting sum plus the sum of products i.. |
| ComputeDotProduct.AccumulateSquares | benchmarks/HPCG_rvv/src/ComputeDotProduct_ref.cpp:89-100 | the aliased loop leaves the lanes of the chunk-by-chunk vfmacc of x with itself |
| ComputeDotProduct.AccumulateProducts | benchmarks/HPCG_rvv/src/ComputeDotProduct_ref.cpp:101-113 | the general loop leaves the lanes of the chunk-by-chunk vfmacc of x with y |
| ComputeDotProduct.DotProductVector | benchmarks/HPCG_rvv/src/ComputeDotProduct_ref.cpp:79-135 | with all VLMAX lanes cleared first, both branches give the sum of x[i]*y[i] for i < n, the scalar result; time_allreduce gains exactly 0; returns 0 |
| ComputeDotProduct.AsWrittenAddsStale | benchmarks/HPCG_rvv/src/ComputeDotProduct_ref.cpp:84-118 | for every n and every VLMAX, with lane 0 zeroed by vfmv.s.f and the other lanes holding stale values, the final reduction returns the sum of the stale lanes plus the dot product of the first n entries |
| ComputeDotProduct.StaleLaneCounterexample | benchmarks/HPCG_rvv/src/ComputeDotProduct_ref.cpp:84-118 | with VLMAX = 2, n = 1, x = y = [1] and a stale 5 in lane 1, the kernel as written gives 6 where the dot product is 1 |
| ComputeDotProduct.DotSelfNonNegative | benchmarks/HPCG_rvv/src/ComputeDotProduct_ref.cpp:68 | the aliased shortcut, a sum of squares, is never negative |
| ComputeDotProduct.DotSymmetric | benchmarks/HPCG_rvv/src/ComputeDotProduct_ref.cpp:64-74 | the dot product does not depend on the order of its arguments |
| ComputeDotProduct.DotPrefix | benchmarks/HPCG_rvv/src/ComputeDotProduct_ref.cpp:55-56 | only the first n entries of x and y matter |
| ComputeDotProduct.DotStep | benchmarks/HPCG_rvv/src/ComputeDotProduct_ref.cpp:73 | each iteration adds x[n]*y[n] |
| ComputeDotProduct.DotExample | benchmarks/HPCG_rvv/src/ComputeDotProduct_ref.cpp:68 | [3]·[3] = 9 |
| Multigrid.MgData.constructor | benchmarks/HPCG_rvv/src/ComputeRestriction_ref.cpp:49-53 | the multigrid data holds the injection f2c, rc, xc and Axf, and establishes Valid(): f2c and rc have one entry per coarse point, xc has at least as many, and the three vectors are distinct arrays |
| Multigrid.Restriction | benchmarks/HPCG_rvv/src/ComputeRestriction_ref.cpp:47-60 | returns 0; rc[i] = rf[f2c[i]] - Axf[f2c[i]] for every i < nc; rf, Axf and f2c are unchanged |
| Multigrid.RestrictChunkIsRestrict | benchmarks/HPCG_rvv/src/ComputeRestriction_ref.cpp:64-79 | one chunk computes elements i..i+vl-1 of the restriction through the shifted indices |
| Multigrid.ScaleAllBelow | benchmarks/HPCG_rvv/src/ComputeRestriction_ref.cpp:69-73 | shifted in-range indices stay in range |
| Multigrid.ScaleAllExact | benchmarks/HPCG_rvv/src/ComputeRestriction_ref.cpp:69 | indices below 2^29 survive the 32-bit shift unchanged |
| Multigrid.RestrictionVector | benchmarks/HPCG_rvv/src/ComputeRestriction_ref.cpp:61-87 | returns 0; rc is the restriction through the shifted indices, which is the scalar result when every f2c[i] is below 2^29 |
| Multigrid.RestrictPrefix | benchmarks/HPCG_rvv/src/ComputeRestriction_ref.cpp:60 | the first k elements of rc do not depend on the later ones |
| Multigrid.RestrictLocal | benchmarks/HPCG_rvv/src/ComputeRestriction_ref.cpp:60 | rc[i] depends only on rf and Axf at index f2c[i] |
| Multigrid.RestrictZeroResidual | benchmarks/HPCG_rvv/src/ComputeRestriction_ref.cpp:60 | where rf equals Axf at every injected point, rc is zero |
| Multigrid.AddRangeAt | benchmarks/HPCG_rvv/src/ComputeProlongation_ref.cpp:58 | after the sequential scatter-add, each fine element holds its old value plus every xc[i] aimed at it |
| Multigrid.AddedAtDistinct | benchmarks/HPCG_rvv/src/ComputeProlongation_ref.cpp:56-58 | with distinct indices, the fine point f2c[j] receives exactly xc[j] and any other point receives nothing |
| Multigrid.AddRangeDistinctAt | benchmarks/HPCG_rvv/src/ComputeProlongation_ref.cpp:56-58 | with distinct indices, xf[f2c[j]] gains xc[j] and every other element is unchanged |
| Multigrid.ProlongateDistinct | benchmarks/HPCG_rvv/src/ComputeProlongation_ref.cpp:56-58 | with f2c injective on [0, nc), Prolongation adds xc[i] to xf[f2c[i]] and leaves every other fine element unchanged |
| Multigrid.AddRangeCompose | benchmarks/HPCG_rvv/src/ComputeProlongation_ref.cpp:58 | scatter-adding [lo, mid) and then [mid, hi) is scatter-adding [lo, hi) |
| Multigrid.AddRangeIndicesAgree | benchmarks/HPCG_rvv/src/ComputeProlongation_ref.cpp:58 | index sequences that agree on [lo, hi) scatter-add alike |
| Multigrid.Prolongation | benchmarks/HPCG_rvv/src/ComputeProlongation_ref.cpp:46-58 | returns 0; xf becomes the sequential scatter-add xf[f2c[i]] += xc[i] for i = 0..nc-1 |
| Multigrid.ChunkOffsetsBelow | benchmarks/HPCG_rvv/src/ComputeProlongation_ref.cpp:65-67 | the shifted offsets of a chunk address elements of xf |
| Multigrid.ChunkAddAt | benchmarks/HPCG_rvv/src/ComputeProlongation_ref.cpp:65-77 | with no repeated index in the chunk, the gather-add-scatter adds xc[j] at the shifted f2c[j] and changes nothing else |
| Multigrid.ChunkAddSequential | benchmarks/HPCG_rvv/src/ComputeProlongation_ref.cpp:62-77 | with no repeated index in the chunk, one chunk equals the sequential loop over that chunk |
| Multigrid.SameAdditions | benchmarks/HPCG_rvv/src/ComputeProlongation_ref.cpp:58 | two results that both add xc[j] at every idx[j] and keep every other element are equal |
| Multigrid.ProlongateChunksSequential | benchmarks/HPCG_rvv/src/ComputeProlongation_ref.cpp:62-79 | with no repeated index, the strip-mined loop equals the sequential scatter-add |
| Multigrid.ProlongateChunksStep | benchmarks/HPCG_rvv/src/ComputeProlongation_ref.cpp:62-63 | one turn takes 1..nc-i indices and continues at i + vl |
| Multigrid.ProlongateLoop | benchmarks/HPCG_rvv/src/ComputeProlongation_ref.cpp:62-79 | the in-place loop leaves xf as the chunk-by-chunk gather-add-scatter |
| Multigrid.ProlongateTurn | benchmarks/HPCG_rvv/src/ComputeProlongation_ref.cpp:63-77 | one turn advances by 1..nc-i and preserves what the remaining chunks will produce |
| Multigrid.ProlongateChunk | benchmarks/HPCG_rvv/src/ComputeProlongation_ref.cpp:65-77 | one chunk's loads, vfadd and ordered scatter leave xf as ChunkAdd of its old contents |
| Multigrid.ProlongateChunksDone | benchmarks/HPCG_rvv/src/ComputeProlongation_ref.cpp:62 | an exhausted loop leaves xf unchanged |
| Multigrid.ProlongationVector | benchmarks/HPCG_rvv/src/ComputeProlongation_ref.cpp:60-82 | returns 0; with f2c injective and every index below 2^29, xf is the scalar scatter-add |
| Multigrid.ProlongateChunksExact | benchmarks/HPCG_rvv/src/ComputeProlongation_ref.cpp:56-79 | with f2c injective and below 2^29, the vector loop equals the scalar loop for every conforming vsetvl |
| Multigrid.RepeatedIndexLosesAddition | benchmarks/HPCG_rvv/src/ComputeProlongation_ref.cpp:69-77 | with f2c = [0, 0] in one chunk, the vector path adds 1 where the scalar path adds 2: one addition is lost |
| Multigrid.RestrictThenProlongate | benchmarks/HPCG_rvv/src/ComputeProlongation_ref.cpp:58 | prolongating the restricted residual adds rf - Axf back at each injected fine point |
| Multigrid.RestrictExample | benchmarks/HPCG_rvv/src/ComputeRestriction_ref.cpp:60 | f2c = [0, 2], rf = [5, 5, 5, 5] and Axf = [1, 1, 1, 1] give rc = [4, 4] |
| CsrSpmv.RowBounds | benchmarks/riscv-vectorized-benchmark-suite/_spmv/src/spmv_m8.c:31-32 | row pointers of a well-formed CSR matrix are nondecreasing from ia[0] to ia[nrows] |
| CsrSpmv.RowSliceInRange | benchmarks/riscv-vectorized-benchmark-suite/_spmv/src/spmv_m8.c:79-80 | every slice [ia[row], ia[row+1]) lies in a and ja and names elements of x |
| CsrSpmv.RowSerial | benchmarks/riscv-vectorized-benchmark-suite/_spmv/src/spmv_m8.c:78-81 | the idx loop computes the sum of a[idx]*x[ja[idx]] over the row's slice |
| CsrSpmv.SpmvSerial | benchmarks/riscv-vectorized-benchmark-suite/_spmv/src/spmv_m8.c:76-84 | y[0..nrows) is the CSR product and y[nrows..] is unchanged |
| CsrSpmv.ScaledIndicesIn | benchmarks/riscv-vectorized-benchmark-suite/_spmv/src/spmv_m8.c:47-51 | shifted in-range column indices stay in range |
| CsrSpmv.ScaledCsrWellFormed | benchmarks/riscv-vectorized-benchmark-suite/_spmv/src/spmv_m8.c:49 | the matrix with 64-bit shifted column indices is still well formed |
| CsrSpmv.CsrChunkIsSlice | benchmarks/riscv-vectorized-benchmark-suite/_spmv/src/spmv_m8.c:45-53 | the gathered chunk of products is terms c..c+vl-1 of the shifted row |
| CsrSpmv.ChunkExtendsSlicePrefix | benchmarks/riscv-vectorized-benchmark-suite/_spmv/src/spmv_m8.c:45-59 | adding the reduction of a chunk extends the row's prefix sum by that chunk |
| CsrSpmv.SliceSumIntrinsics | benchmarks/riscv-vectorized-benchmark-suite/_spmv/src/spmv_m8.c:37-59 | the colid loop computes the full sum of the row's shifted terms |
| CsrSpmv.RowIntrinsics | benchmarks/riscv-vectorized-benchmark-suite/_spmv/src/spmv_m8.c:31-71 | both branches, the empty row included, give the shifted row sum |
| CsrSpmv.CsrScaledIdentity | benchmarks/riscv-vectorized-benchmark-suite/_spmv/src/spmv_m8.c:49-51 | when x has at most 2^61 elements, the shifted product is the product |
| CsrSpmv.SpmvIntrinsics | benchmarks/riscv-vectorized-benchmark-suite/_spmv/src/spmv_m8.c:22-74 | y[0..nrows) is the shifted CSR product, which is spmv_serial's result when x has at most 2^61 elements; y[nrows..] is unchanged |
| CsrSpmv.CsrToRowsRow | benchmarks/riscv-vectorized-benchmark-suite/_spmv/src/spmv_m8.c:79-80 | converting CSR to per-row storage puts exactly slice [ia[r], ia[r+1]) in row r |
| CsrSpmv.CsrToRowsWellFormed | benchmarks/riscv-vectorized-benchmark-suite/_spmv/src/spmv_m8.c:79-80 | the converted matrix is well formed |
| CsrSpmv.CsrRowTermsAgree | benchmarks/riscv-vectorized-benchmark-suite/_spmv/src/spmv_m8.c:79-80 | a CSR row's terms are the terms of the converted row |
| CsrSpmv.CsrAgreesWithRowStorage | benchmarks/riscv-vectorized-benchmark-suite/_spmv/src/spmv_m8.c:76-83 | every CSR row sum equals the per-row-storage row sum of the HPCG kernel |
| CsrSpmv.CsrRowLocal | benchmarks/riscv-vectorized-benchmark-suite/_spmv/src/spmv_m8.c:79-82 | y[row] depends only on the row's slice and the x entries it names |
| CsrSpmv.CsrEmptyRow | benchmarks/riscv-vectorized-benchmark-suite/_spmv/src/spmv_m8.c:34-35 | an empty row yields 0 on both paths |
| CsrSpmv.CsrExample | benchmarks/riscv-vectorized-benchmark-suite/_spmv/src/spmv_m8.c:76-83 | [[2, 0], [1, 3]] times [1, 1] is [2, 4] |
| Matmul.FlatIsProduct | benchmarks/riscv-vectorized-benchmark-suite/_matmul/src/matmul_m8_T.c:23 | the flat index is i*cols + j and a matrix has rows*cols cells |
| Matmul.FlatOrder | benchmarks/riscv-vectorized-benchmark-suite/_matmul/src/matmul_m8_T.c:59-63 | row-major order of (i, j) is the order of their flat indices |
| Matmul.FlatBound | benchmarks/riscv-vectorized-benchmark-suite/_matmul/src/matmul_m8_T.c:63 | every cell of a rows-by-cols matrix lies below rows*cols |
| Matmul.FlatInjective | benchmarks/riscv-vectorized-benchmark-suite/_matmul/src/matmul_m8_T.c:23 | distinct cells have distinct flat indices |
| Matmul.DimsInRange | benchmarks/riscv-vectorized-benchmark-suite/_matmul/src/matmul_m8_T.c:63 | with buffers of m*p and p*n elements, every factor of entry (i, j) exists |
| Matmul.ProductStep | benchmarks/riscv-vectorized-benchmark-suite/_matmul/src/matmul_m8_T.c:60-64 | writing entry (i, j) extends the finished part of C by one entry |
| Matmul.AccumulateEntry | benchmarks/riscv-vectorized-benchmark-suite/_matmul/src/matmul_m8_T.c:61-64 | the k loop writes only c[i*n+j], with the sum of a[i*p+k]*b[k*n+j] for k < p |
| Matmul.MatmulSerial | benchmarks/riscv-vectorized-benchmark-suite/_matmul/src/matmul_m8_T.c:58-66 | c[i*n+j] is the sum of a[i*p+k]*b[k*n+j] for every i < m and j < n; c beyond m*n is unchanged |
| Matmul.TransposeStep | benchmarks/riscv-vectorized-benchmark-suite/_matmul/src/matmul_m8_T.c:23 | one write keeps every earlier transposed element and adds (i, j) |
| Matmul.Transpose | benchmarks/riscv-vectorized-benchmark-suite/_matmul/src/matmul_m8_T.c:20-25 | after step 1, b_T[j*p+i] = b[i*n+j] for all i < p and j < n, and b_T beyond n*p is unchanged |
| Matmul.LaterChunksFit | benchmarks/riscv-vectorized-benchmark-suite/_matmul/src/matmul_m8_T.c:30-36 | every later vsetvl(p - k) grants no more lanes than the vprod register was cleared with |
| Matmul.RowChunk | benchmarks/riscv-vectorized-benchmark-suite/_matmul/src/matmul_m8_T.c:39-42 | vle64 at row*p + k loads elements k.. of that row |
| Matmul.RowInside | benchmarks/riscv-vectorized-benchmark-suite/_matmul/src/matmul_m8_T.c:39 | row i of an m-by-p buffer lies inside it |
| Matmul.ChunkFits | benchmarks/riscv-vectorized-benchmark-suite/_matmul/src/matmul_m8_T.c:35-36 | each chunk has 1..p-k lanes, within the cleared register, and after the first chunk k reaches vsetvl(p) |
| Matmul.TransposedChunkOnRows | benchmarks/riscv-vectorized-benchmark-suite/_matmul/src/matmul_m8_T.c:39-45 | one turn is a vfmacc of the two rows' chunks at k |
| Matmul.DotChunk | benchmarks/riscv-vectorized-benchmark-suite/_matmul/src/matmul_m8_T.c:35-46 | one turn adds exactly products k..k+vl-1 of the two rows to the lane sum |
| Matmul.ChunkExtendsRowPrefix | benchmarks/riscv-vectorized-benchmark-suite/_matmul/src/matmul_m8_T.c:45 | a vfmacc of a chunk extends the prefix of the row product sum by that chunk |
| Matmul.AccumulateRows | benchmarks/riscv-vectorized-benchmark-suite/_matmul/src/matmul_m8_T.c:35-46 | the k loop leaves lanes that sum to all p products of row i of a and row j of b_T |
| Matmul.AccumulateChunk | benchmarks/riscv-vectorized-benchmark-suite/_matmul/src/matmul_m8_T.c:36-45 | one turn advances by 1..p-k and extends the lane sum by that chunk |
| Matmul.DotTransposed | benchmarks/riscv-vectorized-benchmark-suite/_matmul/src/matmul_m8_T.c:30-50 | clearing, accumulating and reducing gives the dot product of row i of a and row j of b_T |
| Matmul.RowPrefixEnds | benchmarks/riscv-vectorized-benchmark-suite/_matmul/src/matmul_m8_T.c:31-49 | the empty prefix sums to 0 and the full prefix is the dot product |
| Matmul.TransposedFactors | benchmarks/riscv-vectorized-benchmark-suite/_matmul/src/matmul_m8_T.c:39-42 | element k of row i of a is a[i][k], and of row j of b_T is b[k][j] |
| Matmul.TransposedTerm | benchmarks/riscv-vectorized-benchmark-suite/_matmul/src/matmul_m8_T.c:45 | the k-th product of the two rows is the k-th term of entry (i, j) |
| Matmul.EntryTermAt | benchmarks/riscv-vectorized-benchmark-suite/_matmul/src/matmul_m8_T.c:63 | the k-th term of entry (i, j) is a[i*p+k]*b[k*n+j] |
| Matmul.TransposedRowsInRange | benchmarks/riscv-vectorized-benchmark-suite/_matmul/src/matmul_m8_T.c:39-42 | row i of a, row j of b_T and every factor of entry (i, j) lie in their buffers |
| Matmul.TransposedRowsGiveEntry | benchmarks/riscv-vectorized-benchmark-suite/_matmul/src/matmul_m8_T.c:28-50 | with b_T the transpose of b, the dot product of row i of a and row j of b_T is entry (i, j) of A*B |
| Matmul.MatrixmulIntrinsics | benchmarks/riscv-vectorized-benchmark-suite/_matmul/src/matmul_m8_T.c:18-53 | b_T is the transpose of b, c is A*B as matmul_serial computes it, and neither buffer changes beyond n*p or m*n |
| Matmul.FlatCovers | benchmarks/riscv-vectorized-benchmark-suite/_matmul/src/matmul_m8_T.c:63 | every flat index below rows*cols is some cell (i, j) |
| Matmul.ProductUnique | benchmarks/riscv-vectorized-benchmark-suite/_matmul/src/matmul_m8_T.c:58-66 | two buffers that both hold A*B agree on the first m*n elements, so the serial and vector results are equal |
| Matmul.MatmulExample | benchmarks/riscv-vectorized-benchmark-suite/_matmul/src/matmul_m8_T.c:58-66 | [[1, 2], [3, 4]] * [[5, 6], [7, 8]] has entries 19 at (0, 0) and 50 at (1, 1) |
| Matmul.Compare | benchmarks/riscv-vectorized-benchmark-suite/_matmul/src/matmul_m8_T.c:71-82 | returns true exactly when some a[i*dn+j] differs from b[i*dn+j] for i < dm and j < dn |
| Matmul.MismatchNextRow | benchmarks/riscv-vectorized-benchmark-suite/_matmul/src/matmul_m8_T.c:73-78 | a mismatch in the first i+1 rows is one in the first i rows or one in row i |
| Matmul.NoSelfMismatch | benchmarks/riscv-vectorized-benchmark-suite/_matmul/src/matmul_m8_T.c:71-82 | comparing a buffer with itself never reports a mismatch |
| Axpy.AxpyChunkExtends | benchmarks/riscv-vectorized-benchmark-suite/_axpy/src/axpy_m8.c:35-38 | a chunk right after the done prefix extends it by vl elements |
| Axpy.AxpyStep | benchmarks/riscv-vectorized-benchmark-suite/_axpy/src/axpy_m8.c:22 | updating element i extends the done prefix by one |
| Axpy.AxpySerial | benchmarks/riscv-vectorized-benchmark-suite/_axpy/src/axpy_m8.c:19-24 | dy[i] = old dy[i] + a*dx[i] for i < n and dy is unchanged from n on, also when dx is dy |
| Axpy.AxpyVector | benchmarks/riscv-vectorized-benchmark-suite/_axpy/src/axpy_m8.c:28-42 | gives the same dy as axpy_serial, also when dx is dy |
| Axpy.AxpyVectorChunk | benchmarks/riscv-vectorized-benchmark-suite/_axpy/src/axpy_m8.c:35-38 | one turn's loads, vfmacc.vf and store update dy[i..i+vl) from the values before the turn, and leave dx from i+vl on unchanged |
| Axpy.AxpyIdentity | benchmarks/riscv-vectorized-benchmark-suite/_axpy/src/axpy_m8.c:21-22 | with a = 0 or n <= 0, dy is unchanged |
| Axpy.AxpyCompose | benchmarks/riscv-vectorized-benchmark-suite/_axpy/src/axpy_m8.c:22 | two axpys with the same x are one axpy with the scalars added |
| Axpy.AxpyInverse | benchmarks/riscv-vectorized-benchmark-suite/_axpy/src/axpy_m8.c:22 | axpy with -a undoes axpy with a |
| Axpy.AxpyExample | benchmarks/riscv-vectorized-benchmark-suite/_axpy/src/axpy_m8.c:19-24 | a = 2, x = [1, 2], y = [10, 20, 30], n = 2 gives [12, 24, 30] |

## Left out

- Floating-point rounding, FMA contraction and reduction order are not modelled. Values are `real`, and every equality is exact. Unordered `vfredusum` and ordered `vfredosum` are the same sum here, and so are the scalar and vector summation orders.
- MPI is not modelled: `ExchangeHalo`, `MPI_Allreduce` and `mytimer`. The kernels are modelled as in the `HPCG_NO_MPI` build. The halo is taken as already filled, and `time_allreduce` gains exactly 0.0.
- OpenMP `parallel for` pragmas are not modelled; each loop runs sequentially.
- RVV register state is modelled only as the active lanes; register grouping is not modelled, and tail lanes are taken to be undisturbed. The source calls the unsuffixed (tail-agnostic) intrinsics, for instance `vfmacc_vv` at `matmul_m8_T.c` line 45 and `ComputeDotProduct_ref.cpp` lines 99 and 112, and the reductions at `matmul_m8_T.c` line 49 and `ComputeDotProduct_ref.cpp` line 117 read lanes that a shorter final chunk left in its tail. Under a tail-agnostic policy those lanes may be overwritten with all ones, so the vector-equals-scalar results for `Matmul.MatrixmulIntrinsics` and `ComputeDotProduct.DotProductVector` hold only for an implementation that leaves tails undisturbed, or for the `_tu` intrinsics.
- ComputeDotProduct.DotProductVector: clears all VLMAX accumulator lanes before the loop, where the source writes lane 0 only with vfmv.s.f; the source's behaviour is modelled separately (see Findings).
- Matmul.MatrixmulIntrinsics: requires p >= 1, because with p = 0 the final vfredusum runs with vl = 0 and leaves the reduced value unspecified.
- HPCG's `assert` checks on vector lengths (ComputeSYMGS_ref.cpp line 62, ComputeDotProduct_ref.cpp lines 55-56, ComputeSPMV_ref.cpp lines 58-59) become preconditions. The code aborts rather than returning an error code, so there is no error path to model.
- The in-range index requirements (f2c below the fine length, column indices below the local column count) are preconditions. The code reads out of bounds otherwise.
- Multigrid.ProlongateLoop: takes xc and f2c as sequences rather than arrays. The kernel only reads them, and the caller passes their contents.
- Multigrid.ProlongateChunk: also takes xc and f2c as sequences; the array xf is still updated in place.
- The HPCG `Vector`, `SparseMatrix` and `MGData` types are not part of this model. Only the fields the kernels read are modelled, as the `SparseMatrix` datatype and the `MgData` class.
- The benchmark drivers are not part of this model: input generation, timing and result printing.
- Matmul.MatmulSerial, Matmul.MatrixmulIntrinsics, CsrSpmv.SpmvSerial, ComputeSymgs.SymgsScalar and the other kernels: C integer widths are not modelled. Dimensions and loop counters are unbounded `nat`/`int`, so the model does not capture overflow of the `int` index products `i * n + j`, `i * p + k` and `j * p + i` in `matmul_m8_T.c` (lines 23, 39, 42, 50, 61, 63), the `int row` counter compared with a `size_t` bound in `spmv_m8.c` line 77, or the `int` nonzero counts in `ComputeSYMGS_ref.cpp` lines 79 and 98.
- Matmul.MatrixmulIntrinsics: takes m, n and p as `nat`. In the source, a negative `int m` or `n` compared with a `size_t` counter (`matmul_m8_T.c` lines 28-29) converts to a huge unsigned bound; that case is not modelled.
- ComputeSpmv.SpmvScalar, ComputeSpmv.SpmvVector: require x != y. With x and y the same vector, later rows would read entries already overwritten; the source does not forbid that call, and that behaviour is not modelled.
- ComputeSymgs.SymgsScalar, ComputeSymgs.SymgsVector: require r != x. The source reads r while it updates x in place; the aliased call is not modelled.
- CsrSpmv.SpmvSerial, CsrSpmv.SpmvIntrinsics: require y != a and y != x. The aliased calls are not modelled.
- Matmul.MatmulSerial, Matmul.MatrixmulIntrinsics: require c to be distinct from a and b, and the transpose buffer b_T from a, b and c. The aliased calls are not modelled.
- Multigrid.Restriction, Multigrid.RestrictionVector: require rf != mg.rc. The aliased call is not modelled.
- Multigrid.Prolongation, Multigrid.ProlongationVector: require xf != mg.xc. The aliased call is not modelled.
- ComputeSymgs.SymgsScalar, ComputeSymgs.SymgsVector: require `A.HasDiagonal()`, a nonzero stored diagonal entry in every row. `ComputeSYMGS_ref.cpp` states this only in its header comment (line 37) and never checks it before dividing by the diagonal (lines 89, 108, 148 and 189). A zero diagonal gives an infinity or NaN in IEEE arithmetic, which `real` cannot represent, so that case is not modelled.
- ComputeDotProduct.Count, ComputeDotProduct.AccumulatorAsWritten: helpers without a row of their own. The iteration count of a signed loop, and the accumulator that vfmv.s.f leaves, are stated through the lemmas that use them.

## Findings

| source | as written | input that shows it | evidently intended | confidence | as-written member | corrected member |
|---|---|---|---|---|---|---|
| benchmarks/HPCG_rvv/src/ComputeDotProduct_ref.cpp:84 | `vfmv_s_f` writes 0.0 into lane 0 only, but the reduction at line 117 sums all VLMAX lanes, so for every n the result is the dot product plus whatever lanes 1..VLMAX-1 held before | VLMAX = 2, n = 1, x = y = [1.0], lane 1 holding 5.0: result 6.0 instead of 1.0 (ComputeDotProduct.StaleLaneCounterexample) | clear every lane, for example with `vfmv_v_f`, so that the result is the sum of x[i]*y[i]; the loop's `vfmacc` also needs its tail-undisturbed `_tu` form (lines 99 and 112), since the unsuffixed form may overwrite the tail lanes of a short final chunk | not executed | ComputeDotProduct.AsWrittenAddsStale | ComputeDotProduct.DotProductVector |
