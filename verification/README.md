# Tentative prolongator construction of SAAMGE (`ContribTent`)

This project is a Dafny model of the part of SAAMGE's coarse-space
construction that builds the tentative prolongator from per-MIS (minimal
intersection set) contributions, with proofs about it. It covers:

- packing the candidate vectors of the aggregates touching an MIS into one
  send matrix;
- the boundary filter, which zeroes exact zeros and essential-boundary
  entries and drops the columns this empties;
- the deterministic extensions: a constant column, linear polynomials, and
  rigid-body modes;
- the per-MIS choice of a local basis: empty, the 1x1 identity, or the
  truncated SVD of the filtered contributions;
- the insertion of each basis into the sparse prolongator at consecutive
  columns;
- the prefix scan that numbers a rank's coarse dofs after those of the lower
  ranks;
- finalisation to a matrix with exactly as many columns as were filled.

Modules, one concept each:

| file | module | models |
|---|---|---|
| `outcomes.dfy` | `Outcomes` | `SA_ASSERT` and `throw 1` as `Err` values |
| `dense.dfy` | `Dense` | mfem `DenseMatrix`, column-major, over exact reals |
| `partition.dfy` | `Partition` | the fields of `agg_partitioning_relations_t` the construction reads |
| `abs_compare.dfy` | `AbsCompare` | `abs_pair_compare` |
| `boundary_filter.dfy` | `BoundaryFilter` | `contrib_filter_boundary` |
| `tentative.dfy` | `Tentative` | the `ContribTent` state, `contrib_tent_insert_simple`, `contrib_tent_finalize` |
| `extension.dfy` | `Extension` | `ExtendWithPolynomials`, `ExtendWithConstants`, `ExtendWithRBMs` |
| `packing.dfy` | `Packing` | the send-matrix packing of `CommunicateEigenvectors` |
| `svd_insert.dfy` | `SvdInsertion` | `SVDInsert` |
| `scan.dfy` | `Scan` | `coarse_truedof_offset` from `MPI_Scan` |

Modelling choices:

- **Matrices.** A `Matrix` is a height and a list of columns of `real`. The
  tests in `contrib.cpp` are exact comparisons (`a == 0.0`, `fabs(v) > threshold_`),
  so exact reals are faithful to them.
- **Failures.** Every assertion `ContribTent` relies on, and every `throw 1`, is
  an `Err` carrying which check failed. Reads `ContribTent` never checks
  (restriction rows, coordinates) become preconditions instead.
- **Boundary test.** `agg_is_dof_on_essential_border` is membership in a set
  of boundary dofs.
- **Sparse matrix.** The matrix under construction is a map from (row, column)
  to value. `Set` overwrites, so an MIS row list with repeated dofs keeps the
  last value written. `Tentative.InsertedValueExact` states the exact value
  for distinct rows.
- **SVD.** `xpack_svd_dense_arr` followed by `xpack_orth_set` is a function
  parameter `svd`, constrained by `IsTruncatedSvd`. Its result has the MIS's
  height, at most as many columns as its input, and at most as many columns as
  rows. A zero-width result stands for "every singular value was trimmed"
  (`svals.Size() == 0`). Once a singular value survives, the orthonormal set
  keeps at least the leading vector.
- **MPI_Scan.** The collective is a pure function of the list of every rank's
  coarse-dof count. `MPI_Sum` of counts 0..rank, minus this rank's own count,
  is the sum over the lower ranks.

## Model

| member | source | states |
|---|---|---|
| AbsCompare.AbsPairCompare | amg/src/contrib.cpp:44-55 | the result is -1, 0 or 1, and is -1 / 1 / 0 exactly when the first magnitude is smaller / larger / equal |
| AbsCompare.Antisymmetric | amg/src/contrib.cpp:44-55 | swapping the two pairs negates the result |
| AbsCompare.Transitive | amg/src/contrib.cpp:44-55 | "not greater" is transitive, so qsort gets a total preorder |
| AbsCompare.IgnoresIndexAndSign | amg/src/contrib.cpp:44-55 | pairs that differ only in index or in the sign of the value compare equal |
| BoundaryFilter.FilterOneColumn | amg/src/contrib.cpp:126-145 | the new column keeps every entry that is neither 0 nor (with avoidance on) on a boundary row, and has 0 elsewhere; `atleastone` is true exactly when some entry was kept |
| BoundaryFilter.FilterBoundary | amg/src/contrib.cpp:102-163 | fails exactly on a matrix without columns; otherwise the height is unchanged, the width does not grow, and the columns are the filtered surviving columns in their original order |
| BoundaryFilter.KeptIndices | amg/src/contrib.cpp:126-157 | the kept column indices are strictly increasing, in range, and contain an index exactly when that column survives |
| BoundaryFilter.DroppedIffAllZeroed | amg/src/contrib.cpp:126-157 | a column is dropped exactly when every entry is zeroed; a kept column's filtered copy sits at its index's position among the kept ones |
| BoundaryFilter.AllSurviveKeepsAll | amg/src/contrib.cpp:146-157 | when every column survives, every index is kept, in order |
| BoundaryFilter.FilterIdempotent | amg/src/contrib.cpp:102-163 | a filtered matrix passes through the filter unchanged |
| BoundaryFilter.DropsBoundaryOnlyColumn | amg/src/contrib.cpp:126-157 | a column nonzero only on a boundary row is dropped, and a column with an interior nonzero is kept with its boundary entry zeroed |
| Tentative.NewBuilder | amg/src/contrib.cpp:57-67 | a new builder has `ND` rows, no filled column, no entry, threshold 0, and the avoidance switch it was given |
| Tentative.InsertSimple | amg/src/contrib.cpp:170-194 | fails exactly on width 0 or height below width. On success the counter advances by exactly the width and nothing else about the builder changes. Earlier entries are kept. Every entry above the threshold at (j, i) is stored at (`restriction[j]`, old counter + i). Every new entry comes from such a position, in a new column |
| Tentative.SetColumn | amg/src/contrib.cpp:184-191 | one column's pass stores every entry above the threshold at its fine row in the current column and touches no earlier entry |
| Tentative.InsertedValueExact | amg/src/contrib.cpp:184-191 | with distinct MIS rows, a stored entry holds exactly the local value, which is above the threshold |
| Tentative.InsertedPlaced | amg/src/contrib.cpp:170-194 | with distinct MIS rows, what the insertion promises about its new entries places the whole basis: every entry above the threshold is stored with its exact value at (its fine row, old counter + its column), and no other entry of the basis is stored |
| Tentative.Finalize | amg/src/contrib.cpp:73-95 | the operator has `rows` rows and exactly `filled_cols` columns, holds the same entries, every entry lies inside it, and it has no entry when no column was filled |
| Extension.PolyExtended | amg/src/contrib.cpp:323-347 | old columns come first, unchanged; then a column of ones; for order 1, column `swidth+d+1` holds coordinate d of each dof; the width grows by 1 or `sd+1` |
| Extension.ExtendWithPolynomials | amg/src/contrib.cpp:302-351 | fails exactly when an owned MIS has a height mismatch or an order other than 0 and 1, with the error of the first owned MIS that fails, from the check it fails first; non-owned slots are unchanged; an absent owned slot starts as a `mis_size` x 0 matrix; an owned slot's first matrix is replaced by its extension and the rest are kept |
| Extension.ExtendWithConstants | amg/src/contrib.cpp:293-299 | fails only on a height mismatch; every owned MIS gains exactly one column, all 1.0, after its unchanged old columns, and the matrices after the first in its slot are kept |
| Extension.RbmExtended | amg/src/contrib.cpp:380-397 | old columns come first, unchanged, followed by 1, 3 or 6 new columns |
| Extension.ExtendWithRBMs | amg/src/contrib.cpp:353-436 | fails exactly when an owned MIS has a height mismatch, a dimension other than 1, 2 or 3, a size not divisible by the dimension, or a node number out of range; the error is that of the first owned MIS that fails, from the check it fails first in `ExtendWithRBMs`'s order; non-owned slots are unchanged; owned slots get the rigid-body extension |
| Extension.RbmValueAt | amg/src/contrib.cpp:399-432 | the value of each new column on each component of a node: translation, rotation (y, -x), and in 3-D (0, z, -y) and (-z, 0, x), zero where `ExtendWithRBMs` writes nothing |
| Extension.RbmModesAtNode | amg/src/contrib.cpp:399-432 | the same at the rows of one node of the extended matrix: translation column c is 1 exactly on component c, and the rotation columns hold the coordinates given above |
| Extension.Rbm2DTwoNodes | amg/src/contrib.cpp:399-422 | in 2-D with two nodes, the new columns are exactly (1,0,1,0), (0,1,0,1) and (y0,-x0,y1,-x1) |
| Packing.PackOne | amg/src/contrib.cpp:524-543 | the send matrix has the MIS's height, its width is the sum of its aggregates' candidate widths, and its columns are the restricted blocks one after another |
| Packing.PackSendMatrices | amg/src/contrib.cpp:518-546 | one send matrix per MIS, of height `mis_size` and width the sum over its aggregate row; column i of block j sits at column (widths of blocks before j) + i |
| Packing.ConcatPlacement | amg/src/contrib.cpp:536-543 | column i of block j is at offset (sum of the earlier widths) + i of the packed columns |
| Packing.UnpackBlock | amg/src/contrib.cpp:536-543 | cutting the packed columns at a block's offset and width gives back exactly that block |
| Packing.WidthsAgree | amg/src/contrib.cpp:528-533 | the first pass's width count equals the total width of the restricted blocks |
| SvdInsertion.FilterAll | amg/src/contrib.cpp:615-622 | filtering the first `row_size` contributions fails exactly when one has no column; otherwise it yields their filtered copies, all of the MIS's height, with no more columns in total |
| SvdInsertion.FilterAndDecompose | amg/src/contrib.cpp:615-637 | fails exactly when a contribution has no column; otherwise it chooses the empty basis when nothing survived and the decomposition otherwise; the result fits the MIS and has no more columns than the inputs |
| SvdInsertion.InsertBasis | amg/src/contrib.cpp:646-654 | a non-empty basis is inserted at the next free columns, its width is the recorded count, and every new entry lies on one of the MIS's dofs. With distinct MIS dofs, entry (j, i) of the basis is stored with its exact value at (dof j, counter + i) when its magnitude is above the threshold, and nothing is stored there otherwise |
| SvdInsertion.ProcessMis | amg/src/contrib.cpp:564-679 | a non-owned MIS gets count 0 and nothing changes. An owned MIS fails exactly on a height mismatch or a column-less contribution. It is empty when all its dofs are on the boundary (checked before the size-1 case), [1.0] when it has one dof, and the filtered decomposition otherwise. The count equals the inserted width, new entries lie on the MIS's dofs in its new columns, and the chosen basis is stored there entry by entry: every value above the threshold exactly, no other |
| SvdInsertion.InsertNext | amg/src/contrib.cpp:564-679 | one MIS step keeps the running invariant: the counter, the per-MIS choices, the placement of every basis, and the locality of every new entry |
| SvdInsertion.PlacedStep | amg/src/contrib.cpp:646-670 | the bases placed so far stay placed with their values, and the new basis starts right after the columns counted so far |
| SvdInsertion.LocalStep | amg/src/contrib.cpp:646-670 | every new entry stays inside the block of the MIS that wrote it |
| SvdInsertion.InsertAll | amg/src/contrib.cpp:564-680 | the loop over the MISes, in order, stops with an error exactly when some owned MIS fails. Otherwise every MIS has been processed and the running invariant holds for all of them: counter, choices, placement with values and locality |
| SvdInsertion.SvdInsert | amg/src/contrib.cpp:551-687 | fails exactly when some owned MIS fails. Every MIS gets the basis and count `SVDInsert` chooses, and `num_coarse_dofs` is the sum of the counts. The counter advances by exactly that sum and the other builder settings are unchanged. Each MIS's basis occupies the columns right after those of the MISes before it: an entry above the threshold is stored there with its exact value, any other entry is absent. No entry is written outside those blocks. The offset is the sum of the lower ranks' counts |
| Scan.CoarseTruedofOffset | amg/src/contrib.cpp:683-685 | the inclusive scan minus the rank's own count is the sum of the counts of the lower ranks |
| Scan.OffsetsContiguous | amg/src/contrib.cpp:683-685 | the next rank's numbering starts right after this rank's last coarse dof |
| Scan.OffsetsCoverTotal | amg/src/contrib.cpp:683-685 | the last rank's numbering ends at the global number of coarse dofs |
| Scan.GlobalIdInRange | amg/src/contrib.cpp:683-685 | with non-negative counts, every global coarse-dof id lies in [0, total) |
| Scan.GlobalIdsDistinct | amg/src/contrib.cpp:683-685 | different local coarse dofs, on the same rank or on different ranks, get different global ids |

## Left out

- The MPI exchange is not modelled: `SharedEntityCommunication` with its `ReducePrepare`, `ReduceSend` and `Collect`, and the real `MPI_Scan` collective. The packing stops at the send matrices. `SVDInsert` takes the received lists and every rank's count as inputs.
- `agg_restrict_to_agg_enforce` is outside this model. `Packing` takes the already restricted blocks as input, each of the MIS's height and of its aggregate's candidate width.
- `row_sizes` (the number of contributions per MIS, `sec.NumNeighbors`) is an input.
- The LAPACK calls `xpack_svd_dense_arr`, `xpack_orth_set` and `xpack_solve_lls` are not modelled. Neither is the `scaling_P` normalisation with its square root and `local_coarse_one_representation`: that is floating-point numerics behind foreign calls. The SVD is a parameter with a contract only.
- `contrib_tent_insert_from_local` is deprecated. The filter-then-insert pair has replaced it.
- Logging (`SA_PRINTF`, `SA_ALERT_PRINTF`) and the `testmesh` dumps are I/O.
- The drivers `contrib_linears`, `contrib_ones`, `contrib_mises` and `contrib_composite` are not modelled as members. `contrib_linears` and `contrib_ones` start from empty per-MIS lists and extend them. `contrib_mises` gathers the lists by the MPI exchange. `contrib_composite` extends the received lists with `ExtendWithPolynomials` only when `num_nodes` equals the number of dofs `ND`, and with `ExtendWithRBMs` otherwise (amg/src/contrib.cpp:728-737). Every driver then calls `SVDInsert`. `contrib_linears` asserts `coords.Size() == spatial_dimension*num_nodes` (amg/src/contrib.cpp:451). That assertion is where the coordinate-length preconditions of `Extension.ExtendWithPolynomials` and `Extension.ExtendWithRBMs` come from. `contrib_composite` does not assert it.
- The declarations in `amg/inc/nonconf.hpp` and the test drivers are not part of this model.
- The `SparseMatrix` bookkeeping (CSR arrays, `Finalize`, `LoseData`) is not modelled. The finalised operator is its shape plus its entries.
- `SvdInsertion.SvdInsert` takes `SA_ASSERT(rows > row)` as a precondition that every MIS dof is a row of the operator. `SVDInsert` checks only the dofs before the first interior one, and only with avoidance on.
- `SvdInsertion.ReceivedFit` requires all contributions of an owned MIS to share one height. `SVDInsert` checks only the first one; the others have that height by construction.
- `Extension.ExtendWithPolynomials` requires a non-negative spatial dimension for order 1. With a negative one, `ExtendWithPolynomials` would write the ones column outside the matrix it allocated.
- `Extension.ExtendWithRBMs` requires the coordinate vector to hold `sd * num_nodes` entries. mfem's `Vector` does not check its index in release builds.
- `Tentative.InsertSimple` does not model `int` overflow of `filled_cols`. Counters are unbounded naturals, so `SA_ASSERT(filled_cols >= 0)` in `contrib_tent_finalize` holds by type.
- `SvdInsertion.SvdInsert` does not model `int` overflow of `num_coarse_dofs`, the running sum of the per-MIS counts (amg/src/contrib.cpp:562, 670). The sum is an unbounded natural.
- `Scan.CoarseTruedofOffset` does not model overflow of the `MPI_INT` sum that `MPI_Scan` computes (amg/src/contrib.cpp:684). `Scan.Sum` is an unbounded integer sum.
- `SvdInsertion.SvdInsert` requires every MIS's dof row to list each dof once (`Partition.Rels.DistinctDofs`). `mis_to_dof` relates each MIS to the set of its dofs, and `SVDInsert` does not check this. With a repeated dof, `Set` would overwrite the earlier value, and only the per-entry origin stated by `Tentative.InsertSimple` would still hold. `SvdInsertion.ProcessMis` and `SvdInsertion.InsertAll` carry the same requirement.
- `Tentative.Finalize` drops the "no coarse degrees of freedom" warning for zero columns. It is only a print.
