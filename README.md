# hypre: MGR index construction, IJ vector local components, AMG independent set

This project models three pieces of the hypre linear-solver library and
proves properties of the model.

- **MGR (multigrid-reduction) construction, one process.** This is the
  local index and CSR work in `src/parcsr_ls/par_mgr.c`:
  - the C/F splitting (`hypre_MGRSetCpointsByBlock`, `hypre_MGRCoarsen`);
  - the prolongation built from W (`hypre_MGRBuildPFromWpHost`,
    `hypre_ExtendWtoPHost`);
  - the sub-block extraction by row and column markers, with the
    compaction of its off-diagonal columns (`hypre_MGRGetSubBlock`,
    `hypre_MGRBuildAff`);
  - the CPR-style A_CF (`hypre_MGRGetAcfCPR`, `hypre_MGRTruncateAcfCPR`);
  - the block-diagonal index pattern (`hypre_ParCSRMatrixBlockDiagMatrixHost`);
  - the marker-driven vector updates (`hypre_MGRAddVectorP` and `hypre_MGRAddVectorR`).
- **IJ vector stored as a ParVector** (`IJ_matrix_vector/hypre_IJVector_parcsr.c`).
  A class holds the partitioning and the local data buffer. Its methods
  set the local partitioning, initialize and zero the buffer, and set,
  add to and get components, both from an index list and as a block.
- **The AMG independent-set step** (`parcsr_ls/par_indepset.c`,
  `hypre_ParAMGIndepSet`). Graph nodes whose measure exceeds 1 are marked,
  and along every strong edge the endpoint with the smaller measure is
  then removed. Edges come from the diagonal, off-diagonal and external
  blocks of S.

Matrices are CSR values (`Csr.Matrix`: row pointer, column indices,
values). A routine that builds a new matrix fills local arrays with the
source's counting and filling loops. It returns the result as a value,
proved equal to the CSR encoding (`Csr.Encode`) of the rows a
specification function describes. Lemmas then state what those rows
are. Routines that update caller buffers or object state work on arrays
and classes with `modifies` clauses.

Markers are integers. A test on a marker array (`> 0`, `>= 0`, `< 0`,
`== point_type`) gives a selection. `Markers.Rank` is the value a
running counter has at a position, and `Markers.Indices` lists the
selected positions; the two are proved inverse. Coarse points carry
CMRK = 1 and fine points FMRK = -1.

Three places in the IJ vector code depart from its evident intent.
Each is listed under "## Findings" with both an as-written and a corrected member.
   - The index-list range check counts local indices as errors.
   - The block operations write from position 0 of the buffer.
   - `hypre_SetIJVectorParLocalPartitioning` allocates one entry too few.

The class methods follow the code as written for the first two. For the
third, `IJVector.AllocationTooShort` states the code as written, and the
class method uses the corrected allocation of num_procs + 1 entries.

One more behaviour of `hypre_ExtendWtoPHost` is stated rather than
corrected. A point whose marker is exactly 0 gets an identity entry in
column -1. With markers limited to CMRK and FMRK this cannot arise
(`Interp.ExtendZeroMarkerColumn`, `Interp.ExtendNumberingWithoutZero`).

## Model

| member | source | states |
|---|---|---|
| Markers.NumberSelected | src/parcsr_ls/par_mgr.c:1310-1324 | the counter loop gives every selected position its rank and every other position the default value |
| Markers.IndicesSpec | src/parcsr_ls/par_mgr.c:6349-6356 | the listed positions are strictly increasing, each one selected, and every selected position is among them exactly when it is selected |
| Markers.IndexOfRank | src/parcsr_ls/par_mgr.c:6349-6356 | a selected position appears in the list at its rank |
| Markers.RankOfIndex | src/parcsr_ls/par_mgr.c:6363-6367 | the k-th listed position has rank k (the position list and the rank are inverse) |
| CfMarker.MarkCoarse | src/parcsr_ls/par_mgr.c:909-931 | a fresh marker of n points is CMRK exactly at the listed indexes and FMRK elsewhere |
| CfMarker.ForceAndNormalise | src/parcsr_ls/par_mgr.c:953-965 | the fixed coarse indexes become CMRK, then every point that is not CMRK becomes FMRK |
| CfMarker.Coarsen | src/parcsr_ls/par_mgr.c:894-1002 | point i is CMRK iff it is a fixed coarse index or, without cflag, the coarsener marked it CMRK; FMRK otherwise |
| CfMarker.NormalisedProperties | src/parcsr_ls/par_mgr.c:953-965 | after normalisation only CMRK and FMRK occur, fixed indexes are CMRK, and normalising twice changes nothing |
| CfMarker.CflagMatchesEmptyCoarsening | src/parcsr_ls/par_mgr.c:909-965 | when the coarsener marks no point CMRK, the cflag path and the coarsening path give the same marker |
| CfMarker.MgrBlockData.SetCpointsByBlock | src/parcsr_ls/par_mgr.c:715-779 | level l's block marker is CMRK at the first block_num_coarse_points[l] listed indexes and FMRK elsewhere; the counts are copied only when there is a level; the scalar fields are set |
| Interp.BuildPFromWp | src/parcsr_ls/par_mgr.c:1042-1196 | P_diag is the CSR padding of the stacked rows (identity for marker >= 0 numbered by rank, minus the next W_diag row for an F-point) to nnz(Wp_diag) + ncols(Wp_diag); P_offd holds the negated W_offd rows only with several processes |
| Interp.AllocP | src/parcsr_ls/par_mgr.c:1097-1109 | the six P buffers are fresh, distinct and zeroed, with the last row pointers preset to the allocated sizes |
| Interp.RowLoop | src/parcsr_ls/par_mgr.c:1117-1160 | after the loop both blocks' buffers hold the CSR layout of all stacked rows |
| Interp.CountPoint | src/parcsr_ls/par_mgr.c:1124-1158 | after point i the coarse counter is the rank among markers >= 0 and row_Wp the rank among markers < 0 |
| Interp.StackedCoarseIdentity | src/parcsr_ls/par_mgr.c:1124-1131 | the row of a point with marker >= 0 is the single entry (rank, 1.0), and every coarse column occurs |
| Interp.StackedFineRows | src/parcsr_ls/par_mgr.c:1135-1144 | the k-th point with a negative marker takes row k of W, negated for BuildPFromWpHost and as it is for ExtendWtoPHost |
| Interp.PFromWpExact | src/parcsr_ls/par_mgr.c:1097-1102 | with one Wp row per F-point and one column per C-point, the allocation is exact and P_diag is a valid CSR matrix whose rows are the stacked rows |
| Interp.FillTotal | src/parcsr_ls/par_mgr.c:1097-1160 | all stacked rows hold one identity entry per point with marker >= 0 plus the W entries of the F-points |
| Interp.DiagLaidOut | src/parcsr_ls/par_mgr.c:1101 | buffers laid out row by row, with the preset last pointer, equal the padded CSR matrix |
| Interp.OffdLaidOut | src/parcsr_ls/par_mgr.c:1109 | the same for the off-diagonal block, whose unused tail stays zero |
| Interp.ExtendWtoP | src/parcsr_ls/par_mgr.c:1276-1374 | P_diag_i is the row starts of the stacked rows (identity in column fine_to_coarse for markers >= 0, W_diag rows for F-points); P_diag_j/data hold their entries, and the tail is unchanged; P_offd_i[k] counts the W_offd entries of the F-points before k |
| Interp.ExtendRows | src/parcsr_ls/par_mgr.c:1334-1369 | the row loop lays out every diagonal row and writes the running off-diagonal counts |
| Interp.ExtendLayoutValid | src/parcsr_ls/par_mgr.c:1370 | with P_diag_i[n] set to the entries written, the result is a valid CSR matrix with the stacked rows |
| Interp.ExtendZeroMarkerColumn | src/parcsr_ls/par_mgr.c:1319-1343 | a point whose marker is 0 gets the single entry (-1, 1.0), because the numbering tests > 0 and the identity test >= 0 |
| Interp.ExtendNumberingWithoutZero | src/parcsr_ls/par_mgr.c:1302-1343 | without zero markers the numbering of ExtendWtoPHost equals the rank among markers >= 0, as in BuildPFromWpHost |
| SubBlock.GetSubBlock | src/parcsr_ls/par_mgr.c:5924-6399 | the result is the sub-block of the rows with positive row marker: diagonal columns with positive column marker renumbered by rank; off-diagonal block compacted with its column list |
| SubBlock.CountPass | src/parcsr_ls/par_mgr.c:6108-6163 | fine_to_coarse numbers the positive column markers by rank, and the counts are the row count and entry counts of both sub-blocks |
| SubBlock.FillPass | src/parcsr_ls/par_mgr.c:6266-6306 | the second pass writes the CSR layout of the sub-block rows of both blocks |
| SubBlock.Compact | src/parcsr_ls/par_mgr.c:6326-6369 | tmp_map_offd lists the used external columns in increasing order, and each column index becomes its rank among them |
| SubBlock.MarkUsed | src/parcsr_ls/par_mgr.c:6337-6347 | Ablock_marker flags exactly the external columns that occur, and the count is their number |
| SubBlock.ListUsed | src/parcsr_ls/par_mgr.c:6349-6356 | the flagged columns are listed in increasing order |
| SubBlock.BinarySearch | src/parcsr_ls/par_mgr.c:6365-6367 | in a strictly increasing list the result is the position of the value, or -1 exactly when the value is absent |
| SubBlock.Renumber | src/parcsr_ls/par_mgr.c:6363-6367 | every off-diagonal column index is replaced by its position in tmp_map_offd |
| SubBlock.FillSizes | src/parcsr_ls/par_mgr.c:6167-6194 | the sizes the first pass counts are the row count and entry counts of the sub-block |
| SubBlock.SubBlockDiag | src/parcsr_ls/par_mgr.c:6266-6306 | the diagonal sub-block is valid CSR; its row of rank Rank(i) is row i restricted to the selected columns, renumbered, and every column lies below the number of selected columns |
| SubBlock.SubBlockAllSelected | src/parcsr_ls/par_mgr.c:6108-6306 | markers that select every row and column give back the diagonal block exactly and number every point by itself; with several processes and every external column selected, the off-diagonal block before compaction is A_offd itself |
| SubBlock.SubBlockOffd | src/parcsr_ls/par_mgr.c:6326-6369 | the compacted off-diagonal block renumbers the used columns by rank; the column list is increasing, holds exactly the used columns, and maps every new column back to the original |
| SubBlock.BuildAff | src/parcsr_ls/par_mgr.c:6403-6428 | A_FF is the sub-block taken with the sign-flipped marker for rows, columns and external columns |
| SubBlock.AffSelectsF | src/parcsr_ls/par_mgr.c:6410-6422 | with the flipped marker the rows and columns kept are the F-points (negative markers), on and off the process |
| SubBlock.PositiveNegated | src/parcsr_ls/par_mgr.c:6418-6421 | a flipped marker is positive exactly where the marker is negative |
| Cpr.TruncateAcf | src/parcsr_ls/par_mgr.c:2904-2987 | the result is the CSR encoding of row i of A_CF restricted to columns [i*blk, (i+1)*blk), with blk the global columns divided by the global rows |
| Cpr.TruncCount | src/parcsr_ls/par_mgr.c:2935-2947 | the first pass counts the entries of all truncated rows |
| Cpr.TruncateSpec | src/parcsr_ls/par_mgr.c:2936-2981 | the truncated matrix is valid CSR over the same rows, and row i is the windowed row i |
| Cpr.WindowedSpec | src/parcsr_ls/par_mgr.c:2940-2944 | an entry is kept exactly when its column lies in the window, and no more entries come out than go in |
| Cpr.WindowedConcat | src/parcsr_ls/par_mgr.c:2940-2944 | windowing a concatenation is the concatenation of the windowed parts, so kept entries stay in their order and each occurrence is kept or dropped on its own |
| Cpr.GetAcf | src/parcsr_ls/par_mgr.c:2714-2868 | the local A_CF has one row per C-point; it keeps, renumbered by F-rank, the F-column entries whose F-number lies in that C-point's window |
| Cpr.AcfCount | src/parcsr_ls/par_mgr.c:2790-2812 | the first pass counts the C-points and the entries of their A_CF rows |
| Cpr.AcfFillPass | src/parcsr_ls/par_mgr.c:2814-2845 | the second pass writes the CSR layout of all A_CF rows |
| Cpr.AcfSpec | src/parcsr_ls/par_mgr.c:2820-2845 | A_CF is valid CSR with one row per C-point, and the row of rank Rank(i) is the row the C-point i supplies |
| Cpr.AcfRowSpec | src/parcsr_ls/par_mgr.c:2798-2806 | every kept entry is an entry of the C-point's row at an F-column, with that column replaced by its F-number, which lies inside the C-point's window; every F-column entry whose F-number is inside the window is kept |
| Cpr.FPickedSpec | src/parcsr_ls/par_mgr.c:2745-2760 | renumbered by f_to_c_col_map, every picked entry is an input entry at an F-column c with c replaced by its rank among the F-points, and every F-column entry is picked |
| BlockDiag.BlockDiagIndices | src/parcsr_ls/par_mgr.c:4739-4899 | the result is TooSmall exactly when 0 < global rows < blk; otherwise it is a block-diagonal row pointer and column pattern over the counted rows, with blk*blk*num_blocks + num_left^2 entries |
| BlockDiag.CountPoints | src/parcsr_ls/par_mgr.c:4788-4800 | the count is the number of markers equal to point_type |
| BlockDiag.BlockDiagPattern | src/parcsr_ls/par_mgr.c:4802-4893 | the pattern is block diagonal: a row lists, in order, the rows of its block, and the last block holds the num_left remaining rows |
| BlockDiag.FullBlocks | src/parcsr_ls/par_mgr.c:4862-4876 | every full block is filled and the preset last row pointer is kept |
| BlockDiag.FillBlock | src/parcsr_ls/par_mgr.c:4864-4875 | the rows of one block get their row pointers and column spans, and nothing outside the block changes |
| BlockDiag.SameBlock | src/parcsr_ls/par_mgr.c:4857-4893 | column c is stored in row r exactly when c is a row and c / blk == r / blk |
| BlockDiag.GridIsBlockDiag | src/parcsr_ls/par_mgr.c:4857-4893 | filled full blocks plus the remaining block form a block-diagonal pattern |
| MgrVectors.AddVectorP | src/parcsr_ls/par_mgr.c:6438-6465 | to[i] becomes b*to[i] + a*from[rank] at the points of the given type and is unchanged elsewhere |
| MgrVectors.AddVectorR | src/parcsr_ls/par_mgr.c:6475-6502 | to[rank] becomes b*to[rank] + a*from[i] at the points of the given type |
| MgrVectors.GatherScatter | src/parcsr_ls/par_mgr.c:6438-6502 | restricting a prolonged vector gives back the vector |
| MgrVectors.ScatterGather | src/parcsr_ls/par_mgr.c:6438-6502 | prolonging a restricted vector gives back its values at the points of the type |
| IJVector.IJVectorPar.constructor | IJ_matrix_vector/hypre_IJVector_parcsr.c:27-44 | the vector gets the given partitioning (or none) and an empty buffer |
| IJVector.IJVectorPar.SetLocalPartitioning | IJ_matrix_vector/hypre_IJVector_parcsr.c:96-128 | vec_start > vec_stop gives ierr 1 and no change; otherwise partitioning[my_id] = vec_start and partitioning[my_id+1] = vec_stop + 1, in a zeroed array allocated when there was none, with num_procs + 1 entries where line 114 allocates num_procs, so both writes fit (PartitionWritesFit) |
| IJVector.IJVectorPar.Initialize | IJ_matrix_vector/hypre_IJVector_parcsr.c:139-160 | without a partitioning ierr is 1 and nothing changes; otherwise the buffer is a zeroed one of vec_stop - vec_start entries |
| IJVector.IJVectorPar.Zero | IJ_matrix_vector/hypre_IJVector_parcsr.c:202-235 | ierr counts vec_start > vec_stop; on success the first vec_stop - vec_start entries become 0 and the rest are unchanged |
| IJVector.IJVectorPar.Set | IJ_matrix_vector/hypre_IJVector_parcsr.c:245-315 | ierr is the as-written range count; on success the buffer is the sequential assignment of the picked values to glob - vec_start (or to 0..n-1); on error it is unchanged |
| IJVector.IJVectorPar.AddTo | IJ_matrix_vector/hypre_IJVector_parcsr.c:385-455 | as Set, accumulating with += |
| IJVector.IJVectorPar.Get | IJ_matrix_vector/hypre_IJVector_parcsr.c:557-628 | as Set, the user array receiving the buffer values at the targets (at j or at value_indices[j]) |
| IJVector.IJVectorPar.SetInBlock | IJ_matrix_vector/hypre_IJVector_parcsr.c:325-375 | ierr is the three block tests; on success the picked values go to positions 0..local_stop-local_start of the buffer |
| IJVector.IJVectorPar.AddToInBlock | IJ_matrix_vector/hypre_IJVector_parcsr.c:466-517 | as SetInBlock, accumulating |
| IJVector.IJVectorPar.GetInBlock | IJ_matrix_vector/hypre_IJVector_parcsr.c:639-690 | as SetInBlock, reading the buffer from position 0 into the user array |
| IJVector.CheckErrors | IJ_matrix_vector/hypre_IJVector_parcsr.c:271-274 | as written, a non-empty list over a non-empty range always has errors |
| IJVector.CheckLoop | IJ_matrix_vector/hypre_IJVector_parcsr.c:271-274 | the check loop computes CheckErrors |
| IJVector.OutOfRangeZero | IJ_matrix_vector/hypre_IJVector_parcsr.c:271-274 | the intended count is zero exactly when every index is local |
| IJVector.CheckErrorsZero | IJ_matrix_vector/hypre_IJVector_parcsr.c:270-273 | the check as written passes exactly when every index lies in [vec_stop, vec_start), so never for a non-empty list when vec_start <= vec_stop |
| IJVector.DecreasingRangeAccepted | IJ_matrix_vector/hypre_IJVector_parcsr.c:270-284 | with vec_start > vec_stop an index in [vec_stop, vec_start) passes the check, and its buffer position glob - vec_start is negative |
| IJVector.LocalIndexRejected | IJ_matrix_vector/hypre_IJVector_parcsr.c:271-274 | the local index vec_start gets 2 errors as written and 0 as intended |
| IJVector.BlockErrors | IJ_matrix_vector/hypre_IJVector_parcsr.c:354-356 | the block tests pass exactly when 0 <= local_start <= local_stop < local_n, with at most 3 errors |
| IJVector.BlockCheck | IJ_matrix_vector/hypre_IJVector_parcsr.c:354-356 | the three tests compute BlockErrors |
| IJVector.AssignLoop | IJ_matrix_vector/hypre_IJVector_parcsr.c:277-312 | the write loop computes Assigned |
| IJVector.AccumulateLoop | IJ_matrix_vector/hypre_IJVector_parcsr.c:417-452 | the accumulate loop computes Accumulated |
| IJVector.AssignedAt | IJ_matrix_vector/hypre_IJVector_parcsr.c:277-312 | after the writes, a position holds the value of the last write to it, or its old value |
| IJVector.AccumulatedAt | IJ_matrix_vector/hypre_IJVector_parcsr.c:417-452 | after accumulating, a position has gained exactly the sum of the values addressed to it |
| IJVector.SetThenGet | IJ_matrix_vector/hypre_IJVector_parcsr.c:588-624 | reading back distinct positions just written gives the written values |
| IJVector.LastWrite | IJ_matrix_vector/hypre_IJVector_parcsr.c:277-286 | the result is -1 or a place naming k with no later place naming k |
| IJVector.BlockPositionsSpec | IJ_matrix_vector/hypre_IJVector_parcsr.c:358-372 | intended block positions are local, distinct, and belong to globStart + i |
| IJVector.BlockWrites | IJ_matrix_vector/hypre_IJVector_parcsr.c:358-362 | the accepted block [1, 1] in a buffer of 2 writes [v, d1] as written and [d0, v] as intended |
| IJVector.AllocationTooShort | IJ_matrix_vector/hypre_IJVector_parcsr.c:113-119 | on the last process the write partitioning[my_id+1] falls outside an allocation of num_procs entries |
| IJVector.AllocationFits | IJ_matrix_vector/hypre_IJVector_parcsr.c:113-119 | both writes fall inside num_procs + 1 entries for every process |
| IndepSet.ParAMGIndepSet | parcsr_ls/par_indepset.c:93-246 | ierr is 0, and the marker is the independent-set selection: graph nodes of measure > 1 marked, then removed along the edges where the other end is larger |
| IndepSet.MarkSubgraph | parcsr_ls/par_indepset.c:136-143 | the first loop sets IS_marker to 1 at graph nodes of measure > 1 |
| IndepSet.RemoveAlongEdges | parcsr_ls/par_indepset.c:149-243 | the removal loop applies every graph node's edge visits in order |
| IndepSet.VisitNode | parcsr_ls/par_indepset.c:151-242 | one node: nothing unless its measure exceeds 1, then its diagonal and offd edges (local) or its mapped external edges |
| IndepSet.VisitLocal | parcsr_ls/par_indepset.c:157-190 | a local node visits its diag row and its offd row shifted by local_num_vars |
| IndepSet.VisitExternal | parcsr_ls/par_indepset.c:194-241 | an external node visits its S_ext row mapped to local indices |
| IndepSet.VisitExtRow | parcsr_ls/par_indepset.c:197-240 | the S_ext row loop visits the mapped entries in order |
| IndepSet.VisitExtEntry | parcsr_ls/par_indepset.c:200-239 | one S_ext entry: in-window columns map to j - col_1, else to local_num_vars + the first match in col_map_offd, else it is skipped |
| IndepSet.FindOffd | parcsr_ls/par_indepset.c:219-238 | the search returns the first index of j in col_map_offd, or none |
| IndepSet.FirstIndexFrom | parcsr_ls/par_indepset.c:219-238 | the result is the first match, or none when there is no match |
| IndepSet.ExtTarget | parcsr_ls/par_indepset.c:200-239 | a target exists when the column is in the window (it is j - col_1) or occurs in col_map_offd (local_num_vars + its first position) |
| IndepSet.Compare | parcsr_ls/par_indepset.c:162-172 | a live edge clears the endpoint of smaller measure; equal measures change nothing |
| IndepSet.MarkedAt | parcsr_ls/par_indepset.c:136-143 | after marking, a point is 1 if it is in the graph with measure > 1, and keeps its marker otherwise |
| IndepSet.RemovedAt | parcsr_ls/par_indepset.c:149-243 | after removal a point is 0 exactly if some graph node has a live edge that clears it, and keeps its marker otherwise |
| IndepSet.OnlyMarkedJoin | parcsr_ls/par_indepset.c:136-243 | a point that ends at 1 was 1 before, or is a graph node of measure > 1 |
| IndepSet.UnclearedStay | parcsr_ls/par_indepset.c:136-243 | a graph node of measure > 1 that no edge clears ends at 1 |
| IndepSet.SmallerEndCleared | parcsr_ls/par_indepset.c:162-172 | along a live edge the endpoint of smaller measure ends at 0, so both ends at 1 means equal measures |
| IndepSet.TieKeepsBoth | parcsr_ls/par_indepset.c:164-171 | an edge between equal measures changes nothing |

## Left out

- MPI: the communication package, the global sizes and prefix sums of the coarse counts (`MPI_Scan`, `MPI_Bcast`, `hypre_MGRGetCommPkgRT`, coarse partitionings), the exchange of markers and numbers with other processes, and `hypre_DistributeIJVectorPar` / `hypre_AssembleIJVectorPar`. These are communication and have no local effect the model could state. The external markers (`CF_marker_offd`) and the external block S_ext are parameters.
- The col_map_offd arrays of the new matrices: filling them takes global offsets received by MPI. The compacted column list `tmp_map_offd` is modelled.
- hypre_BinarySearch is not part of this model. `SubBlock.BinarySearch` stands for it with the contract its use needs.
- Threads: the thread split of `hypre_MGRGetSubBlock` (ns/ne ranges and the prefix sums of jj_count) is modelled with one thread. The result is the same for every thread count.
- Device (GPU) variants and memory migration: host code only.
- Integer width: indices and counters are unbounded integers; 32-bit overflow of counters and of `blk_size * blk_size * num_blocks` is not modelled.
- Floating point: values are `real`, so negation, `b*x + a*y` and comparisons of measures are exact.
- Cpr.TruncateAcf: requires a positive number of global rows. The code divides the global column count by the global row count (`blk_size = num_cols / num_rows`, par_mgr.c:2929) without a check, so a matrix with no C-point rows divides by zero in C, which is undefined behaviour and usually a crash. The model leaves that case out.
- BlockDiag.BlockDiagIndices: requires blk_size > 0. The code computes `num_blocks = B_diag_num_rows / blk_size` (par_mgr.c:4802) without checking blk_size, so blk_size 0 divides by zero in C, which is undefined behaviour and usually a crash. The model leaves that case out; a negative blk_size is left out with it.
- `hypre_MGRTruncateAcfCPR` and `hypre_MGRGetAcfCPR` are modelled on their diagonal block; the off-diagonal blocks they create are empty and are not represented.
- `hypre_ParCSRMatrixBlockDiagMatrixHost`: the row pointer and column pattern are modelled. The values come from `hypre_ParCSRMatrixExtractBlockDiagHost`, which is not part of this model, and the row partitioning is MPI.
- IJ vectors:
  - the NULL checks on the ParVector and its local vector are not modelled, since both are always present in the model;
  - the operations that dereference the partitioning before checking for NULL require one;
  - a NULL global index list requires `num_values == 0`, since the check loop reads the list unconditionally;
  - allocation failure is not modelled;
  - `hypre_NewIJVectorPar` creates the ParVector through `hypre_CreateParVector`, which is not part of this model; the constructor sets the resulting state;
  - hypre_InitializeParVector is not part of this model; it is modelled as a fresh zeroed buffer;
  - `hypre_FreeIJVectorPar` (deallocation) and `hypre_SetIJVectorParPartitioning` (it stores a pointer that may alias the caller's array) are left out;
  - the four loop variants of each operation (with or without index list and value indices) are expressed through one target list and one picked-value list.
- IJVector.IJVectorPar.Set / AddTo / Get: on a decreasing range (vec_start > vec_stop) the check as written lets the indices in [vec_stop, vec_start) through (`IJVector.DecreasingRangeAccepted`). The code then reads or writes `data[glob - vec_start]` below the start of the buffer, which is undefined behaviour in C. These methods require in-bounds targets when the check passes, so the model leaves that case out. More generally, every IJ method requires its buffer and the caller's arrays to hold the positions it touches.
- IJVector.IJVectorPar.Initialize: requires partitioning[my_id] <= partitioning[my_id + 1] when there is a partitioning. The code computes that difference unchecked and hands a negative size to hypre_InitializeParVector, which is not part of this model, so the model does not say what a decreasing local range does.
- `hypre_InitParAMGIndepSet` (random measure perturbation) is left out. The measures are an input.
- IndepSet: a strength value is a real, and the source's test `S_diag_data[jS]` reads as "nonzero".

## Findings

| source | as written | input that shows it | evidently intended | confidence | as-written member | corrected member |
|---|---|---|---|---|---|---|
| IJ_matrix_vector/hypre_IJVector_parcsr.c:271-274 | `ierr += (idx >= vec_start); ierr += (idx < vec_stop)` counts an index inside the range twice | the local index vec_start with range [vec_start, vec_start + 1) gets 2 errors, so, when vec_start <= vec_stop, no non-empty index list is ever accepted (`IJVector.CheckErrorsZero`) | one error per index outside [vec_start, vec_stop) | not executed | IJVector.LocalIndexRejected | IJVector.OutOfRangeZero |
| IJ_matrix_vector/hypre_IJVector_parcsr.c:358-372 | the block loops use `data[i]` for i = 0 .. local_stop - local_start | the accepted block [1, 1] in a buffer of 2 writes position 0 and leaves position 1 | `data[local_start + i]` | not executed | IJVector.BlockWrites | IJVector.BlockPositionsSpec |
| IJ_matrix_vector/hypre_IJVector_parcsr.c:113-119 | a missing partitioning is allocated with num_procs entries, then entry my_id + 1 is written | on the last process (my_id = num_procs - 1) the write lands one past the allocation | num_procs + 1 entries | not executed | IJVector.AllocationTooShort | IJVector.AllocationFits |

The IJ class methods keep the range checks and the block positions as
written. The corrected definitions are what the rest of the model states
the intended behaviour with. `IJVector.IJVectorPar.SetLocalPartitioning`
allocates num_procs + 1 entries.
