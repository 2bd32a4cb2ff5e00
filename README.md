# KLUSolve: the sparse admittance system, modelled in Dafny

KLUSolve keeps the complex nodal admittance matrix of a power-system network
and factors it with the KLU sparse LU kernel. This project models its core:

- **The `KLUSystem` object.** This is a class with the source's fields:
  - the compressed-column matrix (`ap`, `ai`, `ax`) and the pending triplets;
  - `options`, `bFactored` and `reuseSymbolic`;
  - `m_nBus`, `m_nX`, `m_NZpre`, `m_NZpost` and `m_fltBus`;
  - whether the `Symbolic` and `Numeric` handles exist.
- **Element accumulation.** Elements accumulate as triplets or as in-place `coeffRef` additions. `setFromTriplets` compacts them, summing duplicates. The `lower_bound` slot edits change exactly one value.
- **The factorization-reuse policy of `Factor`.** It chooses the cached answer, a refactor, a numeric factor on the kept analysis, or a full analyze plus factor. It then maps the kernel status to the return code and to the singular bus.
- **Island detection.** `FindIslands`/`mark_dfs` is a depth-first search with an explicit stack over the compressed pattern.
- **The C entry points of `KLUSolveX.cpp`.** These are where `bFactored` and `reuseSymbolic` are actually set, on a nullable handle.
- **The compressed adjacency builder of `klusolve_metis`.** The graph partitioner itself is an oracle.

These choices run through the model:
- Complex values are exact pairs of reals (`ComplexArith`).
- Machine integers are unbounded, with the source's widths written out (`Word`):
  - `uint32_t` fields wrap modulo 2^32;
  - an `int` compared with a `uint32_t` is converted to unsigned first.
- The KLU kernel is a `Kernel` value. It says what each kernel call would report: status, singular column, fill-in, and whether a handle came back.
  - For `klu_z_refactor` it also says whether the call returned TRUE. `Initialize` turns `halt_if_singular` off (src/KLUSystemX.cpp:71), so a refactor that meets a zero pivot can return TRUE with status SINGULAR. `Factor` keeps such a refactor, and its status still sets the return code.
  - The properties hold for every kernel value in which a call that reports OK leaves a handle (`HandlesCoherent`).

Modules, one per file:

| Module | Contents |
|---|---|
| `Word` | integer widths and comparisons |
| `ComplexArith` | exact complex values |
| `Sparse` | the compressed-column matrix and Eigen's operations on it |
| `Factorization` | the reuse policy as a function |
| `Islands` | the search |
| `KluSystem` | the class |
| `KluSolve` | the entry points |
| `Metis` | the adjacency builder |

## Model

| member | source | states |
|---|---|---|
| Word.ToUInt32 | src/KLUSystemX.cpp:146 | storing a count in a `uint32_t` field keeps values in range and wraps negative ones by 2^32 |
| Word.ToInt32 | src/KLUSolveX.cpp:222 | returning a `uint32_t` metric through an `int*` gives an int32 whose unsigned reading is the metric, equal to it up to 2^31-1 |
| Word.AboveUnsignedMeans | src/KLUSystemX.cpp:384 | `iRow > m_nBus` (int against uint32) holds exactly when the index is negative or above `m_nBus` |
| Word.NegativeLengthPasses | src/KLUSolveX.cpp:359 | a length of -1 passes the unsigned size test and fails the signed one |
| Word.AtLeastRefusesNegative | src/KLUSolveX.cpp:359 | the signed size test is the unsigned one plus non-negativity |
| Factorization.Conclude | src/KLUSystemX.cpp:221-250 | returns 1 iff the status is OK and -1 iff it is SINGULAR, otherwise 0. `m_fltBus` is the 1-based singular column inside the matrix, else 0, and at least 1 after a hard failure. `m_NZpost` gains the fill-in modulo 2^32 only on success |
| Factorization.Factor | src/KLUSystemX.cpp:153-250 | the cached path: no kernel call, no change, never 0. The only five call sequences, and exactly when a refactor or a numeric factor is tried first. A refactor is kept exactly when `klu_z_refactor` returned TRUE, even with status SINGULAR. A numeric factor is kept exactly when its status is OK. Otherwise analyze plus factor follows. The return code is in {-1, 0, 1} and follows the last call's status, singular bus and fill-in. Which handles remain |
| Factorization.Run | src/KLUSystemX.cpp:167-219 | the five call sequences, and when each reuse attempt is made. The refactor is kept iff it returned TRUE, and then both handles stay. The numeric factor is kept iff its status is OK. After a full factor the deciding outcome and both handles are those of analyze plus factor |
| Factorization.SingularRefactorKept | src/KLUSystemX.cpp:184-187 | a refactor that meets a zero pivot but returns TRUE (`halt_if_singular` is off) is kept: no further call, both handles stay, the return code is -1 and `m_fltBus` is the 1-based singular column |
| KluSystem.KLUSystem.RunKernel | src/KLUSystemX.cpp:167-219 | the freeing step and the kernel calls leave the handles, the deciding outcome and the call list that `Factorization.Run` gives. A refactor is made only when both handles survive, and it falls back only when it returns FALSE. A numeric factor on the kept analysis is made when only the symbolic handle survives, and it falls back on a status other than OK. After a fallback, or without reuse, the full analyze plus factor runs |
| KluSystem.KLUSystem.ReportStatus | src/KLUSystemX.cpp:221-250 | the end of `Factor` sets `m_fltBus`, `m_NZpost` and the return code exactly as `Factorization.Conclude` does for the deciding outcome, whose properties are proved there |
| KluSystem.KLUSystem.FactorCompressed | src/KLUSystemX.cpp:158-250 | the imperative `Factor` after compaction computes exactly `Factorization.Factor` on the state before it: return code, calls and new factor state. So a singular refactor that returned TRUE gives -1 and keeps both handles |
| KluSystem.KLUSystem.Factor | src/KLUSystemX.cpp:150-250 | pending triplets are compacted first. The result and the new state are those of `Factorization.Factor`, with the refactor decided by its return value; nothing else changes |
| KluSystem.KLUSystem.FactorSystem | src/KLUSystemX.cpp:80-93 | returns 0 exactly when `Factor` returned 1. `bFactored` is set exactly then. `reuseSymbolic` is cleared exactly then |
| KluSystem.KLUSystem.constructor | src/KLUSystemX.cpp:41-50 | `InitDefaults`: an empty 0-node system, no handles, zero metrics, options 0, both flags false |
| KluSystem.KLUSystem.Clear | src/KLUSystemX.cpp:52-64 | drops matrix, triplets and handles and zeroes sizes and metrics; options and flags are kept |
| KluSystem.KLUSystem.Initialize | src/KLUSystemX.cpp:66-78 | a cleared system of n nodes with `m_nX == m_nBus == n` and an empty n-by-n matrix |
| KluSystem.KLUSystem.Zero | src/KLUSystemX.cpp:377-380 | `zero()` re-initializes at the same size: empty matrix, no triplets, no handles, zero metrics |
| KluSystem.Added | src/KLUSystemX.cpp:382-399 | `AddElement` changes nothing for an index outside 1..`m_nBus` or a zero value. Otherwise it appends one zero-based triplet when the matrix has no entries, or adds to the compressed coefficient |
| KluSystem.KLUSystem.AddElement | src/KLUSystemX.cpp:382-399 | the method's new matrix and triplets are exactly `Added` of the old ones |
| KluSystem.KLUSystem.GetElement | src/KLUSystemX.cpp:401-411 | the compressed coefficient at the 1-based position, zero outside the matrix |
| KluSystem.CheckNodes | src/KLUSystemX.cpp:107-111 | the node check accepts exactly when every node is in 0..`m_nBus` (negative nodes fail the unsigned test) |
| KluSystem.StampTriplets | src/KLUSystemX.cpp:114-138 | the nested loop appends exactly the stamp of the primitive matrix |
| KluSystem.StampMembers | src/KLUSystemX.cpp:114-138 | a triplet is stamped iff it is (pNodes[i]-1, pNodes[j]-1, pMat[i + j*nOrder]) for some i, j with pNodes[i] >= 1, pNodes[j] != 0 and a non-zero value |
| KluSystem.StampInRange | src/KLUSystemX.cpp:107-131 | once the node check passes, every stamped triplet addresses the matrix |
| KluSystem.KLUSystem.AddPrimitiveMatrix | src/KLUSystemX.cpp:101-141 | returns 1 and appends the stamp when the nodes fit; otherwise returns 0 and appends nothing |
| KluSystem.KLUSystem.ProcessTriplets | src/KLUSystemX.cpp:143-148 | the matrix becomes `setFromTriplets` of the pending triplets, whatever it held before. The triplets become empty. `m_NZpre` becomes the new entry count |
| Sparse.Empty | src/KLUSystemX.cpp:75 | `SparseMatrix(n, n)` is well formed and stores nothing, so every coefficient is zero |
| Sparse.FromTriplets | src/KLUSystemX.cpp:145 | `setFromTriplets` gives every column sorted, strictly increasing rows. (r, c) is stored iff a triplet addresses it, and its coefficient is the sum of those triplets' values |
| Sparse.AddCoeff | src/KLUSystemX.cpp:393 | `coeffRef(r, c) += x` keeps the matrix well formed. It adds (r, c) to the pattern and x to that coefficient, and changes no other coefficient |
| Sparse.FirstNotBelow | src/KLUSystemX.cpp:431 | the `std::lower_bound` position: inside the range, everything before it below x, the element at it not below x |
| Sparse.LowerBound | src/KLUSystemX.cpp:431 | the binary search returns that position on a nondecreasing range |
| Sparse.SlotOfRow | src/KLUSystemX.cpp:431-433 | on a sorted column, the lower bound holds r exactly when (r, c) is stored |
| Sparse.UpdateSlot | src/KLUSystemX.cpp:435-437 | writing one value slot keeps the pattern and changes exactly the coefficient of that slot |
| KluSystem.KLUSystem.FindSlot | src/KLUSystemX.cpp:415-435 | a slot is found iff the tier allows in-place edits, both indices are in 1..`m_nBus` and the entry is stored; the slot found is that entry's |
| KluSystem.KLUSystem.IncrementElement | src/KLUSystemX.cpp:413-440 | returns 1 exactly in the accepted case and then adds re + i·im to that one coefficient, leaving the pattern; returns 0 and changes nothing otherwise |
| KluSystem.KLUSystem.ZeroiseElement | src/KLUSystemX.cpp:442-469 | the same guard; on success sets that one coefficient to zero, leaving the pattern |
| KluSystem.CompressedRefusedMeans | src/KLUSystemX.cpp:481-482 | the signed refusal test accepts exactly when there are entries, `nNZ` holds them all and `nColP >= m_nBus + 1`; it refuses what the test as written refuses, and negative `nColP` too |
| KluSystem.CompressedRefusedAsWritten | src/KLUSystemX.cpp:481 | the refusal test as written refuses exactly when `nNZ` is short, the matrix is empty, or `nColP` is between 0 and `m_nBus`: a negative `nColP` never fails the column test |
| KluSystem.KLUSystem.GetCompressedMatrix | src/KLUSystemX.cpp:471-493 | compacts pending triplets. Returns the entry count and copies `ap`, `ai`, `ax` when accepted, leaving the rest of each buffer as it was; returns 0 and writes nothing when refused |
| KluSystem.CopyPrefix | src/KLUSystemX.cpp:488-490 | `memcpy` into a buffer: the first |src| slots become src, and the rest keep their values |
| Sparse.ExportSlot | src/KLUSystemX.cpp:506-514 | the i-th exported triplet is (ai[i], the column holding slot i, ax[i]) |
| Sparse.ExportKeys | src/KLUSystemX.cpp:506-514 | the export addresses (r, c) iff it is stored, and its values there sum to the coefficient |
| Sparse.RoundTrip | src/KLUSystemX.cpp:495-516 | `setFromTriplets` of the exported triplets rebuilds the same compressed matrix |
| KluSystem.WriteColumn | src/KLUSystemX.cpp:508-513 | the inner iterator writes column k's slots as (row, k, value) and no other slot |
| KluSystem.WriteTriplets | src/KLUSystemX.cpp:506-514 | the two loops write the export, slot by slot, and leave every slot from the entry count on as it was |
| KluSystem.WrittenIsExport | src/KLUSystemX.cpp:506-514 | what the column loops wrote is the column-major export |
| KluSystem.KLUSystem.GetTripletMatrix | src/KLUSystemX.cpp:495-516 | compacts pending triplets. Returns the entry count and writes the export when `nNZ` suffices and the matrix has entries, leaving the slots past that count as they were; returns 0 and writes nothing otherwise |
| KluSystem.KLUSystem.SolveSystem | src/KLUSystemX.cpp:95-99 | copies the `m_nBus` right-hand-side values into x. With `m_nX >= 1` it overwrites them with the kernel's solution (`Solve`, lines 255-261). Entries past `m_nBus` are untouched |
| KluSystem.KLUSystem.FindDisconnectedSubnetwork | src/KLUSystemX.cpp:293-298 | factors as `Factor` does and returns the resulting `m_fltBus` converted to `int`: an int32 whose unsigned reading is `m_fltBus`, negative exactly above 2^31-1. A cached success reports no bus |
| Islands.DistinctBound | src/KLUSystemX.cpp:313-317 | a sequence of distinct nodes below n has at most n entries: the push-once stack fits its n + 1 slots |
| Islands.Push | src/KLUSystemX.cpp:303 | `push` appends v to the stack and changes no other slot |
| Islands.Pop | src/KLUSystemX.cpp:304 | `pop` returns the top entry and keeps the stack below it |
| Islands.ScanColumn | src/KLUSystemX.cpp:329-337 | pushes every unvisited row of the column once, marking it -1. The stack stays within n, and the entries below the old top stay. Only unvisited slots change, and each one that changes is a row stored in the column. Unvisited slots decrease whenever anything was pushed. The labelling invariant is kept |
| Islands.PopAndScan | src/KLUSystemX.cpp:325-338 | one round of the outer loop keeps the search state: labels from before stay, the stack holds pending nodes, and every node marked so far is reached from j through marked nodes. Either fewer nodes are unvisited, or the stack is shorter |
| Islands.MarkDfs | src/KLUSystemX.cpp:320-339 | labels j with cnt. Earlier labels stay; every other node ends 0 or cnt. Every stored entry down a labelled column leads to a labelled node on the same or a lower island. Every node it labels is reached from j by a walk through nodes it labelled |
| Islands.VisitNode | src/KLUSystemX.cpp:360-367 | an unvisited node opens island cnt + 1 and becomes its root; a visited node leaves the count alone. The loop state is kept: every node up to j is labelled, roots are recorded, the labelling is closed, and each node is reached from its island's root |
| Islands.Label | src/KLUSystemX.cpp:350-367 | every node gets an island in 1..cnt, with cnt <= `m_nBus`. Every island 1..cnt is used, and every node before its lowest node is on a lower island. Following a stored entry down a column never leads to a higher island. Every node is reached from its island's lowest node by a walk that stays on the island |
| Islands.FirstNodeFirstIsland | src/KLUSystemX.cpp:360-366 | islands open in node order, so node 0 is on island 1 |
| Islands.SameIsland | src/KLUSystemX.cpp:346-375 | on a symmetric pattern both ends of a stored entry share an island |
| Islands.WalkAppend | include/KLUSystemX.h:114-117 | two walks that meet join into one walk |
| Islands.WalkReverse | include/KLUSystemX.h:114-117 | on a symmetric pattern a walk reversed is a walk |
| Islands.WalkSameLabel | include/KLUSystemX.h:114-117 | on a symmetric pattern a walk never leaves the island it starts on |
| Islands.SameRootConnected | include/KLUSystemX.h:114-117 | two nodes of one island are joined by a walk through the island's root |
| Islands.IslandsAreComponents | include/KLUSystemX.h:114-117 | the header's promise: on a symmetric pattern two nodes share an island number exactly when a walk joins them. So the islands are the connected components, counted by `Label` |
| KluSystem.KLUSystem.FindIslands | src/KLUSystemX.cpp:346-375 | factors first, then writes `Label`'s island numbers into the first `m_nBus` slots and returns their count. `idClique` has `Label`'s properties, reachability from each island's root included, so `IslandsAreComponents` applies to it |
| KluSystem.RowMajor | include/KLUSystemX.h:23-26 | `get_acx(i, j)` reads slot i*nCol + j, inside the block and distinct for distinct entries |
| KluSystem.RowBefore | include/KLUSystemX.h:23-26 | every entry of an earlier row lies before every entry of a later row |
| KluSystem.Row | include/KLUSystemX.h:23-26 | row i of a row-major block has nCol entries |
| KluSystem.GetAcx | include/KLUSystemX.h:23-26 | `get_acx(i, j)` is entry j of row i |
| KluSystem.KLUSystem.GetSize | include/KLUSystemX.h:81 | reads `m_nBus` |
| KluSystem.KLUSystem.GetSparseNNZ | include/KLUSystemX.h:84-87 | reads `m_NZpost`, a uint32 |
| KluSystem.KLUSystem.GetNNZ | include/KLUSystemX.h:88-91 | reads `m_NZpre`, a uint32 |
| KluSystem.KLUSystem.GetSingularCol | include/KLUSystemX.h:92-95 | reads `m_fltBus`, a uint32 |
| KluSolve.SetOptions | src/KLUSolveX.cpp:19-26 | stores `opts` and nothing else; a null handle is ignored |
| KluSolve.NewSparseSet | src/KLUSolveX.cpp:28-41 | a new system initialized to `nBus` nodes with default options and flags |
| KluSolve.ZeroSparseSet | src/KLUSolveX.cpp:43-57 | re-initializes at the same size and clears `bFactored`; returns 1, or 0 for a null handle |
| KluSolve.FactorSparseMatrix | src/KLUSolveX.cpp:59-78 | returns 1 when `FactorSystem` succeeded and 2 for any failure, including hard kernel errors; 0 only for a null handle |
| KluSolve.SolveSparseSet | src/KLUSolveX.cpp:85-107 | refactors exactly when not factored, or when symbolic reuse is pending and allowed. Returns 1 and solves when factored afterwards. Otherwise returns 2 and leaves x untouched |
| KluSolve.AddedSymmetricMeans | src/KLUSolveX.cpp:135-139 | the symmetric add changes nothing when refused. On an empty matrix it appends (i-1, j-1) and, off the diagonal, (j-1, i-1). On a compressed matrix it adds v at both positions (once on the diagonal) and nowhere else |
| KluSolve.AddCoeffTwice | src/KLUSolveX.cpp:135-138 | adding v at (r, c) and then at (c, r), off the diagonal, changes exactly those two coefficients |
| KluSolve.AddMatrixElement | src/KLUSolveX.cpp:126-144 | the symmetric add followed by `bFactored = false`, returning 1; 0 for a null handle |
| KluSolve.GetMatrixElement | src/KLUSolveX.cpp:146-157 | the compressed value, zero outside the matrix; a null handle returns 0 and writes nothing |
| KluSolve.IncrementMatrixElement | src/KLUSolveX.cpp:159-178 | returns the inner result. On success it clears `bFactored` and sets `reuseSymbolic`. On failure it clears `reuseSymbolic` only |
| KluSolve.ZeroiseMatrixElement | src/KLUSolveX.cpp:180-199 | the same flag logic around `ZeroiseElement` |
| KluSolve.GetSize | src/KLUSolveX.cpp:202-213 | writes the size and returns 1; writes 0 and returns 0 for a null handle |
| KluSolve.GetNNZ | src/KLUSolveX.cpp:215-226 | writes `m_NZpre` converted to int (negative exactly above 2^31-1) and returns 1 |
| KluSolve.GetSparseNNZ | src/KLUSolveX.cpp:228-239 | the same for `m_NZpost` |
| KluSolve.GetSingularCol | src/KLUSolveX.cpp:293-304 | the same for `m_fltBus` |
| KluSolve.AddPrimitiveMatrix | src/KLUSolveX.cpp:306-317 | returns the inner 0/1 and clears both flags even when the nodes are refused |
| KluSolve.GetCompressedMatrix | src/KLUSolveX.cpp:319-335 | 1 when the inner call copied the matrix, leaving the buffer tails as they were; 2 when it refused, with the buffers untouched; 0 for a null handle |
| KluSolve.GetTripletMatrix | src/KLUSolveX.cpp:337-353 | 1 when the export was written, leaving the slots past the entry count as they were; 2 when refused; 0 for a null handle |
| KluSolve.FindIslands | src/KLUSolveX.cpp:355-364 | a null handle or a buffer shorter than `GetSize()` returns 0 with nothing changed; otherwise the island labelling and count of `KLUSystem::FindIslands`, reachability from each island's root included |
| KluSolve.IslandsAcceptedAsWritten | src/KLUSolveX.cpp:359 | the size test as written accepts exactly a length of at least `GetSize()`, or a negative one |
| Metis.Advance | src/klusolve_metis.c:95-100 | moving the current vertex up to the next source records the current edge count as the row start of every vertex passed |
| Metis.BuildAdjacency | src/klusolve_metis.c:85-117 | succeeds iff no copied pair has a target outside the graph. Then `xadj` has nv + 1 row starts, each the number of copied pairs from lower sources. `adjacency` and `adj_weights` are the copied targets and their weights, in order |
| Metis.CopyPair | src/klusolve_metis.c:102-115 | pair i is dropped as a self edge, aborts exactly when it is `Bad`, or has its target and weight appended, so the copied prefixes stay `Targets` and `WeightsOf` |
| Metis.XadjScan | src/klusolve_metis.c:85-117 | the loop as written, from pair i on: nv + 1 offsets, and from a non-negative current vertex slot 0 is never rewritten |
| Metis.ScanBounds | src/klusolve_metis.c:95-116 | every offset the loop as written records lies between the targets copied so far and that count plus the pairs left to scan |
| Metis.XadjAsWritten | src/klusolve_metis.c:85-117 | `xadj` as written: nv + 1 offsets, `xadj[0] == 0`, each between 0 and the number of pairs |
| Metis.TargetsLength | src/klusolve_metis.c:113-115 | one weight per copied target |
| Metis.TargetsAreVertices | src/klusolve_metis.c:107-115 | after a successful check every copied target is a vertex |
| Metis.BelowMonotone | src/klusolve_metis.c:95-100 | the row starts are nondecreasing in the vertex |
| Metis.BelowAll | src/klusolve_metis.c:117 | the row start past the last source, and so `xadj[num_vertices]`, is the number of copied pairs |
| Metis.RowOfVertex | src/klusolve_metis.c:90-116 | between its two row starts, vertex v's slice of `adjacency` is exactly v's copied targets, self edges dropped, in input order |
| Metis.KlusolveMetis | src/klusolve_metis.c:38-176 | processes 2·num_edges pairs. Returns 1 iff some copied target is out of range, leaving `zones` and the cut untouched. Returns 0 iff all targets are fine and the partitioner reports OK, copying its partition and cut. Returns 2 otherwise |
| KluSystem.NegativeColumnBufferAccepted | src/KLUSystemX.cpp:481 | a column-pointer length of -1 passes the test as written, and the signed test refuses it |
| KluSolve.NegativeIslandBufferAccepted | src/KLUSolveX.cpp:359 | a buffer length of -1 passes the wrapper's size test as written for a 1-node system, and fails the signed test |
| Metis.SkippedVertexBreaksOffsets | src/klusolve_metis.c:95-100 | with pairs (0, 2), (2, 0) over three vertices the loop as written records offsets 0, 1, 0, 2. The row starts are 0, 1, 1, 2 |
| Metis.AsWrittenAgrees | src/klusolve_metis.c:85-117 | when the sources list every vertex in order, the offsets as written are the row starts |

## Left out

- The KLU kernel (`klu_analyze`, `klu_z_factor`, `klu_z_refactor`, `klu_z_solve`) is foreign code. It is the `Kernel` oracle, and `SolveSystem` takes the solution as a parameter. `HandlesCoherent` asks only that a successful call leave a handle.
- `GetRCond`, `GetRGrowth`, `GetCondEst` and `GetFlops`, and their wrappers, are floating-point metrics of the kernel. They are not modelled.
- Floating-point rounding is out: complex values are exact, and the zero test is exact equality with 0 + 0i, as in the source.
- Eigen's uncompressed mode is out: the matrix is kept compressed after every operation, so `makeCompressed` and `isCompressed` are no-ops. An insertion by `coeffRef` is modelled by its effect on the compressed arrays.
- `spmat.reserve` is out. It is an allocation hint with no effect on the contents.
- `DeleteSparseSet`, the destructor, `NullPointers` and the freeing of handles are memory management. A handle is just present or absent.
- `SetLogFile` is a no-op. No memory is ever exhausted.
- The file-static DFS stack (src/KLUSystemX.cpp:301-318) is a local array owned by each `FindIslands` call; `Push` and `Pop` are the source's `push` and `pop` on it.
- `mvmult.cpp` and `extra.cpp` are dense floating-point helpers and are not part of this model.
- `METIS_PartGraphKway` is the `Partition` oracle, and the `calloc`/`free` calls of `klusolve_metis` are not modelled.
- KluSolve.NewSparseSet: requires `0 <= nBus`. A negative size would be converted to a huge `uint32_t` and the allocation would fail, which is outside the model. The same holds for KluSystem.KLUSystem.Initialize.
- Metis.KlusolveMetis: requires `0 <= num_edges` and `0 <= num_vertices`, that doubling `num_edges` stays within int32, that the caller sorted the pairs by source and that every source is a vertex. The source does not check these. A bad source would write outside `xadj`.
- Metis.BuildAdjacency: advances the current vertex to each pair's source, which is the behaviour the row offsets need; the loop as written is `Metis.XadjAsWritten` (see Findings).
- KluSystem.KLUSystem.GetCompressedMatrix: uses the signed column-buffer test; the test as written is `KluSystem.CompressedRefusedAsWritten` (see Findings).
- KluSolve.FindIslands: uses the signed buffer-size test; the test as written is `KluSolve.IslandsAcceptedAsWritten` (see Findings).
- The `reinterpret_cast` of handles and of the interleaved `double` buffers is left out. Handles are nullable class references. `memcpy` into a buffer is an array write of the copied prefix, with the buffers given large enough by the caller, as C requires.
- The header documents several return codes that the model does not follow, because it follows the code:
  - FactorSparseMatrix and SolveSparseSet are documented to return 0 on "other" errors (include/KLUSolveX.h:44 and 52). They return 2 for every failure.
  - `KLUSystem::GetCompressedMatrix` is documented to return 1 on success (include/KLUSystemX.h:134). It returns the entry count.
  - `zero()` is documented to keep allocations and zero the values (include/KLUSystemX.h:125). It re-initializes the whole system.
- The header's `Solve` comment, that `acxVbus[0]` is ground, is not modelled; `SolveSystem` copies `m_nBus` entries from index 0.

## Findings

| source | as written | input that shows it | evidently intended | confidence | as-written member | corrected member |
|---|---|---|---|---|---|---|
| src/KLUSystemX.cpp:481 | `nColP <= m_nBus` compares an `int` with a `uint32_t`, so a negative `nColP` reads as a huge buffer and passes | `nColP = -1`, `nNZ = 1`, a 1-node matrix with one entry: the column pointers are copied into a buffer declared with -1 slots | refuse unless `nColP >= m_nBus + 1` as a signed length | not executed | KluSystem.NegativeColumnBufferAccepted | KluSystem.CompressedRefusedMeans |
| src/KLUSolveX.cpp:359 | `nOrder >= pSys->GetSize()` compares an `int` with a `uint32_t`, so a negative `nOrder` passes | `nOrder = -1` on a 1-node system: one island number is written into a buffer declared with -1 slots | call `FindIslands` only when `nOrder` is a signed length of at least `GetSize()` | not executed | KluSolve.NegativeIslandBufferAccepted | KluSolve.FindIslands |
| src/klusolve_metis.c:95-100 | a change of source moves `current_vertex` up by exactly one, so a vertex without pairs shifts later row starts down | pairs (0, 2), (2, 0) with 3 vertices: `xadj` becomes 0, 1, 0, 2, which is not monotone | record the row start of every vertex up to the new source | not executed | Metis.SkippedVertexBreaksOffsets | Metis.BuildAdjacency |
