# MPI collective-communication exercises, modelled in Dafny

This project models the computational core of six MPI exercises, written in
C++: two parallel reductions of the values 1..p, two distributed
matrix-vector products, a block/cyclic redistribution of a vector and a
parallel merge sort. Each program is modelled as a sequential simulation of
all its ranks:

- per-rank state is a sequence (or an array) indexed by rank;
- `MPI_Bcast` is a shared value;
- `MPI_Scatter` cuts a buffer into consecutive equal chunks and `MPI_Gather`
  concatenates them in rank order (module `Collectives`);
- `MPI_Reduce` with `MPI_SUM` is an element-wise sum over ranks (`Sums.ReduceSum`);
- `MPI_Comm_split` is grouping by a computed key;
- point-to-point exchanges are synchronous rounds.

The loops that write arrays in the programs are Dafny methods with loops
over arrays. Each is proved against a specification function, and the
properties the programs promise are proved about those functions.

Modules:

| module | program | what it models |
|---|---|---|
| `BlockMatVec` | 3_6_matriz_vector_submatrices.cpp | y = A x on an s x s grid of processes, one b x b block each |
| `ColumnMatVec` | 3_5_matriz_vector_columnas.cpp | y = A x with the columns split into p blocks |
| `Redistribution` | 3_9_costo_redistribucion.cpp | block to cyclic and back, through the root |
| `MergeSort` | 3_8_merge_sort_paralelo.cpp | in-place merge sort per rank, then the root's fold of merges |
| `TreeSum` | 3_3_suma_arbol.cpp | tree reduction onto rank 0 |
| `ButterflySum` | 3_4_suma_mariposa.cpp | butterfly (XOR partner) reduction |
| `Arith`, `Bits`, `Sums`, `Collectives`, `Outcome` | shared | row-major index arithmetic; powers of two, AND, XOR; sums and dot products; gather/scatter; error outcomes |

Matrix and vector entries are `double` in the programs but integer-valued in
every run, so they are `int` here. The programs' early exits (`MPI_Abort`, or
`return 1` after `MPI_Finalize`), and the exception `std::vector::resize` throws on a negative size, become an `Outcome.Result` error.

## Model

| member | source | states |
|---|---|---|
| BlockMatVec.ISqrt | 3_6_matriz_vector_submatrices.cpp:14 | the integer square root s satisfies s*s <= p < (s+1)*(s+1) |
| BlockMatVec.GridSideCorrect | 3_6_matriz_vector_submatrices.cpp:14-22 | the shape check rejects p with a shape error exactly when p is not a perfect square; otherwise it yields the grid side t with t*t == p |
| BlockMatVec.Coords | 3_6_matriz_vector_submatrices.cpp:29-30 | (rank / s, rank % s) is a grid position: row * s + col gives back the rank, col < s, and row < s for every rank below s*s |
| BlockMatVec.CoordsInverse | 3_6_matriz_vector_submatrices.cpp:109-110 | row * s + col is a rank below s*s whose coordinates are (row, col); this is how the column-0 process of row r is found as r * s |
| BlockMatVec.ExtractBlock | 3_6_matriz_vector_submatrices.cpp:98-120 | the copy loops produce block (row, col): entry i*b+j is A[(row*b+i)*n + (col*b+j)] |
| BlockMatVec.BlockRows | 3_6_matriz_vector_submatrices.cpp:115-120 | row i of block (row, col) is the part of matrix row row*b+i that lies in block column col |
| BlockMatVec.BlockSourceTarget | 3_6_matriz_vector_submatrices.cpp:111-120 | every index the copy loops read is inside A (below n*n), and each index is read by one block entry only |
| BlockMatVec.BlockTargetSource | 3_6_matriz_vector_submatrices.cpp:108-120 | every index of A is read by some block entry of some rank: the blocks of all p ranks cover A |
| BlockMatVec.ReassembleBlocks | 3_6_matriz_vector_submatrices.cpp:108-120 | reassembling the blocks gives back A, entry by entry |
| BlockMatVec.ExtractSubvector | 3_6_matriz_vector_submatrices.cpp:136-139 | subvector[i] == x[col*b + i] for i < b |
| BlockMatVec.LocalMultiply | 3_6_matriz_vector_submatrices.cpp:142-146 | starting from zeros, subresultado[i] is the dot product of block row i with the subvector |
| BlockMatVec.DistributeBlocks | 3_6_matriz_vector_submatrices.cpp:96-124 | the root's own copy plus its send loop give every rank r the block at grid position Coords(r) |
| BlockMatVec.ComputePartials | 3_6_matriz_vector_submatrices.cpp:131-146 | the partial result of the rank at (row, col) is, per block row i, the part of matrix row row*b+i in block column col times the matching part of x |
| BlockMatVec.SplitMembersPrefix | 3_6_matriz_vector_submatrices.cpp:156 | grouping ranks by grid row and ordering by column: among the first m ranks, row r's group holds exactly the ranks r*s + c, in order of c |
| BlockMatVec.RowCommunicator | 3_6_matriz_vector_submatrices.cpp:156-160 | row r's communicator has s members; member c is rank r*s + c, at grid column c; its root is the column-0 process |
| BlockMatVec.RowContributions | 3_6_matriz_vector_submatrices.cpp:159-160 | the contributions to row r's reduction, in communicator order, are the partial products of grid columns 0 .. s-1 |
| BlockMatVec.ReduceRowsIsProduct | 3_6_matriz_vector_submatrices.cpp:152-160 | after the row reductions, the column-0 process of row r holds entries r*b .. r*b+b-1 of A x |
| BlockMatVec.GatherColumnZero | 3_6_matriz_vector_submatrices.cpp:163-181 | the root's own copy and its receive loop put row r's result at y[r*b .. r*b+b) |
| BlockMatVec.GridRowHead | 3_6_matriz_vector_submatrices.cpp:173 | the source process fila * s of the gather loop is a rank below p |
| BlockMatVec.ReceiveRow | 3_6_matriz_vector_submatrices.cpp:178-180 | one received row result extends the gathered prefix of y by b entries |
| BlockMatVec.GatherStep | 3_6_matriz_vector_submatrices.cpp:179 | one stored entry extends the gathered prefix of y by one |
| BlockMatVec.GatheredProduct | 3_6_matriz_vector_submatrices.cpp:152-187 | what the column-0 gather collects from the row reductions is A x |
| BlockMatVec.GenerateTestData | 3_6_matriz_vector_submatrices.cpp:54-63 | the root's test data: A[i][j] == (i+1)*10 + (j+1) and x[i] == i+1 |
| BlockMatVec.TestProductFour | 3_6_matriz_vector_submatrices.cpp:54-63 | for that test data with n = 4, A x == [130, 230, 330, 430] |
| BlockMatVec.Run | 3_6_matriz_vector_submatrices.cpp:14-187 | a shape error exactly when p is not a perfect square; a dimension error exactly when p is a square s*s and s does not divide n; a size error exactly when n is a negative multiple of s, where resizing the root's vector to n throws; otherwise n >= 0 and the root's y equals A x |
| ColumnMatVec.PackColumns | 3_5_matriz_vector_columnas.cpp:78-93 | the packing loops store column rank*c + col of A, row fila, at position col*n + fila of the block |
| ColumnMatVec.PackColumn | 3_5_matriz_vector_columnas.cpp:89-93 | the inner packing loop extends the packed prefix of the block by one column of n entries |
| ColumnMatVec.PackedIndex | 3_5_matriz_vector_columnas.cpp:80-91 | the indices the packing loop computes are the column-major position of (fila, col) in the block and the row-major position of (fila, rank*c+col) in A, both in bounds |
| ColumnMatVec.PackedStep | 3_5_matriz_vector_columnas.cpp:91 | one stored entry extends the packed prefix by one |
| ColumnMatVec.PackedRowIsSegment | 3_5_matriz_vector_columnas.cpp:89-93 | row fila of rank r's packed block is the part of row fila of A in columns r*c .. r*c+c-1 |
| ColumnMatVec.PartialProduct | 3_5_matriz_vector_columnas.cpp:109-116 | starting from zero, parcial[fila] is row fila of the packed block times x[rank*c .. rank*c+c) |
| ColumnMatVec.RowTimesSlice | 3_5_matriz_vector_columnas.cpp:112-115 | the inner loop finishes row fila of the partial result and leaves the later rows zero |
| ColumnMatVec.DistributeColumns | 3_5_matriz_vector_columnas.cpp:76-97 | every rank receives the packed block of its own columns, the root's own block first |
| ColumnMatVec.ComputePartials | 3_5_matriz_vector_columnas.cpp:104-116 | rank k's partial result at row fila is the part of row fila of A in k's columns times the matching part of x |
| ColumnMatVec.ReducedProduct | 3_5_matriz_vector_columnas.cpp:113-126 | the column ranges of the p ranks partition 0..n-1, so the element-wise sum of the partials is A x |
| ColumnMatVec.Run | 3_5_matriz_vector_columnas.cpp:20-126 | a dimension error exactly when p does not divide n; a size error exactly when n is a negative multiple of p, where resizing the root's vector to n throws; otherwise n >= 0 and the result reduced at the root is A x, of length n |
| Sums.ColumnSumOfSegments | 3_5_matriz_vector_columnas.cpp:113-126 | summing over ranks the dot products of consecutive b-long segments gives the dot product of the covered prefix |
| Arith.CDivMod | 3_9_costo_redistribucion.cpp:24-25 | C++ division of an int by d >= 1: quotient times d plus remainder gives a back, the remainder is smaller than d in size and has the sign of a, it is zero exactly when d divides a, and for a >= 0 both agree with Euclidean division |
| Redistribution.RoundUpBounds | 3_9_costo_redistribucion.cpp:24-27 | for any int n, with C++ division: the adjusted n is a multiple of p and equal to the requested n exactly when p divides it; for n >= 0 it is at least n and below n + p; for a negative n that p does not divide it overshoots to strictly between n + p and n + 2p (-3 becomes 4 for p = 4) |
| Redistribution.InitBlock | 3_9_costo_redistribucion.cpp:48-50 | rank r's slot i starts as r*epp + i + 1 |
| Redistribution.GatherPositions | 3_9_costo_redistribucion.cpp:48-50 | the gathered initial blocks are the vector 1, 2, ..., n |
| Redistribution.CyclicSlotInverse | 3_9_costo_redistribucion.cpp:87-90 | the block-to-cyclic target (i%p)*epp + i/p lies in [0, n) and the reverse map gives back i |
| Redistribution.CyclicSlotInjective | 3_9_costo_redistribucion.cpp:87-90 | distinct elements get distinct targets, so the loop writes every position of the send buffer once |
| Redistribution.GlobalOfSlotInverse | 3_9_costo_redistribucion.cpp:87-90 | the reverse map sends [0, n) into itself and the forward map undoes it: the reordering is a permutation |
| Redistribution.ToCyclic | 3_9_costo_redistribucion.cpp:86-92 | the cyclic reordering puts element i of the gathered vector at its cyclic position |
| Redistribution.ToBlock | 3_9_costo_redistribucion.cpp:132-141 | the block reordering reads global element i from its cyclic position |
| Redistribution.ToBlockToCyclic | 3_9_costo_redistribucion.cpp:86-141 | the cyclic-to-block reordering undoes the block-to-cyclic one |
| Redistribution.ToCyclicToBlock | 3_9_costo_redistribucion.cpp:86-141 | the block-to-cyclic reordering undoes the cyclic-to-block one |
| Redistribution.BlockToCyclic | 3_9_costo_redistribucion.cpp:86-92 | the root's loop fills the send buffer with the cyclic reordering of what it gathered |
| Redistribution.CyclicToBlock | 3_9_costo_redistribucion.cpp:132-141 | the root's nested loop fills the send buffer with the block reordering of what it gathered |
| Redistribution.CyclicElement | 3_9_costo_redistribucion.cpp:86-96 | rank r's cyclic slot l receives global element l*p + r |
| Redistribution.Redistribute | 3_9_costo_redistribucion.cpp:82-145 | for any blocks: after block to cyclic, rank r's slot l holds global element l*p + r; after cyclic to block, every rank has its original block back |
| Redistribution.Run | 3_9_costo_redistribucion.cpp:21-145 | a size error exactly when the adjusted n is negative, where the resize to n / p throws; otherwise n is the requested size adjusted by RoundUp; the blocks start as r*epp + i + 1; rank r's cyclic slot l ends with l*p + r + 1; the restored blocks equal the initial ones |
| Collectives.Gather | 3_9_costo_redistribucion.cpp:82-83 | slot i of rank r's chunk lands at r*epp + i of the gathered buffer |
| Collectives.Scatter | 3_9_costo_redistribucion.cpp:95-96 | rank r receives buffer positions r*epp .. r*epp + epp - 1 |
| Collectives.ScatterGather | 3_9_costo_redistribucion.cpp:82-96 | scattering a gathered buffer gives every rank its chunk back |
| Collectives.GatherScatter | 3_8_merge_sort_paralelo.cpp:136-137 | gathering the scattered chunks rebuilds the buffer |
| MergeSort.MergePermutation | 3_8_merge_sort_paralelo.cpp:21-42 | the merge is a permutation of its two runs together |
| MergeSort.MergeSorted | 3_8_merge_sort_paralelo.cpp:21-42 | merging two sorted runs gives a sorted run |
| MergeSort.MergeKeepsRunOrder | 3_8_merge_sort_paralelo.cpp:21-42 | the elements taken from each run appear in that run's order |
| MergeSort.MergeStable | 3_8_merge_sort_paralelo.cpp:22 | on ties the left run's element comes first: an element taken from the right run is never followed by an equal one taken from the left run |
| MergeSort.Merge | 3_8_merge_sort_paralelo.cpp:8-43 | arr[izq..der] becomes the merge of the runs arr[izq..medio] and arr[medio+1..der] as they were; the rest of arr is unchanged |
| MergeSort.CopyRun | 3_8_merge_sort_paralelo.cpp:12-17 | the copy is exactly the run it was taken from |
| MergeSort.MergeWhileBoth | 3_8_merge_sort_paralelo.cpp:19-30 | the first loop stops with one run used up, and the merge continued from where it stopped is the merge of both runs |
| MergeSort.CopyRest | 3_8_merge_sort_paralelo.cpp:32-42 | the second and third loops copy the rest of one run to arr[k..], touching nothing else |
| MergeSort.CopyRests | 3_8_merge_sort_paralelo.cpp:32-42 | the two tail loops together: arr[k..] receives the rest of the left run followed by the rest of the right run, and nothing outside that range changes |
| MergeSort.MergeAccSuffixes | 3_8_merge_sort_paralelo.cpp:21-42 | the merge loops, continued from positions i and j, append the merge of the remaining suffixes |
| MergeSort.MergeAccDone | 3_8_merge_sort_paralelo.cpp:32-42 | once the first loop stops, what it produced followed by the rest of both runs is the merge |
| MergeSort.MergeSortRange | 3_8_merge_sort_paralelo.cpp:45-52 | arr[izq..der] becomes a sorted permutation of itself and the rest of arr is untouched; both recursive calls shrink the range |
| MergeSort.SortedHalvesMerged | 3_8_merge_sort_paralelo.cpp:46-51 | sorting both halves and merging them sorts and permutes the range and keeps the rest |
| MergeSort.SortChunk | 3_8_merge_sort_paralelo.cpp:142 | a rank's sorted chunk is sorted and a permutation of what it received; an empty chunk sorts the range [0, -1], which does nothing |
| MergeSort.MergeVectors | 3_8_merge_sort_paralelo.cpp:54-80 | merge_dos_vectores returns the merge of its inputs, hence of length |vec1| + |vec2|, their multiset union, and sorted when both are |
| MergeSort.AppendWhileBoth | 3_8_merge_sort_paralelo.cpp:58-67 | the first loop stops with one vector used up and the merge continued from there is the merge of both |
| MergeSort.AppendRest | 3_8_merge_sort_paralelo.cpp:69-77 | the second and third loops append what is left of one vector |
| MergeSort.MergeAllSorted | 3_8_merge_sort_paralelo.cpp:164-177 | folding merges over sorted chunks gives a sorted vector |
| MergeSort.MergeAllPermutation | 3_8_merge_sort_paralelo.cpp:164-177 | the fold holds exactly the elements of the gathered chunks |
| MergeSort.RoundDownBounds | 3_8_merge_sort_paralelo.cpp:98-102 | for any int n, with C++ division: n_total becomes a multiple of p, unchanged exactly when p divides n, rounded toward zero (for n >= 0 at most n and above n - p, for n < 0 at least n, below n + p and at most 0, so -3 becomes 0 for p = 4), and negative exactly when n <= -p |
| MergeSort.GenerateData | 3_8_merge_sort_paralelo.cpp:105-112 | the root's data are n_total values, the i-th being the i-th draw |
| MergeSort.SortChunks | 3_8_merge_sort_paralelo.cpp:141-142 | every rank's chunk becomes a sorted permutation of the chunk it received |
| MergeSort.RootMerge | 3_8_merge_sort_paralelo.cpp:164-177 | the root's receive-and-merge loop computes the fold of merges over the chunks in rank order |
| MergeSort.SortedChunksMerge | 3_8_merge_sort_paralelo.cpp:164-177 | the root's result over sorted chunks is sorted and a permutation of the gathered input, of the same length |
| MergeSort.ChunkwisePermutation | 3_8_merge_sort_paralelo.cpp:136-142 | permuting each chunk permutes the gathered vector |
| MergeSort.Run | 3_8_merge_sort_paralelo.cpp:92-189 | a size error exactly when the requested n is at most -p, where the root's resize to the negative n_total throws; otherwise n_total is the requested size rounded toward zero to a multiple of p, and the root's final vector is sorted, has n_total elements and holds exactly the drawn values |
| MergeSort.SortGenerated | 3_8_merge_sort_paralelo.cpp:104-177 | for an n_total that p divides, the data are the n_total draws and the root's final vector is sorted, of length n_total and a permutation of the data |
| Sums.Ranks | 3_3_suma_arbol.cpp:12 | rank r starts with the value r + 1 |
| Sums.RanksSum | 3_3_suma_arbol.cpp:87 | the initial values 1..p add up to p(p+1)/2 |
| Bits.PowerOfTwoTest | 3_3_suma_arbol.cpp:19 | for p >= 1, p & (p-1) == 0 holds exactly when p is a power of two |
| TreeSum.ReceiverRole | 3_3_suma_arbol.cpp:24-34 | a multiple of 2*paso receives from rank + paso when that rank exists, and that rank sends to it |
| TreeSum.SenderRole | 3_3_suma_arbol.cpp:35-43 | a rank paso past a multiple of 2*paso sends to rank - paso, which receives from it |
| TreeSum.TreeRolesMatch | 3_3_suma_arbol.cpp:23-44 | among the ranks still in the loop, every send is received by its destination and every receive answered by its source in the same round; the senders are exactly the non-multiples of 2*paso |
| TreeSum.TreeRound | 3_3_suma_arbol.cpp:23-44 | after the round with step paso, the ranks still in the loop are the multiples of 2*paso, each holds the sum of its window of 2*paso values, and every other rank has sent once |
| TreeSum.PowerOfTwoRounds | 3_3_suma_arbol.cpp:23-45 | rank 0 ends with the sum of all initial values, rank 0 never sends, every other rank sends exactly once, and the loop runs ceil(log2 p) rounds |
| TreeSum.AsWrittenLostMessage | 3_3_suma_arbol.cpp:54-74 | as written, with an odd active count the top rank sends to rank mitad, which in the same round sends to rank 0, so the top rank's message is lost even with every rank still in its loop |
| TreeSum.AsWrittenThreeProcesses | 3_3_suma_arbol.cpp:54-76 | as written, with 3 processes rank 2 sends to rank 1 while rank 1 sends to rank 0, and in the next round rank 0 waits on rank 1 |
| TreeSum.AsWrittenRound | 3_3_suma_arbol.cpp:53-76 | a round as written, senders leaving their loop with break: a rank already out of its loop keeps its value and stays out |
| TreeSum.AsWrittenThreeProcessesRun | 3_3_suma_arbol.cpp:53-76 | the as-written run for p = 3: after round one rank 2's message is lost, only rank 0 is still in its loop and holds 3 rather than 6, and in round two it waits for ever on rank 1 |
| TreeSum.GeneralRoleAsWrittenWhenEven | 3_3_suma_arbol.cpp:54-74 | with an even active count the corrected schedule is the schedule as written |
| TreeSum.GeneralRolesMatch | 3_3_suma_arbol.cpp:54-76 | in the corrected schedule every send is received and every receive answered in the same round, and the ranks that do not send are exactly the next round's active ranks |
| TreeSum.ActiveShrinks | 3_3_suma_arbol.cpp:53-76 | while more than one rank is active, mitad + procesos_activos % 2 is positive and strictly smaller, so the loop terminates |
| TreeSum.RoundKeepsTotal | 3_3_suma_arbol.cpp:56-66 | a round keeps the total held by the active ranks |
| TreeSum.HalvingBounds | 3_3_suma_arbol.cpp:53-77 | the active count after k rounds is ceil(p / 2^k), so the loop runs ceil(log2 p) rounds |
| TreeSum.GeneralRound | 3_3_suma_arbol.cpp:54-74 | one corrected round in place: each rank below mitad adds the value of its partner, the upper ranks count one send, nothing else changes |
| TreeSum.GeneralStep | 3_3_suma_arbol.cpp:56-74 | what one rank does in a corrected round extends the round's effect by that rank |
| TreeSum.HalvingRound | 3_3_suma_arbol.cpp:53-77 | one pass of the while loop: the new active ranks hold the old active ranks' total, and exactly the ranks between the two counts have sent |
| TreeSum.GeneralRounds | 3_3_suma_arbol.cpp:50-77 | corrected general branch: rank 0 ends with the sum of all initial values, rank 0 never sends, every other rank sends exactly once, in ceil(log2 p) rounds |
| TreeSum.Run | 3_3_suma_arbol.cpp:12-90 | the branch test picks the power-of-two algorithm exactly for powers of two; rank 0's final value is p(p+1)/2, the value the program checks (general branch: corrected pairing, see Findings) |
| Bits.XorInvolution | 3_4_suma_mariposa.cpp:53 | the partner of the partner is the rank itself |
| Bits.XorNoFixedPoint | 3_4_suma_mariposa.cpp:53 | for paso >= 1 no rank is its own partner |
| Bits.XorPow2 | 3_4_suma_mariposa.cpp:53 | rank XOR 2^k is rank + 2^k when bit k of rank is clear and rank - 2^k when it is set |
| ButterflySum.PowerAtLeast | 3_4_suma_mariposa.cpp:47-50 | potencia_2 is the smallest power of two that is at least p |
| ButterflySum.ExchangePairs | 3_4_suma_mariposa.cpp:53-63 | paired ranks are distinct, pair with each other and both end the round with old[r] + old[r XOR paso]; a rank whose partner is not below p keeps its value |
| ButterflySum.Exchange | 3_4_suma_mariposa.cpp:53-63 | the in-place round computes every rank's new value from the values before the round |
| ButterflySum.RoundBases | 3_4_suma_mariposa.cpp:52-63 | for any p, if the multiples of paso hold the sums of their windows of width paso, after the round the multiples of 2*paso hold the sums of their windows of width 2*paso |
| ButterflySum.RoundAll | 3_4_suma_mariposa.cpp:21-34 | when 2*paso divides p, if every rank held the sum of its aligned window of width paso, afterwards every rank holds that of its aligned window of width 2*paso |
| ButterflySum.ExchangeRounds | 3_4_suma_mariposa.cpp:52-73 | the round loop runs log2 of its limit rounds; rank 0 ends with the total; when p is the limit, every rank does |
| ButterflySum.Butterfly | 3_4_suma_mariposa.cpp:17-74 | for any initial values, the limit is the smallest power of two at least p (p itself for a power of two), rank 0 ends with the total, and for a power of two every rank does |
| ButterflySum.Run | 3_4_suma_mariposa.cpp:11-90 | rank 0 ends with p(p+1)/2, the value line 81 checks, in log2(potencia_2) rounds; when p is a power of two every rank ends with it |
| ButterflySum.FiveProcesses | 3_4_suma_mariposa.cpp:44-73 | with 5 processes the limit is 8 and ranks 0..4 end with [15, 10, 10, 10, 15]: outside powers of two not every rank has the total |

## Left out

- MPI runtime plumbing: `MPI_Init`/`MPI_Finalize`, `MPI_Abort`, barriers, tags, message matching and blocking. Ranks run in lock-step rounds, not concurrently.
- `MPI_Comm_free` and the communicator objects themselves: only the grouping `MPI_Comm_split` computes is modelled.
- Console input and output: the requested sizes are parameters; prints, `setw` and `setprecision` are not modelled.
- Timing and bandwidth: `MPI_Wtime` and the cost figures of 3_9_costo_redistribucion.cpp.
- 3_1_histograma.cpp, 3_2_monte_carlo_pi.cpp and 3_7_ping_pong_tiempo.cpp are not part of this model: they work on random floats and clocks.
- Floating point: matrix and vector entries are `int`, so rounding in the sums is not modelled; `(int)sqrt` is the exact integer square root `BlockMatVec.ISqrt`.
- Sizes are read as `int` and the size adjustments use C++ division, which truncates toward zero (`Arith.CDiv`, `Arith.CRem`). A negative size given to `std::vector::resize` ends the run with `SizeError`; what the other ranks do then (wait in the next collective until the MPI runtime ends the job) is not modelled.
- 32-bit `int` overflow (for example `n * n` or `i * n + j`) is not modelled: integers are unbounded.
- Random input of 3_8_merge_sort_paralelo.cpp: the `mt19937` draws are a parameter `draw` of `MergeSort.GenerateData`, and their range 1..1000 is not imposed, since every property holds for any integers.
- Test data of 3_5_matriz_vector_columnas.cpp:37-46 (A[i][j] = i + j + 1, x[i] = i + 1): not generated. `ColumnMatVec.Run` takes A and x as parameters and y = A x is proved for every A and x.
- Test data of 3_6_matriz_vector_submatrices.cpp: `BlockMatVec.Run` also takes A and x as parameters; the root's generation loops are modelled separately by `BlockMatVec.GenerateTestData` and `BlockMatVec.TestProductFour`.
- TreeSum.Run: its general branch uses the corrected pairing (see Findings), not the pairing as written, with which p = 3 hangs before the final check. The as-written branch is modelled by `TreeSum.AsWrittenRole` and `TreeSum.AsWrittenRound`.
- Message timing in the tree reduction: a received value is the partner's value at the start of the round. The in-place updates in rank order of `TreeSum.TreeRound` and `TreeSum.GeneralRound` give the same result, because the source of each receive is a higher rank that does not change in that round.
- The step numbers `(int)log2(paso) + 1` that 3_4_suma_mariposa.cpp prints are not modelled; the number of rounds is.

## Findings

| source | as written | input that shows it | evidently intended | confidence | as-written member | corrected member |
|---|---|---|---|---|---|---|
| 3_3_suma_arbol.cpp:54-76 | in the general branch, ranks from mitad = procesos_activos / 2 up send to rank - mitad, and ranks below mitad receive from rank + mitad | p = 3: rank 2 sends to rank 1 while rank 1 sends to rank 0 and leaves the loop; in the next round (2 active) rank 0 waits for rank 1, which has already left, so rank 2's value is never received | the partner offset is procesos_activos - mitad, the number of ranks that stay, so every message is received and rank 0 ends with p(p+1)/2 | high; not executed | TreeSum.AsWrittenThreeProcessesRun | TreeSum.GeneralRounds |
