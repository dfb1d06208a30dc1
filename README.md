# Triangle counting kernels of Parallel-Ergasia, modelled in Dafny

The repository holds five C programs that count the triangles of an
undirected graph given as a Matrix Market coordinate (COO) edge list. Each
first converts the list to compressed sparse column (CSC) form. The model
covers the integer kernels that come after reading the file:

* **COO preparation** (`Coo`). The orientation flag (`flag = I[0] > J[0]`)
  chooses the argument order and the dimension of the conversion call. The
  v4 programs also append every edge a second time with its endpoints
  swapped. The conversion still receives only the first `nz` entries.
* **CSC structure** (`Csc`). The columns array and the row array that the
  conversion produces are inputs, constrained by `WellFormed`. `Col` is the
  slice holding one column's rows, and `Columns(lo, hi)` is a loop range.
* **Wedge-closing counter** (`Hits`, `Wedge`, `Triangles`). This is the v3
  family: triangle_v3.c, plus the OpenMP and Cilk copies of the same loop.
  The model has one method per loop level. Ghost sequences of hits serve as
  their specification: `sum` is the number of hits and `c3[v]` is how many
  of them touch `v`. It proves that `Total(c3) == 3 * sum` and that every
  order of the outer columns gives the same result. When the CSC holds the
  upper half of a simple graph, it also proves that `sum` is the number of
  triangles and `c3[v]` the number of triangles through `v`.
* **Common-neighbour counter** (`Merge`, `CommonNeighbours`, `Partition`,
  `Reduction`, `Pipeline`). This is the v4 family:
  * Phase 1 runs a two-pointer merge for every stored slot and writes
    non-zero counts into `c_values`.
  * The OpenMP program runs Phase 1 over all columns in any order.
  * The pthreads program splits the columns into per-thread ranges, runs
    the worker on each range and joins the threads in any order.
  * Phase 2 multiplies the count matrix by the all-ones vector `t`.
  * Phase 3 halves every sum into `c3` and divides their total by three,
    using C's truncating division.

The parallel loops are read sequentially. An OpenMP or Cilk iteration, or a
pthreads worker, runs to completion before the next one starts, in an order
given as a parameter. The theorems hold for every such order.

## Model

| member | source | states |
|---|---|---|
| Coo.Orient | triangle_v3.c:98-112 | flag is 0 or 1, and 1 exactly when I[0] > J[0]; flag 0 passes (I, J, nz, M), flag 1 passes (J, I, nz, N); the other four programs repeat this code unchanged |
| Coo.OrientationMakesUpper | triangle_v3_cilk.c:118-138 | an edge list lying strictly on one side of the diagonal reaches the conversion with row < column for every edge |
| Coo.OrientationKeepsEndpoints | triangle_v3.c:98-112 | whatever the flag, every edge keeps its two endpoints; at most their roles swap |
| Coo.DiagonalHeadKeepsOrientation | triangle_v3.c:98-112 | for every list whose first entry lies on the diagonal: flag 0 and dimension M are kept, and every entry below the diagonal reaches the conversion still below it |
| Coo.Mirror | triangle_v4_openmp.c:108-111 | after the loop, I is old I[..nz] followed by old J[..nz], and J is old J[..nz] followed by old I[..nz]; triangle_v4_pthreads.c has the same loop |
| Coo.MirrorIsSymmetric | triangle_v4_pthreads.c:149-154 | in the mirrored list, every entry k has its transpose at the partner index, k + nz or k - nz |
| Coo.MirrorInvisibleToConversion | triangle_v4_pthreads.c:151-174 | since nz rather than 2 * nz is passed, the conversion receives the same flag and the same edges as without mirroring |
| Csc.Col | triangle_v3.c:128-129 | a column slice has cscColumn[c+1] - cscColumn[c] entries, each a vertex below N, so every cscRow read of the loops is in bounds |
| Csc.Columns | triangle_v3.c:127 | the loop range lo, ..., hi - 1: entry k is lo + k |
| Csc.ColumnsMembers | triangle_v3.c:127 | i is visited by the range loop exactly when lo <= i < hi |
| Hits.TallyIsIncidence | triangle_v3.c:137-142 | applying the three increments of every hit adds to c3[v] the number of increments aimed at v |
| Hits.TotalIsThreeHits | triangle_v3.c:138-141 | when c3 holds the increment counts of in-range hits, Total(c3) == 3 * number of hits |
| Hits.TallyFromZero | triangle_v3.c:114-119 | counters started at zero end with the increment counts of the hits and sum to three per hit |
| Hits.TallyAppend | triangle_v3.c:137-153 | incrementing for one run of hits and then another equals incrementing for both runs together |
| Hits.IncidencePermutation | triangle_v3_openmp.c:158-162 | the increments a set of hits adds to c3[v] do not depend on the order of the hits |
| Hits.ConcatPermutation | triangle_v3_openmp.c:145-147 | visiting the per-column runs in any permutation of an order yields the same multiset of hits |
| Hits.ConcatOrderIrrelevant | triangle_v3_cilk.c:159 | two orders that visit the same columns equally often give the same number of hits and the same counter values |
| Hits.ConcatBelow | triangle_v3.c:139-141 | if every column's hits name vertices below n, so does any concatenation of them |
| Wedge.ScanHitsCount | triangle_v3.c:135-143 | a scan with no early exit records one hit per occurrence of the target in the scanned slice |
| Wedge.ScanHitsAll | triangle_v3_cilk.c:181-191 | every hit of one scan is the same triple (col1, row2, col2) |
| Wedge.ClosingScanBelow | triangle_v3.c:134-155 | every hit of a closing test names three vertices below N, so the c3 increments stay in bounds |
| Wedge.WedgeHitsBelow | triangle_v3.c:131-156 | the hits of the wedges through one neighbour name vertices below N |
| Wedge.NeighbourHitsBelow | triangle_v3.c:128-157 | the hits of one outer iteration name vertices below N |
| Wedge.TableBelow | triangle_v3.c:127-158 | the hits of every outer iteration name vertices below N |
| Wedge.KernelCounters | triangle_v3.c:137-153 | from zeroed counters, any column order leaves c3[v] equal to the increment count of its hits at v, and Total(c3) == 3 * sum |
| Wedge.InOrderMatchesKernel | triangle_v3_openmp.c:145-180 | visiting each column of [1, N) once in any order gives as many hits as the sequential loop, with the same count at every vertex |
| Wedge.RecordHit | triangle_v3_cilk.c:170-175 | one locked block: sum + 1, and c3 gains one increment each at col1, row2 and col2 |
| Wedge.ScanFor | triangle_v3.c:146-154 | the linear scan of one column adds one hit per match to sum and applies each hit's increments to c3 |
| Wedge.CloseWedge | triangle_v3.c:134-155 | if row2 > col1, column row2 is scanned for col1; otherwise column col1 is scanned for row2; sum and c3 advance by the hits of that scan |
| Wedge.ScanWedges | triangle_v3.c:131-156 | the k loop adds the hits of every wedge col1 - row1 - row2 to sum and c3 |
| Wedge.ScanColumn | triangle_v3.c:128-157 | the j loop adds the hits of every neighbour row1 of col1 |
| Wedge.ZeroCounters | triangle_v3.c:114-119 | c3 is a fresh array of N zeros |
| Wedge.CountColumns | triangle_v3_cilk.c:155-195 | sum starts at 0, and after the columns of an order sum is their number of hits and c3 is zero plus their increments |
| Wedge.WedgeCount | triangle_v3.c:126-158 | columns 1..N-1 in order: sum is the number of hits, c3[v] the increment count at v, and Total(c3) == 3 * sum |
| Wedge.WedgeCountInOrder | triangle_v3_openmp.c:138-180 | any order that visits each of 1..N-1 once gives the result of the sequential loop; this covers the OpenMP loop and triangle_v3_cilk.c's cilk_for |
| Triangles.ScanDistinct | triangle_v3.c:146-154 | a scan of a duplicate-free column records the hit once if the target occurs in it, and never otherwise |
| Triangles.ClosingOneHit | triangle_v3.c:134-155 | when row2 < col1 and column col1 is duplicate free, the closing test gives one hit exactly when row2 is stored in column col1 |
| Triangles.ClosingsMultiplicity | triangle_v3.c:131-156 | over a duplicate-free neighbour list, each closed wedge occurs exactly once among the hits |
| Triangles.WedgeMultiplicity | triangle_v3.c:131-156 | on the upper half of a simple graph, the wedges through row1 give each closed wedge with col2 == row1 exactly once |
| Triangles.NeighbourMultiplicity | triangle_v3.c:128-157 | the first j neighbours of col1 give each closed wedge through them exactly once |
| Triangles.ColumnMultiplicity | triangle_v3.c:128-157 | one outer iteration gives each triangle whose largest corner is col1 exactly once |
| Triangles.KernelMultiplicityUpTo | triangle_v3.c:127-158 | the iterations 1..hi-1 give each closed wedge with 1 <= col1 < hi exactly once |
| Triangles.ClosedIsTriangle | triangle_v3.c:127-158 | a closed wedge with 1 <= col1 < N is exactly a triangle a < b < c of stored edges, found as Hit(c, a, b) |
| Triangles.KernelIsTriangleSet | triangle_v3.c:127-158 | on the upper half of a simple graph, no hit repeats and the hits are exactly the triangles |
| Triangles.KernelCountsTriangles | triangle_v3.c:127-158 | on the upper half of a simple graph, the number of hits is the number of triangles, and the increment count at v is the number of triangles through v |
| Triangles.CountTriangles | triangle_v3.c:114-158 | triangle_v3.c's kernel leaves sum = number of triangles and c3[v] = number of triangles through v |
| Triangles.CountTrianglesInOrder | triangle_v3_openmp.c:127-180 | the same result for any visiting order of the parallel loop, which is also triangle_v3_cilk.c's cilk_for |
| Merge.Common | triangle_v4_openmp.c:190-203 | the merge count of two slices is at most the size of either slice |
| Merge.CommonIsIntersection | triangle_v4_openmp.c:179-203 | on strictly ascending slices, the merge counts exactly the values the slices have in common |
| Merge.IntersectionEqualHeads | triangle_v4_openmp.c:191-195 | on equal heads, the head is common and counts one; the rest of the intersection lies in the tails |
| Merge.IntersectionDropHead | triangle_v4_openmp.c:196-202 | a head smaller than every value of the other slice belongs to no common value, so skipping it loses nothing |
| Merge.CopyColumn | triangle_v4_pthreads.c:30-39 | indice_k / indice_l is a fresh array that equals the column slice |
| Merge.MergeCount | triangle_v4_pthreads.c:40-56 | the loop ends with value = Common(k, l), value <= both sizes, and value is the size of the intersection of k and l when both are strictly ascending |
| CommonNeighbours.ColumnOfSlotUnique | triangle_v4_openmp.c:169-170 | no slot belongs to two columns |
| CommonNeighbours.ColumnFrom | triangle_v4_openmp.c:169-170 | every stored slot belongs to some column |
| CommonNeighbours.SlotValue | triangle_v4_openmp.c:171-203 | the merge value of slot s of column i is at most the size of column i |
| CommonNeighbours.MergeTableSlot | triangle_v4_openmp.c:171-203 | the table holds, for slot s of column i, the merge of column cscRow[s] with column i |
| CommonNeighbours.WriteSlotsSlot | triangle_v4_openmp.c:205-207 | after the guarded writes of successive slots, each written slot holds its value if non-zero and its old content otherwise; every other slot is unchanged |
| CommonNeighbours.FillPrefixSlot | triangle_v4_openmp.c:170-210 | after the first j slots of column i, those slots hold their guarded writes and nothing else changed |
| CommonNeighbours.FillColumnSlot | triangle_v4_openmp.c:170-210 | one iteration of the i loop writes only the slots of column i |
| CommonNeighbours.FillOverSlot | triangle_v4_openmp.c:168-211 | after any order of columns, a slot holds its guarded write if its column ran and its old content otherwise; a slot of no column is never touched |
| CommonNeighbours.FillOverAppend | triangle_v4_pthreads.c:251-253 | running order a and then order b equals running a + b |
| CommonNeighbours.FillOverSameColumns | triangle_v4_openmp.c:168-169 | two orders that contain the same columns leave c_values equal, so the schedule does not matter |
| CommonNeighbours.FillFromZero | triangle_v4_pthreads.c:57-59 | starting from zeroed c_values, a slot of a column that ran holds its merge value, zero or not |
| CommonNeighbours.FillRangeFrame | triangle_v4_pthreads.c:26-60 | a worker on [start, end) leaves every slot outside [cscColumn[start], cscColumn[end]) unchanged |
| CommonNeighbours.EdgeCountsSlot | triangle_v4_openmp.c:168-211 | after Phase 1 from zero, stored slot s of column i holds the merge of column cscRow[s] with column i; on sorted columns this is their number of common neighbours |
| CommonNeighbours.EdgeCountsUnstored | triangle_v4_openmp.c:159-160 | slots past cscColumn[N] stay zero |
| CommonNeighbours.SlotMerge | triangle_v4_openmp.c:171-203 | the j loop body computes the merge value of slot cscColumn[i] + j |
| CommonNeighbours.FillSlots | triangle_v4_openmp.c:170-210 | the j loop leaves c_values as column i's guarded writes of its merge values leave it |
| CommonNeighbours.FillNext | triangle_v4_pthreads.c:26-61 | one iteration of the i loop extends the processed range by column i |
| CommonNeighbours.FillRange | triangle_v4_pthreads.c:23-64 | the worker on [start, end) leaves c_values as the columns start..end-1, in order, leave it |
| CommonNeighbours.FillAscending | triangle_v4_pthreads.c:26-61 | the same, for a non-empty range |
| CommonNeighbours.FillInOrder | triangle_v4_openmp.c:168-211 | visiting each column of [0, N) once in any order leaves c_values as the pass in ascending order does |
| CommonNeighbours.ColumnOrder | triangle_v4_openmp.c:168-169 | an order that is a permutation of 0..N-1 names exactly the columns below N |
| CommonNeighbours.FilledAppend | triangle_v4_pthreads.c:251-253 | the effect of one more finished worker run composes with the workers before it |
| Partition.Chunk | triangle_v4_pthreads.c:221-224 | chunk is N / T (chunk * T <= N < chunk * T + T) when T > 0, and 1 otherwise |
| Partition.Split | triangle_v4_pthreads.c:229-249 | T records numbered 0..T-1 tile [0, N); the first T - 1 ranges have N / T columns and the last has N / T + N % T |
| Partition.SplitTiles | triangle_v4_pthreads.c:233-246 | the ranges [t * chunk, t * chunk + chunk) and the last range, stretched by N % T, tile [0, N) |
| Partition.TilingOrdered | triangle_v4_pthreads.c:233-234 | a range with a lower thread number ends no later than a range with a higher number starts |
| Partition.TilingBounds | triangle_v4_pthreads.c:245-246 | every range lies within [0, N) |
| Partition.TilingCovers | triangle_v4_pthreads.c:229-249 | every column below N lies in the range of some thread |
| Partition.TilingDisjoint | triangle_v4_pthreads.c:229-249 | no column lies in the ranges of two threads |
| Partition.OwnedSnoc | triangle_v4_pthreads.c:251-253 | a column is covered by a schedule exactly when the earlier threads or the last thread cover it |
| Partition.SpanMembers | triangle_v4_pthreads.c:251-253 | a column is processed by the scheduled workers exactly when one of them has it in its range |
| Partition.SpanIsAllColumns | triangle_v4_pthreads.c:229-253 | running every thread exactly once processes exactly the columns [0, N) |
| Partition.RunWorkers | triangle_v4_pthreads.c:238-253 | whichever order the workers finish in, c_values ends as one pass over all columns leaves it |
| Reduction.Ones | triangle_v4_openmp.c:141-146 | t holds N ones |
| Reduction.MultiplyVector | triangle_v4_openmp.c:216-225 | result_vector starts at zero, and entry v ends as the sum over slots with row v of c_values[s] * t[column of s]; triangle_v4_pthreads.c has the same loop |
| Reduction.RowDotOnes | triangle_v4_openmp.c:217-225 | with t all ones, the columns below i add to entry v the sum of the values stored in row v below cscColumn[i] |
| Reduction.RowsTotalIsValueSum | triangle_v4_openmp.c:217-225 | over all rows, the row sums account for every stored value exactly once |
| Reduction.ProductWithOnes | triangle_v4_openmp.c:217-225 | with t all ones, entry v is the sum of the values stored in row v, and the entries add up to the sum of all stored values |
| Reduction.TruncDiv | triangle_v4_openmp.c:228 | C's division by a positive divisor truncates toward zero, for either sign of the dividend |
| Reduction.Normalise | triangle_v4_openmp.c:226-232 | c3[i] = result_vector[i] / 2 and triangle_sum = (Σ c3) / 3, with truncating division; triangle_v4_pthreads.c has the same loop |
| Reduction.NormaliseExact | triangle_v4_openmp.c:226-232 | if every entry is even and the halves add up to a multiple of three, no remainder is lost: 2 * c3[i] = result_vector[i] and 3 * triangle_sum = Σ c3 |
| Pipeline.NewValues | triangle_v4_pthreads.c:182 | c_values is fresh with one zero slot per row slot |
| Pipeline.Reduce | triangle_v4_openmp.c:141-232 | Phases 2 and 3: c3[v] = (row sum of c_values at v) / 2 and triangle_sum = (Σ c3) / 3 |
| Pipeline.OpenMpKernel | triangle_v4_openmp.c:157-232 | for any order of the parallel loop, c3[v] = (row sum of the Phase 1 counts at v) / 2 and triangle_sum = (Σ c3) / 3 |
| Pipeline.PthreadsKernel | triangle_v4_pthreads.c:180-277 | for T >= 1 and any order in which the threads finish, the same c3 and triangle_sum as the OpenMP kernel |

## Left out

- File and command-line I/O: reading the Matrix Market file, `printf`, `mm_write_*`, and argv handling. None of it has checkable logic.
- `coo2csc` is not part of this model. Its output is an input, constrained by `Csc.WellFormed`, and, for the theorems, by `Csc.SortedColumns` or `Csc.UpperSimple`. The CSC arrays are read-only sequences.
- Threads, OpenMP pragmas, `cilk_for` and mutexes. A parallel loop is read as its iterations run one after another, in an order that is a parameter, and each iteration or worker runs to completion. The race in triangle_v3_openmp.c, where `critical` guards only `sum++` and not the `c3` increments, is therefore not captured. Neither are interleavings within an iteration.
- Floating point and timing: `gettimeofday`, the duration, the `val` array of doubles, and the Cilk grain size, which is computed but never used.
- Memory management: `malloc`, `realloc` and `free`, the leaked `indice_k`, and the aliasing of `c_values = realloc(c_cscRow, …)` in triangle_v4_openmp.c:159-160. Arrays are fresh Dafny arrays.
- Pipeline.NewValues: c_values starts zero-initialised. In the source it is uninitialised memory from `malloc` or `realloc`, and slots whose merge is zero are never written, so the source's values in those slots are unspecified.
- The CSC model and the kernels take a single dimension N (`Csc.WellFormed(…, n)` with `c3` of N slots). On the flag-0 path the conversion is given M instead (triangle_v3.c:110), and when M != N the source only prints a warning (triangle_v3.c:91-93) before indexing `c3` of size N. The model assumes the conversion's dimension equals N and does not capture the out-of-range accesses possible when M != N.
- Integer widths: values are unbounded `int`/`nat`. The source's `int` and `uint32_t` arithmetic (sum, c3, result_vector, the offsets) is not modelled with wrap-around.
- Coo.Orient: requires nz > 0. The source reads `I[0]` and `J[0]` unconditionally, which is undefined for an empty list.
- Partition.Split: requires at least one thread. With T <= 0 the source uses chunk = 1 but then writes `matrix[T - 1]`, which is undefined. `Partition.Chunk` still models the T <= 0 case.
- Coo.Mirror: requires I and J to be different arrays, as they are in the source.
- The v4 triangle_sum is not claimed to equal the number of triangles, and v4 is not claimed to agree with v3. The conversion sees only the first nz entries, not the mirrored half (`Coo.MirrorInvisibleToConversion`), so nothing in the kernel establishes a symmetric matrix. The model states what the v4 programs compute: row sums of merge counts, halved, and their total divided by three.
- The pthreads program computes triangle_sum but does not print it; output is not modelled.
- The debug helper `print1DMatrix` (triangle_v4_openmp.c:9-14).
