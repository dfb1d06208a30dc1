/**
 * The kernels of triangle_v4_openmp.c and triangle_v4_pthreads.c from the
 * CSC arrays onward: Phase 1 fills c_values with the merge count of every
 * stored edge, Phase 2 multiplies the matrix of those counts with the
 * all-ones vector t, and the last loop halves every sum into c3 and sums c3
 * into triangle_sum / 3.
 */
module Pipeline {
  import opened Csc
  import opened Hits
  import opened CommonNeighbours
  import opened Partition
  import opened Reduction

  /**
   * c_values, allocated with as many slots as c_cscRow and every slot
   * zero. The C code reallocates it without clearing; here it starts from
   * zero memory.
   */
  method NewValues(m: nat) returns (cValues: array<nat>)
    ensures fresh(cValues)
    ensures cValues[..] == ZeroValues(m)
  {
    cValues := new nat[m];
    for s := 0 to m
      invariant forall x :: 0 <= x < s ==> cValues[x] == 0
    {
      cValues[s] := 0;
    }
  }

  /** Phase 2 and the normalisation, shared by both programs. */
  method Reduce(cscColumn: seq<nat>, cscRow: seq<nat>, n: nat, cValues: seq<nat>)
    returns (c3: array<int>, triangleSum: int)
    requires WellFormed(cscColumn, cscRow, n)
    requires cscColumn[n] <= |cValues|
    ensures c3.Length == n
    ensures forall v :: 0 <= v < n ==> c3[v] == TruncDiv(RowSum(cscRow, cValues, v, cscColumn[n]), 2)
    ensures triangleSum == TruncDiv(Total(c3[..]), 3)
  {
    var t := Ones(n);
    var resultVector := MultiplyVector(cscColumn, cscRow, n, cValues, t[..]);
    ProductWithOnes(cscColumn, cscRow, n, cValues, t[..], resultVector[..]);
    c3, triangleSum := Normalise(resultVector[..]);
  }

  /**
   * triangle_v4_openmp.c: the parallel loop over the columns, read as the
   * columns of [0, N) run one after the other in the order the scheduler
   * picks; then the product and the normalisation.
   */
  method OpenMpKernel(cscColumn: seq<nat>, cscRow: seq<nat>, n: nat, order: seq<nat>)
    returns (c3: array<int>, triangleSum: int)
    requires WellFormed(cscColumn, cscRow, n)
    requires multiset(order) == multiset(Columns(0, n))
    ensures c3.Length == n
    ensures forall v :: 0 <= v < n ==>
      c3[v] == TruncDiv(RowSum(cscRow, EdgeCounts(cscColumn, cscRow, n), v, cscColumn[n]), 2)
    ensures triangleSum == TruncDiv(Total(c3[..]), 3)
  {
    var cValues := NewValues(|cscRow|);
    FillInOrder(cscColumn, cscRow, n, cValues, order);
    c3, triangleSum := Reduce(cscColumn, cscRow, n, cValues[..]);
  }

  /**
   * triangle_v4_pthreads.c: the columns are split between the threads,
   * each thread runs the worker on its range, the threads finish in the
   * order schedule lists them, and main() joins them all before the
   * product and the normalisation.
   */
  method PthreadsKernel(cscColumn: seq<nat>, cscRow: seq<nat>, n: nat, threads: nat, schedule: seq<nat>)
    returns (c3: array<int>, triangleSum: int)
    requires WellFormed(cscColumn, cscRow, n)
    requires threads >= 1
    requires multiset(schedule) == multiset(Columns(0, threads))
    ensures c3.Length == n
    ensures forall v :: 0 <= v < n ==>
      c3[v] == TruncDiv(RowSum(cscRow, EdgeCounts(cscColumn, cscRow, n), v, cscColumn[n]), 2)
    ensures triangleSum == TruncDiv(Total(c3[..]), 3)
  {
    var cValues := NewValues(|cscRow|);
    var ranges := Split(n, threads);
    RunWorkers(cscColumn, cscRow, n, cValues, ranges[..], schedule);
    c3, triangleSum := Reduce(cscColumn, cscRow, n, cValues[..]);
  }
}
