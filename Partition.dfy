/**
 * The work split of triangle_v4_pthreads.c: N columns are cut into
 * num_of_threads ranges of chunk = N / num_of_threads columns each, and the
 * last range also takes the N % num_of_threads columns left over. Every
 * thread runs the Phase 1 worker on its own range.
 */
module Partition {
  import opened Csc
  import opened CommonNeighbours

  /** The per-thread record: first column, one past the last column, thread number. */
  datatype WorkRange = WorkRange(start: nat, end: nat, id: nat)

  /** The chunk size: N / num_of_threads, and 1 when there are no threads. */
  function Chunk(n: nat, threads: int): (c: int)
    ensures threads > 0 ==> 0 <= c && c * threads <= n < c * threads + threads
    ensures threads <= 0 ==> c == 1
  {
    if threads > 0 then n / threads else 1
  }

  /** The ranges cover [0, n) from left to right without gap or overlap. */
  predicate Tiling(ranges: seq<WorkRange>, n: nat)
  {
    && |ranges| > 0
    && ranges[0].start == 0
    && ranges[|ranges| - 1].end == n
    && (forall t :: 0 <= t < |ranges| ==> ranges[t].start <= ranges[t].end)
    && (forall t :: 0 <= t < |ranges| - 1 ==> ranges[t].end == ranges[t + 1].start)
  }

  /**
   * The two loops of main() that fill struct matrix matrix[num_of_threads]
   * (the CSC pointers every record shares are left out). The array has as
   * many entries as there are threads, so at least one thread is needed.
   */
  method Split(n: nat, threads: nat) returns (ranges: array<WorkRange>)
    requires threads >= 1
    ensures ranges.Length == threads
    ensures Tiling(ranges[..], n)
    ensures forall t :: 0 <= t < threads ==> ranges[t].id == t
    ensures forall t :: 0 <= t < threads - 1 ==> ranges[t].end - ranges[t].start == n / threads
    ensures ranges[threads - 1].end - ranges[threads - 1].start == n / threads + n % threads
  {
    var chunk := Chunk(n, threads);
    ranges := new WorkRange[threads];
    for i := 0 to threads - 1
      invariant forall t :: 0 <= t < i ==> ranges[t] == WorkRange(t * chunk, t * chunk + chunk, t)
    {
      ranges[i] := WorkRange(i * chunk, i * chunk + chunk, i);
    }
    var last := threads - 1;
    ranges[last] := WorkRange(last * chunk, last * chunk + chunk + n % threads, last);
    SplitTiles(ranges[..], n, threads, chunk);
  }

  /** The next chunk starts where the previous one ends. */
  lemma ChunkStep(t: nat, chunk: nat)
    ensures t * chunk + chunk == (t + 1) * chunk
  {
  }

  /** The records that the two loops of Split write make up a tiling of [0, n). */
  lemma SplitTiles(ranges: seq<WorkRange>, n: nat, threads: nat, chunk: nat)
    requires threads >= 1 && |ranges| == threads && chunk == n / threads
    requires forall t :: 0 <= t < threads - 1 ==> ranges[t] == WorkRange(t * chunk, t * chunk + chunk, t)
    requires ranges[threads - 1]
          == WorkRange((threads - 1) * chunk, (threads - 1) * chunk + chunk + n % threads, threads - 1)
    ensures Tiling(ranges, n)
    ensures forall t :: 0 <= t < threads ==> ranges[t].id == t
    ensures forall t :: 0 <= t < threads - 1 ==> ranges[t].end - ranges[t].start == n / threads
    ensures ranges[threads - 1].end - ranges[threads - 1].start == n / threads + n % threads
  {
    forall t | 0 <= t < threads - 1 ensures ranges[t].end == ranges[t + 1].start {
      ChunkStep(t, chunk);
    }
    ChunkStep(threads - 1, chunk);
    assert threads * chunk + n % threads == n;
  }

  // ---------------------------------------------------------------------
  // Every column has exactly one owner
  // ---------------------------------------------------------------------

  /** In a tiling, ranges before t end no later than t starts; ranges after t start no earlier than t ends. */
  lemma {:induction false} TilingOrdered(ranges: seq<WorkRange>, n: nat, t: nat, u: nat)
    requires Tiling(ranges, n)
    requires t < u < |ranges|
    ensures ranges[t].end <= ranges[u].start
    decreases u - t
  {
    if t + 1 < u {
      TilingOrdered(ranges, n, t + 1, u);
    }
  }

  /** Every range of a tiling lies within [0, n). */
  lemma {:induction false} TilingBounds(ranges: seq<WorkRange>, n: nat, t: nat)
    requires Tiling(ranges, n)
    requires t < |ranges|
    ensures ranges[t].end <= n
  {
    if t < |ranges| - 1 {
      TilingOrdered(ranges, n, t, |ranges| - 1);
    }
  }

  /** Every column below n lies in the range of some thread. */
  lemma {:induction false} TilingCovers(ranges: seq<WorkRange>, n: nat, i: nat)
    requires Tiling(ranges, n)
    requires i < n
    ensures exists t :: 0 <= t < |ranges| && ranges[t].start <= i < ranges[t].end
  {
    var t := 0;
    while ranges[t].end <= i
      invariant 0 <= t < |ranges| && ranges[t].start <= i
      decreases |ranges| - t
    {
      t := t + 1;
    }
  }

  /** No column lies in the ranges of two different threads. */
  lemma TilingDisjoint(ranges: seq<WorkRange>, n: nat, t: nat, u: nat, i: nat)
    requires Tiling(ranges, n)
    requires t < |ranges| && u < |ranges|
    requires ranges[t].start <= i < ranges[t].end && ranges[u].start <= i < ranges[u].end
    ensures t == u
  {
    if t < u {
      TilingOrdered(ranges, n, t, u);
    } else if u < t {
      TilingOrdered(ranges, n, u, t);
    }
  }

  // ---------------------------------------------------------------------
  // Running the workers
  // ---------------------------------------------------------------------

  /** The columns of the ranges of the scheduled threads, one thread after the other. */
  function Span(ranges: seq<WorkRange>, schedule: seq<nat>): (cols: seq<nat>)
    requires forall k :: 0 <= k < |schedule| ==> schedule[k] < |ranges|
  {
    if schedule == [] then []
    else
      var r := ranges[schedule[|schedule| - 1]];
      Span(ranges, schedule[..|schedule| - 1]) + Columns(r.start, r.end)
  }

  /** Column i lies in range r. */
  predicate InRange(r: WorkRange, i: nat)
  {
    r.start <= i < r.end
  }

  /** Some thread of the schedule has column i in its range. */
  predicate Owned(ranges: seq<WorkRange>, schedule: seq<nat>, i: nat)
    requires forall k :: 0 <= k < |schedule| ==> schedule[k] < |ranges|
  {
    exists k :: 0 <= k < |schedule| && InRange(ranges[schedule[k]], i)
  }

  /** A column is owned by a schedule exactly when it is owned by its front or by its last thread. */
  lemma OwnedSnoc(ranges: seq<WorkRange>, schedule: seq<nat>, i: nat)
    requires forall k :: 0 <= k < |schedule| ==> schedule[k] < |ranges|
    requires schedule != []
    ensures var front := schedule[..|schedule| - 1];
      Owned(ranges, schedule, i) <==> Owned(ranges, front, i) || InRange(ranges[schedule[|schedule| - 1]], i)
  {
    var front := schedule[..|schedule| - 1];
    if Owned(ranges, schedule, i) {
      var k :| 0 <= k < |schedule| && InRange(ranges[schedule[k]], i);
      if k < |front| {
        assert front[k] == schedule[k];
      }
    }
    if Owned(ranges, front, i) {
      var k :| 0 <= k < |front| && InRange(ranges[front[k]], i);
      assert schedule[k] == front[k];
    }
  }

  /** A column is in the span exactly when some scheduled thread owns it. */
  lemma {:induction false} SpanMembers(ranges: seq<WorkRange>, schedule: seq<nat>, i: nat)
    requires forall k :: 0 <= k < |schedule| ==> schedule[k] < |ranges|
    ensures i in Span(ranges, schedule) <==> Owned(ranges, schedule, i)
  {
    if schedule != [] {
      var front := schedule[..|schedule| - 1];
      var r := ranges[schedule[|schedule| - 1]];
      SpanMembers(ranges, front, i);
      ColumnsMembers(r.start, r.end, i);
      OwnedSnoc(ranges, schedule, i);
      assert Span(ranges, schedule) == Span(ranges, front) + Columns(r.start, r.end);
    }
  }

  /** Scheduling every thread exactly once spans exactly the columns [0, n). */
  lemma SpanIsAllColumns(ranges: seq<WorkRange>, n: nat, schedule: seq<nat>)
    requires Tiling(ranges, n)
    requires multiset(schedule) == multiset(Columns(0, |ranges|))
    ensures forall k :: 0 <= k < |schedule| ==> schedule[k] < |ranges|
    ensures Below(Span(ranges, schedule), n)
    ensures forall i :: 0 <= i < n ==> (i in Span(ranges, schedule) <==> i in Columns(0, n))
  {
    forall k | 0 <= k < |schedule| ensures schedule[k] < |ranges| {
      assert schedule[k] in multiset(Columns(0, |ranges|));
    }
    var span := Span(ranges, schedule);
    forall x | 0 <= x < |span| ensures span[x] < n {
      SpanMembers(ranges, schedule, span[x]);
      var k :| 0 <= k < |schedule| && InRange(ranges[schedule[k]], span[x]);
      TilingBounds(ranges, n, schedule[k]);
    }
    forall i | 0 <= i < n ensures i in span && i in Columns(0, n) {
      ColumnsMembers(0, n, i);
      TilingCovers(ranges, n, i);
      var t :| 0 <= t < |ranges| && ranges[t].start <= i < ranges[t].end;
      assert Columns(0, |ranges|)[t] == t;
      assert t in multiset(schedule);
      var k :| 0 <= k < |schedule| && schedule[k] == t;
      assert InRange(ranges[schedule[k]], i);
      SpanMembers(ranges, schedule, i);
    }
  }

  /**
   * The threads of main() run to completion in some order (each writes only
   * the slots of its own columns): thread schedule[0] first, and so on.
   * Whatever the order, c_values ends as one pass over all columns leaves it.
   */
  method RunWorkers(cscColumn: seq<nat>, cscRow: seq<nat>, n: nat, cValues: array<nat>,
                    ranges: seq<WorkRange>, schedule: seq<nat>)
    requires WellFormed(cscColumn, cscRow, n)
    requires cscColumn[n] <= cValues.Length
    requires Tiling(ranges, n)
    requires multiset(schedule) == multiset(Columns(0, |ranges|))
    modifies cValues
    ensures cValues[..] == FillOver(cscColumn, n, MergeTable(cscColumn, cscRow, n), old(cValues[..]), Columns(0, n))
  {
    ghost var merges := MergeTable(cscColumn, cscRow, n);
    ghost var initial := cValues[..];
    SpanIsAllColumns(ranges, n, schedule);
    for k := 0 to |schedule|
      invariant Below(Span(ranges, schedule[..k]), n)
      invariant Filled(cscColumn, n, merges, initial, cValues[..], Span(ranges, schedule[..k]))
    {
      var r := ranges[schedule[k]];
      TilingBounds(ranges, n, schedule[k]);
      ghost var before, middle := Span(ranges, schedule[..k]), cValues[..];
      FillRange(cscColumn, cscRow, n, cValues, r.start, r.end);
      assert schedule[..k + 1][..k] == schedule[..k];
      FilledAppend(cscColumn, n, merges, initial, middle, cValues[..], before, Columns(r.start, r.end));
    }
    assert schedule[..|schedule|] == schedule;
    FillOverSameColumns(cscColumn, n, merges, initial, Span(ranges, schedule), Columns(0, n));
  }
}
