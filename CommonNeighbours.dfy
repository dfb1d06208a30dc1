/**
 * Phase 1 of the v4 programs: for every stored slot s of column i (an edge
 * between row p = cscRow[s] and column i) the merge of column p with column
 * i is computed, and a non-zero result is written to c_values[s]. A zero
 * result leaves c_values[s] as it was.
 *
 * MergeTable lists the value the merge computes for every stored slot, and
 * FillOver is the specification of the loops over it: c_values after the
 * columns of an order have been processed, one after the other. Because
 * every column writes only its own slots and a repeated write of the same
 * value changes nothing, the result depends only on which columns occur in
 * the order (FillOverSlot).
 */
module CommonNeighbours {
  import opened Csc
  import opened Merge

  /** Slot s lies in the stored range of column i. */
  predicate InColumn(colStart: seq<nat>, n: nat, i: nat, s: nat)
    requires |colStart| == n + 1
  {
    i < n && colStart[i] <= s < colStart[i + 1]
  }

  /** A slot lies in at most one column. */
  lemma ColumnOfSlotUnique(colStart: seq<nat>, n: nat, i: nat, i': nat, s: nat)
    requires Offsets(colStart, n)
    requires InColumn(colStart, n, i, s) && InColumn(colStart, n, i', s)
    ensures i == i'
  {
  }

  /** The column, from c on, whose stored range holds slot s. */
  function ColumnFrom(colStart: seq<nat>, n: nat, s: nat, c: nat): (i: nat)
    requires Offsets(colStart, n)
    requires c < n && colStart[c] <= s < colStart[n]
    ensures InColumn(colStart, n, i, s)
    decreases n - c
  {
    if s < colStart[c + 1] then c else ColumnFrom(colStart, n, s, c + 1)
  }

  // ---------------------------------------------------------------------
  // The value of each merge
  // ---------------------------------------------------------------------

  /** What the merge computes for slot s of column i: row p = rowIndex[s] merged with column i. */
  function SlotValue(colStart: seq<nat>, rowIndex: seq<nat>, n: nat, i: nat, s: nat): (v: nat)
    requires WellFormed(colStart, rowIndex, n)
    requires InColumn(colStart, n, i, s)
    ensures v <= |Col(colStart, rowIndex, n, i)|
  {
    assert rowIndex[s] == Col(colStart, rowIndex, n, i)[s - colStart[i]];
    Common(Col(colStart, rowIndex, n, rowIndex[s]), Col(colStart, rowIndex, n, i))
  }

  /** The merge value of every stored slot, in slot order. */
  function MergeTable(colStart: seq<nat>, rowIndex: seq<nat>, n: nat): (m: seq<nat>)
    requires WellFormed(colStart, rowIndex, n)
    ensures |m| == colStart[n]
  {
    seq(colStart[n], s requires 0 <= s < colStart[n] =>
      SlotValue(colStart, rowIndex, n, ColumnFrom(colStart, n, s, 0), s))
  }

  /** Slot s of column i holds the merge value of row rowIndex[s] with column i. */
  lemma MergeTableSlot(colStart: seq<nat>, rowIndex: seq<nat>, n: nat, i: nat, s: nat)
    requires WellFormed(colStart, rowIndex, n)
    requires InColumn(colStart, n, i, s)
    ensures s < |MergeTable(colStart, rowIndex, n)|
    ensures MergeTable(colStart, rowIndex, n)[s] == SlotValue(colStart, rowIndex, n, i, s)
  {
    assert colStart[i + 1] <= colStart[n];
    ColumnOfSlotUnique(colStart, n, ColumnFrom(colStart, n, s, 0), i, s);
  }

  // ---------------------------------------------------------------------
  // The specification of the loops
  // ---------------------------------------------------------------------

  /** The guarded write: only a non-zero value reaches c_values. */
  function Write(current: nat, value: nat): nat
  {
    if value != 0 then value else current
  }

  /** The guarded writes of values into the slots from base on, one after the other. */
  function WriteSlots(cValues: seq<nat>, base: nat, values: seq<nat>): (r: seq<nat>)
    requires base + |values| <= |cValues|
    ensures |r| == |cValues|
  {
    if values == [] then cValues
    else
      var s := base + |values| - 1;
      var prev := WriteSlots(cValues, base, values[..|values| - 1]);
      prev[s := Write(prev[s], values[|values| - 1])]
  }

  /** Each slot from base on holds the guarded write of its value; every other slot is unchanged. */
  lemma {:induction false} WriteSlotsSlot(cValues: seq<nat>, base: nat, values: seq<nat>, s: nat)
    requires base + |values| <= |cValues| && s < |cValues|
    ensures WriteSlots(cValues, base, values)[s]
         == if base <= s < base + |values| then Write(cValues[s], values[s - base]) else cValues[s]
  {
    if values != [] {
      var front := values[..|values| - 1];
      WriteSlotsSlot(cValues, base, front, s);
      if base <= s < base + |front| {
        assert values[s - base] == front[s - base];
      }
    }
  }

  /** merges has a value for every stored slot, and c_values has room for every stored slot. */
  predicate Fits(colStart: seq<nat>, n: nat, merges: seq<nat>, cValues: seq<nat>)
  {
    Offsets(colStart, n) && colStart[n] <= |merges| && colStart[n] <= |cValues|
  }

  /** c_values after the first j slots of column i have been processed. */
  function FillPrefix(colStart: seq<nat>, n: nat, merges: seq<nat>, cValues: seq<nat>, i: nat, j: nat): (r: seq<nat>)
    requires Fits(colStart, n, merges, cValues)
    requires i < n && j <= colStart[i + 1] - colStart[i]
    ensures |r| == |cValues|
  {
    assert colStart[i + 1] <= colStart[n];
    WriteSlots(cValues, colStart[i], merges[colStart[i]..colStart[i] + j])
  }

  /** c_values after the whole of column i has been processed. */
  function FillColumn(colStart: seq<nat>, n: nat, merges: seq<nat>, cValues: seq<nat>, i: nat): (r: seq<nat>)
    requires Fits(colStart, n, merges, cValues)
    requires i < n
    ensures |r| == |cValues|
  {
    FillPrefix(colStart, n, merges, cValues, i, colStart[i + 1] - colStart[i])
  }

  /** c_values after the columns of order have been processed, in that order. */
  function FillOver(colStart: seq<nat>, n: nat, merges: seq<nat>, cValues: seq<nat>, order: seq<nat>): (r: seq<nat>)
    requires Fits(colStart, n, merges, cValues)
    requires Below(order, n)
    ensures |r| == |cValues|
  {
    if order == [] then cValues
    else FillColumn(colStart, n, merges, FillOver(colStart, n, merges, cValues, order[..|order| - 1]), order[|order| - 1])
  }

  /** After the first j slots of column i, those slots hold their guarded writes and no other slot changed. */
  lemma FillPrefixSlot(colStart: seq<nat>, n: nat, merges: seq<nat>, cValues: seq<nat>, i: nat, j: nat, s: nat)
    requires Fits(colStart, n, merges, cValues)
    requires i < n && j <= colStart[i + 1] - colStart[i] && s < |cValues|
    ensures FillPrefix(colStart, n, merges, cValues, i, j)[s]
         == if colStart[i] <= s < colStart[i] + j then Write(cValues[s], merges[s]) else cValues[s]
  {
    assert colStart[i + 1] <= colStart[n];
    WriteSlotsSlot(cValues, colStart[i], merges[colStart[i]..colStart[i] + j], s);
  }

  /** After column i, its slots hold their guarded writes and no other slot changed. */
  lemma FillColumnSlot(colStart: seq<nat>, n: nat, merges: seq<nat>, cValues: seq<nat>, i: nat, s: nat)
    requires Fits(colStart, n, merges, cValues)
    requires i < n && s < |cValues|
    ensures FillColumn(colStart, n, merges, cValues, i)[s]
         == if InColumn(colStart, n, i, s) then Write(cValues[s], merges[s]) else cValues[s]
  {
    FillPrefixSlot(colStart, n, merges, cValues, i, colStart[i + 1] - colStart[i], s);
  }

  // ---------------------------------------------------------------------
  // What FillOver leaves in each slot
  // ---------------------------------------------------------------------

  /**
   * After the columns of order have run, a slot of column i holds the guarded
   * write of its merge value when i occurs in order and its old content
   * otherwise; a slot outside every column is never touched.
   */
  lemma {:induction false} FillOverSlot(colStart: seq<nat>, n: nat, merges: seq<nat>, cValues: seq<nat>, order: seq<nat>, s: nat)
    requires Fits(colStart, n, merges, cValues)
    requires Below(order, n)
    requires s < |cValues|
    ensures forall i :: InColumn(colStart, n, i, s) ==>
      FillOver(colStart, n, merges, cValues, order)[s] == if i in order then Write(cValues[s], merges[s]) else cValues[s]
    ensures (forall i :: 0 <= i < n ==> !InColumn(colStart, n, i, s)) ==>
      FillOver(colStart, n, merges, cValues, order)[s] == cValues[s]
  {
    if order != [] {
      var front, last := order[..|order| - 1], order[|order| - 1];
      assert order == front + [last];
      assert last < n;
      FillOverSlot(colStart, n, merges, cValues, front, s);
      var prev := FillOver(colStart, n, merges, cValues, front);
      FillColumnSlot(colStart, n, merges, prev, last, s);
      assert !InColumn(colStart, n, last, s) ==> FillOver(colStart, n, merges, cValues, order)[s] == prev[s];
      forall i | InColumn(colStart, n, i, s)
        ensures FillOver(colStart, n, merges, cValues, order)[s]
          == if i in order then Write(cValues[s], merges[s]) else cValues[s]
      {
        if InColumn(colStart, n, last, s) {
          ColumnOfSlotUnique(colStart, n, i, last, s);
        }
      }
    }
  }

  /** Processing order a and then order b is processing a + b. */
  lemma {:induction false} FillOverAppend(colStart: seq<nat>, n: nat, merges: seq<nat>, cValues: seq<nat>, a: seq<nat>, b: seq<nat>)
    requires Fits(colStart, n, merges, cValues)
    requires Below(a, n) && Below(b, n)
    ensures Below(a + b, n)
    ensures FillOver(colStart, n, merges, FillOver(colStart, n, merges, cValues, a), b)
         == FillOver(colStart, n, merges, cValues, a + b)
  {
    if b == [] {
      assert a + b == a;
    } else {
      var b' := b[..|b| - 1];
      assert (a + b)[..|a + b| - 1] == a + b';
      assert (a + b)[|a + b| - 1] == b[|b| - 1];
      FillOverAppend(colStart, n, merges, cValues, a, b');
    }
  }

  /** The two v4 parallel loops only fix which columns run: orders with the same columns fill alike. */
  lemma FillOverSameColumns(colStart: seq<nat>, n: nat, merges: seq<nat>, cValues: seq<nat>, a: seq<nat>, b: seq<nat>)
    requires Fits(colStart, n, merges, cValues)
    requires Below(a, n) && Below(b, n)
    requires forall i :: 0 <= i < n ==> (i in a <==> i in b)
    ensures FillOver(colStart, n, merges, cValues, a) == FillOver(colStart, n, merges, cValues, b)
  {
    forall s | 0 <= s < |cValues|
      ensures FillOver(colStart, n, merges, cValues, a)[s] == FillOver(colStart, n, merges, cValues, b)[s]
    {
      FillOverSlot(colStart, n, merges, cValues, a, s);
      FillOverSlot(colStart, n, merges, cValues, b, s);
    }
  }

  /** Started from zeroed c_values, a stored slot of a processed column holds its merge value. */
  lemma FillFromZero(colStart: seq<nat>, n: nat, merges: seq<nat>, cValues: seq<nat>, order: seq<nat>, i: nat, s: nat)
    requires Fits(colStart, n, merges, cValues)
    requires Below(order, n)
    requires forall x :: 0 <= x < |cValues| ==> cValues[x] == 0
    requires s < |cValues| && InColumn(colStart, n, i, s) && i in order
    ensures FillOver(colStart, n, merges, cValues, order)[s] == merges[s]
  {
    FillOverSlot(colStart, n, merges, cValues, order, s);
  }

  /**
   * A worker on columns [start, end) writes only the slots between
   * colStart[start] and colStart[end]; so workers on disjoint ranges of
   * columns write disjoint slots.
   */
  lemma FillRangeFrame(colStart: seq<nat>, n: nat, merges: seq<nat>, cValues: seq<nat>, start: nat, end: nat, s: nat)
    requires Fits(colStart, n, merges, cValues)
    requires start <= end <= n
    requires s < |cValues| && !(colStart[start] <= s < colStart[end])
    ensures FillOver(colStart, n, merges, cValues, Columns(start, end))[s] == cValues[s]
  {
    FillOverSlot(colStart, n, merges, cValues, Columns(start, end), s);
    if i :| 0 <= i < n && InColumn(colStart, n, i, s) {
      ColumnsMembers(start, end, i);
    }
  }

  // ---------------------------------------------------------------------
  // c_values after Phase 1
  // ---------------------------------------------------------------------

  /** c_values of the given length with every slot zero. */
  function ZeroValues(m: nat): (z: seq<nat>)
    ensures |z| == m && forall s :: 0 <= s < m ==> z[s] == 0
  {
    seq(m, s => 0)
  }

  /** c_values after Phase 1 from zeroed memory: one pass over all columns. */
  function EdgeCounts(colStart: seq<nat>, rowIndex: seq<nat>, n: nat): (c: seq<nat>)
    requires WellFormed(colStart, rowIndex, n)
    ensures |c| == |rowIndex|
  {
    FillOver(colStart, n, MergeTable(colStart, rowIndex, n), ZeroValues(|rowIndex|), Columns(0, n))
  }

  /**
   * Each stored slot of EdgeCounts holds the merge value of its edge (the
   * number of common neighbours of its endpoints, for sorted columns), and
   * every slot past the stored ones stays zero.
   */
  lemma EdgeCountsSlot(colStart: seq<nat>, rowIndex: seq<nat>, n: nat, i: nat, s: nat)
    requires WellFormed(colStart, rowIndex, n)
    requires InColumn(colStart, n, i, s)
    ensures s < |rowIndex|
    ensures EdgeCounts(colStart, rowIndex, n)[s] == SlotValue(colStart, rowIndex, n, i, s)
    ensures SortedColumns(colStart, rowIndex, n) ==>
      EdgeCounts(colStart, rowIndex, n)[s]
        == |Elems(Col(colStart, rowIndex, n, rowIndex[s])) * Elems(Col(colStart, rowIndex, n, i))|
  {
    ColumnsMembers(0, n, i);
    MergeTableSlot(colStart, rowIndex, n, i, s);
    FillFromZero(colStart, n, MergeTable(colStart, rowIndex, n), ZeroValues(|rowIndex|), Columns(0, n), i, s);
    assert rowIndex[s] == Col(colStart, rowIndex, n, i)[s - colStart[i]];
    if SortedColumns(colStart, rowIndex, n) {
      CommonIsIntersection(Col(colStart, rowIndex, n, rowIndex[s]), Col(colStart, rowIndex, n, i));
    }
  }

  lemma EdgeCountsUnstored(colStart: seq<nat>, rowIndex: seq<nat>, n: nat, s: nat)
    requires WellFormed(colStart, rowIndex, n)
    requires colStart[n] <= s < |rowIndex|
    ensures EdgeCounts(colStart, rowIndex, n)[s] == 0
  {
    FillRangeFrame(colStart, n, MergeTable(colStart, rowIndex, n), ZeroValues(|rowIndex|), 0, n, s);
  }

  // ---------------------------------------------------------------------
  // The worker
  // ---------------------------------------------------------------------

  /** One merge: copy both columns and count their common entries (the body of the j loop). */
  method SlotMerge(cscColumn: seq<nat>, cscRow: seq<nat>, n: nat, i: nat, j: nat) returns (value: nat)
    requires WellFormed(cscColumn, cscRow, n)
    requires i < n && j < cscColumn[i + 1] - cscColumn[i]
    ensures value == SlotValue(cscColumn, cscRow, n, i, cscColumn[i] + j)
  {
    var indexP := cscRow[cscColumn[i] + j];
    assert indexP == Col(cscColumn, cscRow, n, i)[j];
    var indiceK := CopyColumn(cscColumn, cscRow, n, indexP);
    var indiceL := CopyColumn(cscColumn, cscRow, n, i);
    value := MergeCount(indiceK, indiceL);
  }

  /** current is c_values once the first j slots of column i have been processed from initial. */
  predicate PartlyFilled(colStart: seq<nat>, n: nat, merges: seq<nat>, initial: seq<nat>, current: seq<nat>, i: nat, j: nat)
    requires Fits(colStart, n, merges, initial)
    requires i < n && j <= colStart[i + 1] - colStart[i]
  {
    current == FillPrefix(colStart, n, merges, initial, i, j)
  }

  /** One more slot of column i: the guarded write of its merge value. */
  lemma PartlyFilledNext(colStart: seq<nat>, n: nat, merges: seq<nat>, initial: seq<nat>, current: seq<nat>,
                         i: nat, j: nat, value: nat)
    requires Fits(colStart, n, merges, initial)
    requires i < n && j < colStart[i + 1] - colStart[i]
    requires PartlyFilled(colStart, n, merges, initial, current, i, j)
    requires colStart[i] + j < |merges| && value == merges[colStart[i] + j]
    ensures colStart[i] + j < |current|
    ensures PartlyFilled(colStart, n, merges, initial,
                         if value != 0 then current[colStart[i] + j := value] else current, i, j + 1)
  {
    assert colStart[i + 1] <= colStart[n];
    var values := merges[colStart[i]..colStart[i] + j + 1];
    assert values[..j] == merges[colStart[i]..colStart[i] + j];
    if value == 0 {
      assert current[colStart[i] + j := current[colStart[i] + j]] == current;
    }
  }

  /** current is c_values once the columns of order have been processed from initial. */
  predicate Filled(colStart: seq<nat>, n: nat, merges: seq<nat>, initial: seq<nat>, current: seq<nat>, order: seq<nat>)
    requires Fits(colStart, n, merges, initial)
    requires Below(order, n)
  {
    current == FillOver(colStart, n, merges, initial, order)
  }

  /** Running order b on c_values that order a left gives c_values of a + b. */
  lemma FilledAppend(colStart: seq<nat>, n: nat, merges: seq<nat>, initial: seq<nat>, middle: seq<nat>, final: seq<nat>,
                     a: seq<nat>, b: seq<nat>)
    requires Fits(colStart, n, merges, initial)
    requires Below(a, n) && Below(b, n)
    requires Filled(colStart, n, merges, initial, middle, a)
    requires final == FillOver(colStart, n, merges, middle, b)
    ensures Below(a + b, n)
    ensures Filled(colStart, n, merges, initial, final, a + b)
  {
    FillOverAppend(colStart, n, merges, initial, a, b);
  }

  /** The inner loop over the slots of column i. */
  method FillSlots(cscColumn: seq<nat>, cscRow: seq<nat>, n: nat, cValues: array<nat>, i: nat)
    requires WellFormed(cscColumn, cscRow, n)
    requires i < n && cscColumn[n] <= cValues.Length
    modifies cValues
    ensures cValues[..] == FillColumn(cscColumn, n, MergeTable(cscColumn, cscRow, n), old(cValues[..]), i)
  {
    ghost var merges := MergeTable(cscColumn, cscRow, n);
    ghost var initial := cValues[..];
    for j := 0 to cscColumn[i + 1] - cscColumn[i]
      invariant PartlyFilled(cscColumn, n, merges, initial, cValues[..], i, j)
    {
      var value := SlotMerge(cscColumn, cscRow, n, i, j);
      MergeTableSlot(cscColumn, cscRow, n, i, cscColumn[i] + j);
      PartlyFilledNext(cscColumn, n, merges, initial, cValues[..], i, j, value);
      if value != 0 {
        cValues[cscColumn[i] + j] := value;
      }
    }
  }

  /** One more column at the end of a range. */
  lemma FillOverNext(colStart: seq<nat>, n: nat, merges: seq<nat>, cValues: seq<nat>, start: nat, i: nat)
    requires Fits(colStart, n, merges, cValues)
    requires start <= i < n
    ensures FillOver(colStart, n, merges, cValues, Columns(start, i + 1))
         == FillColumn(colStart, n, merges, FillOver(colStart, n, merges, cValues, Columns(start, i)), i)
  {
    assert Columns(start, i + 1)[..|Columns(start, i + 1)| - 1] == Columns(start, i);
  }

  /** An empty range of columns changes nothing. */
  lemma FillOverEmpty(colStart: seq<nat>, n: nat, merges: seq<nat>, cValues: seq<nat>, start: nat, end: nat)
    requires Fits(colStart, n, merges, cValues)
    requires end <= start
    ensures FillOver(colStart, n, merges, cValues, Columns(start, end)) == cValues
  {
    assert Columns(start, end) == [];
  }

  /** One iteration of the column loop: column i joins the processed range [start, i). */
  method FillNext(cscColumn: seq<nat>, cscRow: seq<nat>, n: nat, cValues: array<nat>, ghost initial: seq<nat>, start: nat, i: nat)
    requires WellFormed(cscColumn, cscRow, n)
    requires start <= i < n && cscColumn[n] <= cValues.Length && cscColumn[n] <= |initial|
    requires Filled(cscColumn, n, MergeTable(cscColumn, cscRow, n), initial, cValues[..], Columns(start, i))
    modifies cValues
    ensures Filled(cscColumn, n, MergeTable(cscColumn, cscRow, n), initial, cValues[..], Columns(start, i + 1))
  {
    FillOverNext(cscColumn, n, MergeTable(cscColumn, cscRow, n), initial, start, i);
    FillSlots(cscColumn, cscRow, n, cValues, i);
  }

  /**
   * The loop body of the pthreads worker multiplication(), columns start up
   * to end in order; the OpenMP program runs the same body for every column
   * of [0, N).
   */
  method FillRange(cscColumn: seq<nat>, cscRow: seq<nat>, n: nat, cValues: array<nat>, start: nat, end: nat)
    requires WellFormed(cscColumn, cscRow, n)
    requires end <= n && cscColumn[n] <= cValues.Length
    modifies cValues
    ensures cValues[..] == FillOver(cscColumn, n, MergeTable(cscColumn, cscRow, n), old(cValues[..]), Columns(start, end))
  {
    if end <= start {
      FillOverEmpty(cscColumn, n, MergeTable(cscColumn, cscRow, n), cValues[..], start, end);
    } else {
      FillAscending(cscColumn, cscRow, n, cValues, start, end);
    }
  }

  /** The column loop of FillRange over a non-empty range. */
  method FillAscending(cscColumn: seq<nat>, cscRow: seq<nat>, n: nat, cValues: array<nat>, start: nat, end: nat)
    requires WellFormed(cscColumn, cscRow, n)
    requires start <= end <= n && cscColumn[n] <= cValues.Length
    modifies cValues
    ensures cValues[..] == FillOver(cscColumn, n, MergeTable(cscColumn, cscRow, n), old(cValues[..]), Columns(start, end))
  {
    ghost var merges := MergeTable(cscColumn, cscRow, n);
    ghost var initial := cValues[..];
    FillOverEmpty(cscColumn, n, merges, initial, start, start);
    for i := start to end
      invariant Filled(cscColumn, n, merges, initial, cValues[..], Columns(start, i))
    {
      FillNext(cscColumn, cscRow, n, cValues, initial, start, i);
    }
  }

  /**
   * The Phase 1 loop of triangle_v4_openmp.c, read sequentially: the
   * parallel loop runs every column of [0, N) once, in an order the
   * scheduler chooses, and every order leaves c_values as the pass in
   * ascending order does.
   */
  method FillInOrder(cscColumn: seq<nat>, cscRow: seq<nat>, n: nat, cValues: array<nat>, order: seq<nat>)
    requires WellFormed(cscColumn, cscRow, n)
    requires cscColumn[n] <= cValues.Length
    requires multiset(order) == multiset(Columns(0, n))
    modifies cValues
    ensures cValues[..] == FillOver(cscColumn, n, MergeTable(cscColumn, cscRow, n), old(cValues[..]), Columns(0, n))
  {
    ghost var merges := MergeTable(cscColumn, cscRow, n);
    ghost var initial := cValues[..];
    ColumnOrder(order, n);
    for x := 0 to |order|
      invariant Filled(cscColumn, n, merges, initial, cValues[..], order[..x])
    {
      assert order[..x + 1][..x] == order[..x];
      FillSlots(cscColumn, cscRow, n, cValues, order[x]);
    }
    assert order[..|order|] == order;
    FillOverSameColumns(cscColumn, n, merges, initial, order, Columns(0, n));
  }

  /** An order of the columns of [0, N) names exactly those columns. */
  lemma ColumnOrder(order: seq<nat>, n: nat)
    requires multiset(order) == multiset(Columns(0, n))
    ensures Below(order, n)
    ensures forall i :: 0 <= i < n ==> (i in order <==> i in Columns(0, n))
  {
    forall k | 0 <= k < |order| ensures order[k] < n {
      assert order[k] in multiset(Columns(0, n));
      ColumnsMembers(0, n, order[k]);
    }
    forall i | 0 <= i < n ensures i in order <==> i in Columns(0, n) {
      ColumnsMembers(0, n, i);
      assert i in multiset(order) <==> i in multiset(Columns(0, n));
    }
  }
}
