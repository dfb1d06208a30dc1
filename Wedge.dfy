/**
 * The wedge-closing triangle counter shared by triangle_v3.c,
 * triangle_v3_openmp.c and triangle_v3_cilk.c. For every column col1 in
 * [1, N), every neighbour row1 of col1 and every neighbour row2 of
 * col2 = row1, a linear scan looks for the closing edge: column row2 is
 * scanned for col1 when row2 > col1, otherwise column col1 is scanned for
 * row2. Every match found by a scan (there is no early exit) adds one to sum
 * and one to each of c3[col1], c3[row2], c3[col2].
 *
 * The specification is the sequence of hits the loops find, in loop order:
 * ScanHits, ClosingScan, WedgeHits, NeighbourHits and ColumnHits follow the four
 * loop levels. sum is its length and c3[v] is its Incidence at v.
 */
module Wedge {
  import opened Csc
  import opened Hits

  // ---------------------------------------------------------------------
  // The hits of each loop level
  // ---------------------------------------------------------------------

  /** The hits of a scan of s[..l] for x, each match recording h. */
  function ScanHits(s: seq<nat>, x: nat, h: Hit, l: nat): seq<Hit>
    requires l <= |s|
  {
    if l == 0 then [] else ScanHits(s, x, h, l - 1) + (if s[l - 1] == x then [h] else [])
  }

  /** The closing-edge test for the wedge col1 - col2 - row2. */
  function ClosingScan(colStart: seq<nat>, rowIndex: seq<nat>, n: nat, col1: nat, col2: nat, row2: nat): seq<Hit>
    requires WellFormed(colStart, rowIndex, n)
    requires col1 < n && row2 < n
  {
    var h := Hit(col1, row2, col2);
    if row2 > col1 then
      var s := Col(colStart, rowIndex, n, row2);
      ScanHits(s, col1, h, |s|)
    else
      var s := Col(colStart, rowIndex, n, col1);
      ScanHits(s, row2, h, |s|)
  }

  /** The hits of the first k wedges col1 - row1 - row2 with row2 taken from column row1. */
  function WedgeHits(colStart: seq<nat>, rowIndex: seq<nat>, n: nat, col1: nat, row1: nat, k: nat): seq<Hit>
    requires WellFormed(colStart, rowIndex, n)
    requires col1 < n && row1 < n
    requires k <= |Col(colStart, rowIndex, n, row1)|
  {
    if k == 0 then []
    else
      WedgeHits(colStart, rowIndex, n, col1, row1, k - 1)
      + ClosingScan(colStart, rowIndex, n, col1, row1, Col(colStart, rowIndex, n, row1)[k - 1])
  }

  /** The hits of the first j neighbours row1 of column col1. */
  function NeighbourHits(colStart: seq<nat>, rowIndex: seq<nat>, n: nat, col1: nat, j: nat): seq<Hit>
    requires WellFormed(colStart, rowIndex, n)
    requires col1 < n
    requires j <= |Col(colStart, rowIndex, n, col1)|
  {
    if j == 0 then []
    else
      var row1 := Col(colStart, rowIndex, n, col1)[j - 1];
      NeighbourHits(colStart, rowIndex, n, col1, j - 1)
      + WedgeHits(colStart, rowIndex, n, col1, row1, |Col(colStart, rowIndex, n, row1)|)
  }

  /** All hits of one iteration of the outer loop. */
  function ColumnHits(colStart: seq<nat>, rowIndex: seq<nat>, n: nat, col1: nat): seq<Hit>
    requires WellFormed(colStart, rowIndex, n)
    requires col1 < n
  {
    NeighbourHits(colStart, rowIndex, n, col1, |Col(colStart, rowIndex, n, col1)|)
  }

  /** The hits of every outer iteration, indexed by its column. */
  function Table(colStart: seq<nat>, rowIndex: seq<nat>, n: nat): (t: seq<seq<Hit>>)
    requires WellFormed(colStart, rowIndex, n)
    ensures |t| == n
    ensures forall c :: 0 <= c < n ==> t[c] == ColumnHits(colStart, rowIndex, n, c)
  {
    seq(n, c requires 0 <= c < n => ColumnHits(colStart, rowIndex, n, c))
  }

  /** All hits of the kernel: columns 1, ..., n - 1 in ascending order. */
  function KernelHits(colStart: seq<nat>, rowIndex: seq<nat>, n: nat): seq<Hit>
    requires WellFormed(colStart, rowIndex, n)
  {
    Concat(Table(colStart, rowIndex, n), Columns(1, n))
  }

  // ---------------------------------------------------------------------
  // Every hit names vertices below n
  // ---------------------------------------------------------------------

  /** A scan with no early exit records one hit per occurrence of x. */
  lemma {:induction false} ScanHitsCount(s: seq<nat>, x: nat, h: Hit, l: nat)
    requires l <= |s|
    ensures |ScanHits(s, x, h, l)| == multiset(s[..l])[x]
  {
    if l > 0 {
      TakeStep(s, l);
      ScanHitsCount(s, x, h, l - 1);
      assert multiset(s[..l]) == multiset(s[..l - 1]) + multiset{s[l - 1]};
    }
  }

  /** Every hit a scan records is the hit it was given. */
  lemma {:induction false} ScanHitsAll(s: seq<nat>, x: nat, h: Hit, l: nat)
    requires l <= |s|
    ensures forall k :: 0 <= k < |ScanHits(s, x, h, l)| ==> ScanHits(s, x, h, l)[k] == h
  {
    if l > 0 {
      ScanHitsAll(s, x, h, l - 1);
    }
  }

  lemma ClosingScanBelow(colStart: seq<nat>, rowIndex: seq<nat>, n: nat, col1: nat, col2: nat, row2: nat)
    requires WellFormed(colStart, rowIndex, n)
    requires col1 < n && col2 < n && row2 < n
    ensures HitsBelow(ClosingScan(colStart, rowIndex, n, col1, col2, row2), n)
  {
    var h := Hit(col1, row2, col2);
    if row2 > col1 {
      var s := Col(colStart, rowIndex, n, row2);
      ScanHitsAll(s, col1, h, |s|);
    } else {
      var s := Col(colStart, rowIndex, n, col1);
      ScanHitsAll(s, row2, h, |s|);
    }
  }

  lemma {:induction false} WedgeHitsBelow(colStart: seq<nat>, rowIndex: seq<nat>, n: nat, col1: nat, row1: nat, k: nat)
    requires WellFormed(colStart, rowIndex, n)
    requires col1 < n && row1 < n
    requires k <= |Col(colStart, rowIndex, n, row1)|
    ensures HitsBelow(WedgeHits(colStart, rowIndex, n, col1, row1, k), n)
  {
    if k > 0 {
      WedgeHitsBelow(colStart, rowIndex, n, col1, row1, k - 1);
      WedgeStepBelow(colStart, rowIndex, n, col1, row1, k);
    }
  }

  lemma WedgeStepBelow(colStart: seq<nat>, rowIndex: seq<nat>, n: nat, col1: nat, row1: nat, k: nat)
    requires WellFormed(colStart, rowIndex, n)
    requires col1 < n && row1 < n
    requires 0 < k <= |Col(colStart, rowIndex, n, row1)|
    requires HitsBelow(WedgeHits(colStart, rowIndex, n, col1, row1, k - 1), n)
    ensures HitsBelow(WedgeHits(colStart, rowIndex, n, col1, row1, k), n)
  {
    var row2 := Col(colStart, rowIndex, n, row1)[k - 1];
    ClosingScanBelow(colStart, rowIndex, n, col1, row1, row2);
    HitsBelowAppend(WedgeHits(colStart, rowIndex, n, col1, row1, k - 1),
                    ClosingScan(colStart, rowIndex, n, col1, row1, row2), n);
  }

  lemma {:induction false} NeighbourHitsBelow(colStart: seq<nat>, rowIndex: seq<nat>, n: nat, col1: nat, j: nat)
    requires WellFormed(colStart, rowIndex, n)
    requires col1 < n
    requires j <= |Col(colStart, rowIndex, n, col1)|
    ensures HitsBelow(NeighbourHits(colStart, rowIndex, n, col1, j), n)
  {
    if j > 0 {
      NeighbourHitsBelow(colStart, rowIndex, n, col1, j - 1);
      NeighbourStepBelow(colStart, rowIndex, n, col1, j);
    }
  }

  lemma NeighbourStepBelow(colStart: seq<nat>, rowIndex: seq<nat>, n: nat, col1: nat, j: nat)
    requires WellFormed(colStart, rowIndex, n)
    requires col1 < n
    requires 0 < j <= |Col(colStart, rowIndex, n, col1)|
    requires HitsBelow(NeighbourHits(colStart, rowIndex, n, col1, j - 1), n)
    ensures HitsBelow(NeighbourHits(colStart, rowIndex, n, col1, j), n)
  {
    var row1 := Col(colStart, rowIndex, n, col1)[j - 1];
    var wedges := WedgeHits(colStart, rowIndex, n, col1, row1, |Col(colStart, rowIndex, n, row1)|);
    WedgeHitsBelow(colStart, rowIndex, n, col1, row1, |Col(colStart, rowIndex, n, row1)|);
    HitsBelowAppend(NeighbourHits(colStart, rowIndex, n, col1, j - 1), wedges, n);
  }

  lemma TableBelow(colStart: seq<nat>, rowIndex: seq<nat>, n: nat)
    requires WellFormed(colStart, rowIndex, n)
    ensures forall c :: 0 <= c < n ==> HitsBelow(Table(colStart, rowIndex, n)[c], n)
  {
    forall c | 0 <= c < n ensures HitsBelow(Table(colStart, rowIndex, n)[c], n) {
      NeighbourHitsBelow(colStart, rowIndex, n, c, |Col(colStart, rowIndex, n, c)|);
    }
  }

  /**
   * Whatever order the outer loop visits the columns in, c3 started at zero
   * ends with the Incidence of the hits at every vertex, and summed over all
   * vertices it is three times the hit counter.
   */
  lemma KernelCounters(colStart: seq<nat>, rowIndex: seq<nat>, n: nat, order: seq<nat>)
    requires WellFormed(colStart, rowIndex, n)
    requires Below(order, n)
    ensures forall v :: 0 <= v < n ==>
      Tally(Zeros(n), Concat(Table(colStart, rowIndex, n), order))[v] == Incidence(Concat(Table(colStart, rowIndex, n), order), v)
    ensures Total(Tally(Zeros(n), Concat(Table(colStart, rowIndex, n), order))) == 3 * |Concat(Table(colStart, rowIndex, n), order)|
  {
    TableBelow(colStart, rowIndex, n);
    ConcatBelow(Table(colStart, rowIndex, n), order, n);
    TallyFromZero(Concat(Table(colStart, rowIndex, n), order), n);
  }

  /** The counters of any order of the columns [1, n) agree with the sequential kernel's. */
  lemma InOrderMatchesKernel(colStart: seq<nat>, rowIndex: seq<nat>, n: nat, order: seq<nat>)
    requires WellFormed(colStart, rowIndex, n)
    requires multiset(order) == multiset(Columns(1, n))
    ensures Below(order, n)
    ensures |Concat(Table(colStart, rowIndex, n), order)| == |KernelHits(colStart, rowIndex, n)|
    ensures forall v :: Incidence(Concat(Table(colStart, rowIndex, n), order), v)
                     == Incidence(KernelHits(colStart, rowIndex, n), v)
  {
    ConcatOrderIrrelevant(Table(colStart, rowIndex, n), Columns(1, n), order);
  }

  // ---------------------------------------------------------------------
  // The kernel, loop level by loop level
  // ---------------------------------------------------------------------

  /**
   * One match: sum++ and one increment each to c3[col1], c3[row2], c3[col2]
   * (the block triangle_v3_cilk.c guards with its mutex).
   */
  method RecordHit(c3: array<int>, sum: int, h: Hit) returns (sum': int)
    requires h.col1 < c3.Length && h.row2 < c3.Length && h.col2 < c3.Length
    modifies c3
    ensures sum' == sum + 1
    ensures c3[..] == Bump(old(c3[..]), h)
  {
    sum' := sum + 1;
    c3[h.col1] := c3[h.col1] + 1;
    c3[h.row2] := c3[h.row2] + 1;
    c3[h.col2] := c3[h.col2] + 1;
  }

  /** One linear scan of column c for x, recording h at every match. */
  method ScanFor(cscColumn: seq<nat>, cscRow: seq<nat>, n: nat, c: nat, x: nat, h: Hit,
                 c3: array<int>, sum: int) returns (sum': int)
    requires WellFormed(cscColumn, cscRow, n)
    requires c < n && h.col1 < n && h.row2 < n && h.col2 < n && c3.Length == n
    modifies c3
    ensures sum' == sum + |ScanHits(Col(cscColumn, cscRow, n, c), x, h, cscColumn[c + 1] - cscColumn[c])|
    ensures c3[..] == Tally(old(c3[..]), ScanHits(Col(cscColumn, cscRow, n, c), x, h, cscColumn[c + 1] - cscColumn[c]))
  {
    ghost var s := Col(cscColumn, cscRow, n, c);
    ghost var initial := c3[..];
    ghost var hits: seq<Hit> := [];
    sum' := sum;
    for l := 0 to cscColumn[c + 1] - cscColumn[c]
      invariant hits == ScanHits(s, x, h, l)
      invariant sum' == sum + |hits|
      invariant c3[..] == Tally(initial, hits)
    {
      var temp := cscRow[cscColumn[c] + l];
      assert temp == s[l];
      if temp == x {
        sum' := RecordHit(c3, sum', h);
        TallySnoc(initial, hits, h);
        hits := hits + [h];
      } else {
        assert hits + [] == hits;
      }
    }
  }

  /** The innermost loop: the linear scan for the closing edge of col1 - col2 - row2. */
  method CloseWedge(cscColumn: seq<nat>, cscRow: seq<nat>, n: nat, col1: nat, col2: nat, row2: nat,
                    c3: array<int>, sum: int) returns (sum': int)
    requires WellFormed(cscColumn, cscRow, n)
    requires col1 < n && col2 < n && row2 < n && c3.Length == n
    modifies c3
    ensures sum' == sum + |ClosingScan(cscColumn, cscRow, n, col1, col2, row2)|
    ensures c3[..] == Tally(old(c3[..]), ClosingScan(cscColumn, cscRow, n, col1, col2, row2))
  {
    var h := Hit(col1, row2, col2);
    if row2 > col1 {
      sum' := ScanFor(cscColumn, cscRow, n, row2, col1, h, c3, sum);
    } else {
      sum' := ScanFor(cscColumn, cscRow, n, col1, row2, h, c3, sum);
    }
  }

  /** The third loop: every neighbour row2 of col2 = row1 closes one wedge. */
  method ScanWedges(cscColumn: seq<nat>, cscRow: seq<nat>, n: nat, col1: nat, row1: nat,
                    c3: array<int>, sum: int) returns (sum': int)
    requires WellFormed(cscColumn, cscRow, n)
    requires col1 < n && row1 < n && c3.Length == n
    modifies c3
    ensures sum' == sum + |WedgeHits(cscColumn, cscRow, n, col1, row1, |Col(cscColumn, cscRow, n, row1)|)|
    ensures c3[..] == Tally(old(c3[..]), WedgeHits(cscColumn, cscRow, n, col1, row1, |Col(cscColumn, cscRow, n, row1)|))
  {
    ghost var initial := c3[..];
    ghost var hits: seq<Hit> := [];
    sum' := sum;
    for k := 0 to cscColumn[row1 + 1] - cscColumn[row1]
      invariant hits == WedgeHits(cscColumn, cscRow, n, col1, row1, k)
      invariant sum' == sum + |hits|
      invariant c3[..] == Tally(initial, hits)
    {
      var row2 := cscRow[cscColumn[row1] + k];
      var col2 := row1;
      assert row2 == Col(cscColumn, cscRow, n, row1)[k];
      ghost var scan := ClosingScan(cscColumn, cscRow, n, col1, col2, row2);
      sum' := CloseWedge(cscColumn, cscRow, n, col1, col2, row2, c3, sum');
      TallyAppend(initial, hits, scan);
      hits := hits + scan;
    }
  }

  /** The second loop: every neighbour row1 of col1. */
  method ScanColumn(cscColumn: seq<nat>, cscRow: seq<nat>, n: nat, col1: nat,
                    c3: array<int>, sum: int) returns (sum': int)
    requires WellFormed(cscColumn, cscRow, n)
    requires col1 < n && c3.Length == n
    modifies c3
    ensures sum' == sum + |ColumnHits(cscColumn, cscRow, n, col1)|
    ensures c3[..] == Tally(old(c3[..]), ColumnHits(cscColumn, cscRow, n, col1))
  {
    ghost var initial := c3[..];
    ghost var hits: seq<Hit> := [];
    sum' := sum;
    for j := 0 to cscColumn[col1 + 1] - cscColumn[col1]
      invariant hits == NeighbourHits(cscColumn, cscRow, n, col1, j)
      invariant sum' == sum + |hits|
      invariant c3[..] == Tally(initial, hits)
    {
      var row1 := cscRow[cscColumn[col1] + j];
      assert row1 == Col(cscColumn, cscRow, n, col1)[j];
      ghost var wedges := WedgeHits(cscColumn, cscRow, n, col1, row1, |Col(cscColumn, cscRow, n, row1)|);
      sum' := ScanWedges(cscColumn, cscRow, n, col1, row1, c3, sum');
      TallyAppend(initial, hits, wedges);
      hits := hits + wedges;
    }
  }

  /** The loop that zeroes c3 before the kernel runs. */
  method ZeroCounters(n: nat) returns (c3: array<int>)
    ensures fresh(c3)
    ensures c3[..] == Zeros(n)
  {
    c3 := new int[n];
    for i := 0 to n
      invariant forall v :: 0 <= v < i ==> c3[v] == 0
    {
      c3[i] := 0;
    }
  }

  /**
   * The outer loop over a sequence of columns, starting from zeroed counters
   * and sum = 0. The sequential program visits 1, ..., N - 1 in order; the
   * OpenMP and Cilk programs visit the same columns in an order their
   * scheduler chooses, each exactly once.
   */
  method CountColumns(cscColumn: seq<nat>, cscRow: seq<nat>, n: nat, order: seq<nat>)
    returns (sum: int, c3: array<int>)
    requires WellFormed(cscColumn, cscRow, n)
    requires Below(order, n)
    ensures fresh(c3)
    ensures sum == |Concat(Table(cscColumn, cscRow, n), order)|
    ensures c3[..] == Tally(Zeros(n), Concat(Table(cscColumn, cscRow, n), order))
  {
    ghost var table := Table(cscColumn, cscRow, n);
    c3 := ZeroCounters(n);
    sum := 0;
    for x := 0 to |order|
      invariant Below(order[..x], n)
      invariant sum == |Concat(table, order[..x])|
      invariant c3[..] == Tally(Zeros(n), Concat(table, order[..x]))
    {
      ghost var before := Concat(table, order[..x]);
      sum := ScanColumn(cscColumn, cscRow, n, order[x], c3, sum);
      TallyAppend(Zeros(n), before, table[order[x]]);
      assert order[..x + 1][..x] == order[..x];
    }
    assert order[..|order|] == order;
  }

  /**
   * The whole kernel of triangle_v3.c: sum counts the hits of the sequential
   * loop, c3[v] their Incidence at v, and Total(c3) is three times sum.
   */
  method WedgeCount(cscColumn: seq<nat>, cscRow: seq<nat>, n: nat) returns (sum: int, c3: array<int>)
    requires WellFormed(cscColumn, cscRow, n)
    ensures c3.Length == n
    ensures sum == |KernelHits(cscColumn, cscRow, n)|
    ensures forall v :: 0 <= v < n ==> c3[v] == Incidence(KernelHits(cscColumn, cscRow, n), v)
    ensures Total(c3[..]) == 3 * sum
  {
    sum, c3 := CountColumns(cscColumn, cscRow, n, Columns(1, n));
    KernelCounters(cscColumn, cscRow, n, Columns(1, n));
  }

  /**
   * The kernel of triangle_v3_openmp.c and triangle_v3_cilk.c, read
   * sequentially: any order that visits each column of [1, N) exactly once
   * gives the result of the sequential loop.
   */
  method WedgeCountInOrder(cscColumn: seq<nat>, cscRow: seq<nat>, n: nat, order: seq<nat>)
    returns (sum: int, c3: array<int>)
    requires WellFormed(cscColumn, cscRow, n)
    requires multiset(order) == multiset(Columns(1, n))
    ensures c3.Length == n
    ensures sum == |KernelHits(cscColumn, cscRow, n)|
    ensures forall v :: 0 <= v < n ==> c3[v] == Incidence(KernelHits(cscColumn, cscRow, n), v)
    ensures Total(c3[..]) == 3 * sum
  {
    InOrderMatchesKernel(cscColumn, cscRow, n, order);
    sum, c3 := CountColumns(cscColumn, cscRow, n, order);
    KernelCounters(cscColumn, cscRow, n, order);
  }
}
