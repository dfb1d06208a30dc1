/**
 * What the wedge-closing kernel counts when its input is the upper half of
 * a simple graph: every column c holds distinct rows, all below c, so the
 * edge {a, b} with a < b is stored once, as row a of column b. Then every
 * wedge col1 - col2 - row2 has row2 < col2 < col1, the first closing scan
 * (row2 > col1) is never taken, and the hits are exactly the triangles
 * a < b < c, each found once, as Hit(c, a, b).
 */
module Triangles {
  import opened Csc
  import opened Hits
  import opened Wedge

  /** Row a is stored in column b. */
  predicate Stored(colStart: seq<nat>, rowIndex: seq<nat>, n: nat, a: nat, b: nat)
    requires WellFormed(colStart, rowIndex, n)
  {
    b < n && a in Col(colStart, rowIndex, n, b)
  }

  /** The wedge x.col1 - x.col2 - x.row2 of stored edges is closed by a stored edge. */
  predicate Closed(colStart: seq<nat>, rowIndex: seq<nat>, n: nat, x: Hit)
    requires WellFormed(colStart, rowIndex, n)
  {
    && Stored(colStart, rowIndex, n, x.col2, x.col1)
    && Stored(colStart, rowIndex, n, x.row2, x.col2)
    && Stored(colStart, rowIndex, n, x.row2, x.col1)
  }

  /**
   * x is a closed wedge found from column col1 through one of the rows in
   * cols: x.col2 is in cols and both edges to x.row2 are stored.
   */
  predicate ClosedThrough(colStart: seq<nat>, rowIndex: seq<nat>, n: nat, col1: nat, cols: seq<nat>, x: Hit)
    requires WellFormed(colStart, rowIndex, n)
  {
    && x.col1 == col1 && x.col2 in cols
    && Stored(colStart, rowIndex, n, x.row2, x.col2)
    && Stored(colStart, rowIndex, n, x.row2, col1)
  }

  /** The triangles a < b < c whose three edges are stored, as the hit that finds each. */
  function TriangleSet(colStart: seq<nat>, rowIndex: seq<nat>, n: nat): set<Hit>
    requires WellFormed(colStart, rowIndex, n)
  {
    set a: nat, b: nat, c: nat
      | a < b < c < n
        && Stored(colStart, rowIndex, n, a, b)
        && Stored(colStart, rowIndex, n, a, c)
        && Stored(colStart, rowIndex, n, b, c)
      :: Hit(c, a, b)
  }

  /** The triangles with v as one of their corners. */
  function TrianglesThrough(colStart: seq<nat>, rowIndex: seq<nat>, n: nat, v: nat): set<Hit>
    requires WellFormed(colStart, rowIndex, n)
  {
    set t | t in TriangleSet(colStart, rowIndex, n) && (t.col1 == v || t.row2 == v || t.col2 == v)
  }

  // ---------------------------------------------------------------------
  // Hit sequences without repeats
  // ---------------------------------------------------------------------

  /** No hit occurs twice. */
  ghost predicate Unrepeated(hits: seq<Hit>)
  {
    forall x :: multiset(hits)[x] <= 1
  }

  function Members(hits: seq<Hit>): set<Hit>
  {
    set x | x in hits
  }

  /** A sequence without repeats has as many distinct members as entries. */
  lemma {:induction false} UnrepeatedMembers(hits: seq<Hit>)
    requires Unrepeated(hits)
    ensures |Members(hits)| == |hits|
  {
    if hits != [] {
      var front, last := hits[..|hits| - 1], hits[|hits| - 1];
      assert hits == front + [last];
      assert multiset(hits) == multiset(front) + multiset{last};
      assert multiset(hits)[last] <= 1;
      assert multiset(front)[last] == 0;
      assert Unrepeated(front) by {
        forall x ensures multiset(front)[x] <= 1 {
          assert multiset(hits)[x] <= 1;
        }
      }
      UnrepeatedMembers(front);
      assert Members(hits) == Members(front) + {last};
    }
  }

  /** The members of hits that touch v. */
  function Touching(hits: seq<Hit>, v: nat): set<Hit>
  {
    set x | x in hits && Touch(x, v) > 0
  }

  lemma TouchingSnoc(front: seq<Hit>, last: Hit, v: nat)
    ensures Touching(front + [last], v) == Touching(front, v) + (if Touch(last, v) > 0 then {last} else {})
  {
  }

  /**
   * When no hit repeats and none touches v twice, the Incidence at v counts
   * the members that touch v.
   */
  lemma {:induction false} UnrepeatedIncidence(hits: seq<Hit>, v: nat)
    requires Unrepeated(hits)
    requires forall k :: 0 <= k < |hits| ==> Touch(hits[k], v) <= 1
    ensures Incidence(hits, v) == |Touching(hits, v)|
  {
    if hits != [] {
      var front, last := hits[..|hits| - 1], hits[|hits| - 1];
      assert hits == front + [last];
      assert forall k :: 0 <= k < |front| ==> front[k] == hits[k];
      assert multiset(hits) == multiset(front) + multiset{last};
      assert multiset(hits)[last] <= 1;
      assert multiset(front)[last] == 0;
      assert Unrepeated(front) by {
        forall x ensures multiset(front)[x] <= 1 {
          assert multiset(hits)[x] <= 1;
        }
      }
      UnrepeatedIncidence(front, v);
      TouchingSnoc(front, last, v);
      assert last !in Touching(front, v);
    }
  }

  // ---------------------------------------------------------------------
  // The hits of each loop level
  // ---------------------------------------------------------------------

  /** In a duplicate-free sequence no entry occurs among the entries before it. */
  lemma DistinctLast(s: seq<nat>, k: nat)
    requires Distinct(s) && 0 < k <= |s|
    ensures s[k - 1] !in s[..k - 1]
  {
    var prefix := s[..k - 1];
    assert forall q :: 0 <= q < |prefix| ==> prefix[q] != s[k - 1];
  }

  /** A scan of a duplicate-free sequence matches at most once. */
  lemma {:induction false} ScanDistinct(s: seq<nat>, x: nat, h: Hit, l: nat)
    requires Distinct(s) && l <= |s|
    ensures ScanHits(s, x, h, l) == if x in s[..l] then [h] else []
  {
    if l > 0 {
      ScanDistinct(s, x, h, l - 1);
      assert s[..l] == s[..l - 1] + [s[l - 1]];
      if s[l - 1] == x {
        DistinctLast(s, l);
      }
    }
  }

  /** Below the diagonal the closing test scans column col1 once for row2. */
  lemma ClosingOneHit(colStart: seq<nat>, rowIndex: seq<nat>, n: nat, col1: nat, col2: nat, row2: nat)
    requires WellFormed(colStart, rowIndex, n)
    requires row2 < col1 < n && Distinct(Col(colStart, rowIndex, n, col1))
    ensures ClosingScan(colStart, rowIndex, n, col1, col2, row2)
         == if Stored(colStart, rowIndex, n, row2, col1) then [Hit(col1, row2, col2)] else []
  {
    var s := Col(colStart, rowIndex, n, col1);
    ScanDistinct(s, row2, Hit(col1, row2, col2), |s|);
    assert s[..|s|] == s;
  }

  /**
   * The hits of the wedges col1 - col2 - column[q], q < k, when each closes
   * exactly when column[q] is in target.
   */
  function Closings(column: seq<nat>, target: seq<nat>, col1: nat, col2: nat, k: nat): seq<Hit>
    requires k <= |column|
  {
    if k == 0 then []
    else
      Closings(column, target, col1, col2, k - 1)
      + (if column[k - 1] in target then [Hit(col1, column[k - 1], col2)] else [])
  }

  /** One more wedge: its closing adds the hit with row2, new to the prefix, when it closes. */
  lemma ClosingsStep(before: seq<Hit>, closing: seq<Hit>, after: seq<Hit>, prefix: seq<nat>, full: seq<nat>,
                     row2: nat, target: seq<nat>, col1: nat, col2: nat)
    requires after == before + closing && full == prefix + [row2] && row2 !in prefix
    requires closing == if row2 in target then [Hit(col1, row2, col2)] else []
    requires forall x :: (multiset(before)[x]
      == if x.col1 == col1 && x.col2 == col2 && x.row2 in prefix && x.row2 in target then 1 else 0)
    ensures forall x :: (multiset(after)[x]
      == if x.col1 == col1 && x.col2 == col2 && x.row2 in full && x.row2 in target then 1 else 0)
  {
    assert multiset(after) == multiset(before) + multiset(closing);
    forall x: Hit ensures x.row2 in full <==> x.row2 in prefix || x.row2 == row2 {
    }
  }

  /** Over a duplicate-free column each closing is found exactly once. */
  lemma {:induction false} ClosingsMultiplicity(column: seq<nat>, target: seq<nat>, col1: nat, col2: nat, k: nat)
    requires Distinct(column) && k <= |column|
    ensures forall x :: (multiset(Closings(column, target, col1, col2, k))[x]
      == if x.col1 == col1 && x.col2 == col2 && x.row2 in column[..k] && x.row2 in target then 1 else 0)
  {
    if k > 0 {
      ClosingsMultiplicity(column, target, col1, col2, k - 1);
      var row2 := column[k - 1];
      var prefix := column[..k - 1];
      assert column[..k] == prefix + [row2];
      DistinctLast(column, k);
      ClosingsStep(Closings(column, target, col1, col2, k - 1),
                   if row2 in target then [Hit(col1, row2, col2)] else [],
                   Closings(column, target, col1, col2, k), prefix, column[..k], row2, target, col1, col2);
    }
  }

  /** Below the diagonal the closing scans of the wedges through row1 are Closings. */
  lemma {:induction false} WedgeHitsAreClosings(colStart: seq<nat>, rowIndex: seq<nat>, n: nat, col1: nat, row1: nat, k: nat)
    requires WellFormed(colStart, rowIndex, n)
    requires row1 < col1 < n
    requires Distinct(Col(colStart, rowIndex, n, col1))
    requires forall q :: 0 <= q < |Col(colStart, rowIndex, n, row1)| ==> Col(colStart, rowIndex, n, row1)[q] < row1
    requires k <= |Col(colStart, rowIndex, n, row1)|
    ensures WedgeHits(colStart, rowIndex, n, col1, row1, k)
         == Closings(Col(colStart, rowIndex, n, row1), Col(colStart, rowIndex, n, col1), col1, row1, k)
  {
    if k > 0 {
      WedgeHitsAreClosings(colStart, rowIndex, n, col1, row1, k - 1);
      ClosingOneHit(colStart, rowIndex, n, col1, row1, Col(colStart, rowIndex, n, row1)[k - 1]);
    }
  }

  /** The hits of all wedges col1 - row1 - row2 with row2 from column row1, each once. */
  lemma WedgeMultiplicity(colStart: seq<nat>, rowIndex: seq<nat>, n: nat, col1: nat, row1: nat)
    requires UpperSimple(colStart, rowIndex, n)
    requires row1 < col1 < n
    ensures forall x :: (multiset(WedgeHits(colStart, rowIndex, n, col1, row1, |Col(colStart, rowIndex, n, row1)|))[x]
      == if && x.col1 == col1 && x.col2 == row1
            && x.row2 in Col(colStart, rowIndex, n, row1)
            && x.row2 in Col(colStart, rowIndex, n, col1)
         then 1 else 0)
  {
    assert SimpleColumn(colStart, rowIndex, n, col1) && SimpleColumn(colStart, rowIndex, n, row1);
    var column := Col(colStart, rowIndex, n, row1);
    WedgeHitsAreClosings(colStart, rowIndex, n, col1, row1, |column|);
    ClosingsMultiplicity(column, Col(colStart, rowIndex, n, col1), col1, row1, |column|);
    assert column[..|column|] == column;
  }

  /** One more neighbour row1 of col1: its wedges add the hits with col2 == row1. */
  lemma NeighbourStep(colStart: seq<nat>, rowIndex: seq<nat>, n: nat, before: seq<Hit>, wedges: seq<Hit>, after: seq<Hit>,
                      prefix: seq<nat>, full: seq<nat>, col1: nat, row1: nat)
    requires WellFormed(colStart, rowIndex, n)
    requires row1 < col1 < n
    requires after == before + wedges && full == prefix + [row1] && row1 !in prefix
    requires forall x :: multiset(before)[x] == if ClosedThrough(colStart, rowIndex, n, col1, prefix, x) then 1 else 0
    requires forall x :: (multiset(wedges)[x]
      == if && x.col1 == col1 && x.col2 == row1
            && x.row2 in Col(colStart, rowIndex, n, row1) && x.row2 in Col(colStart, rowIndex, n, col1)
         then 1 else 0)
    ensures forall x :: multiset(after)[x] == if ClosedThrough(colStart, rowIndex, n, col1, full, x) then 1 else 0
  {
    assert multiset(after) == multiset(before) + multiset(wedges);
    forall x: Hit ensures x.col2 in full <==> x.col2 in prefix || x.col2 == row1 {
    }
  }

  /** The j-th neighbour of col1 lies below col1 and is not among the neighbours before it. */
  lemma NeighbourFacts(colStart: seq<nat>, rowIndex: seq<nat>, n: nat, col1: nat, j: nat)
    requires UpperSimple(colStart, rowIndex, n)
    requires col1 < n && 0 < j <= |Col(colStart, rowIndex, n, col1)|
    ensures Col(colStart, rowIndex, n, col1)[j - 1] < col1
    ensures Col(colStart, rowIndex, n, col1)[j - 1] !in Col(colStart, rowIndex, n, col1)[..j - 1]
  {
    var column := Col(colStart, rowIndex, n, col1);
    assert SimpleColumn(colStart, rowIndex, n, col1);
    DistinctLast(column, j);
  }

  /** The hits of the first j neighbours of col1: each closed stored wedge once. */
  lemma {:induction false} NeighbourMultiplicity(colStart: seq<nat>, rowIndex: seq<nat>, n: nat, col1: nat, j: nat)
    requires UpperSimple(colStart, rowIndex, n)
    requires col1 < n
    requires j <= |Col(colStart, rowIndex, n, col1)|
    ensures forall x :: (multiset(NeighbourHits(colStart, rowIndex, n, col1, j))[x]
      == if ClosedThrough(colStart, rowIndex, n, col1, Col(colStart, rowIndex, n, col1)[..j], x) then 1 else 0)
  {
    if j > 0 {
      NeighbourMultiplicity(colStart, rowIndex, n, col1, j - 1);
      var column := Col(colStart, rowIndex, n, col1);
      var row1 := column[j - 1];
      NeighbourFacts(colStart, rowIndex, n, col1, j);
      WedgeMultiplicity(colStart, rowIndex, n, col1, row1);
      var prefix := column[..j - 1];
      assert column[..j] == prefix + [row1];
      NeighbourStep(colStart, rowIndex, n, NeighbourHits(colStart, rowIndex, n, col1, j - 1),
                    WedgeHits(colStart, rowIndex, n, col1, row1, |Col(colStart, rowIndex, n, row1)|),
                    NeighbourHits(colStart, rowIndex, n, col1, j), prefix, column[..j], col1, row1);
    }
  }

  /** The hits of one outer iteration: each triangle whose largest corner is col1, once. */
  lemma ColumnMultiplicity(colStart: seq<nat>, rowIndex: seq<nat>, n: nat, col1: nat)
    requires UpperSimple(colStart, rowIndex, n)
    requires col1 < n
    ensures forall x :: (multiset(ColumnHits(colStart, rowIndex, n, col1))[x]
      == if x.col1 == col1 && Closed(colStart, rowIndex, n, x) then 1 else 0)
  {
    var column := Col(colStart, rowIndex, n, col1);
    NeighbourMultiplicity(colStart, rowIndex, n, col1, |column|);
    assert column[..|column|] == column;
  }

  /** Appending the run of column c to the runs of the columns before it. */
  lemma KernelStep(colStart: seq<nat>, rowIndex: seq<nat>, n: nat, before: seq<Hit>, run: seq<Hit>, after: seq<Hit>, c: nat)
    requires WellFormed(colStart, rowIndex, n)
    requires c >= 1 && after == before + run
    requires forall x :: multiset(before)[x] == if 1 <= x.col1 < c && Closed(colStart, rowIndex, n, x) then 1 else 0
    requires forall x :: multiset(run)[x] == if x.col1 == c && Closed(colStart, rowIndex, n, x) then 1 else 0
    ensures forall x :: multiset(after)[x] == if 1 <= x.col1 < c + 1 && Closed(colStart, rowIndex, n, x) then 1 else 0
  {
    assert multiset(after) == multiset(before) + multiset(run);
  }

  /** The hits of the outer iterations 1, ..., hi - 1. */
  lemma {:induction false} KernelMultiplicityUpTo(colStart: seq<nat>, rowIndex: seq<nat>, n: nat, hi: nat)
    requires UpperSimple(colStart, rowIndex, n)
    requires hi <= n
    ensures forall x :: (multiset(Concat(Table(colStart, rowIndex, n), Columns(1, hi)))[x]
      == if 1 <= x.col1 < hi && Closed(colStart, rowIndex, n, x) then 1 else 0)
  {
    var table := Table(colStart, rowIndex, n);
    if hi > 1 {
      KernelMultiplicityUpTo(colStart, rowIndex, n, hi - 1);
      var order := Columns(1, hi);
      assert order[..|order| - 1] == Columns(1, hi - 1);
      ColumnMultiplicity(colStart, rowIndex, n, hi - 1);
      KernelStep(colStart, rowIndex, n, Concat(table, Columns(1, hi - 1)), table[hi - 1], Concat(table, order), hi - 1);
    }
  }

  /** A stored row lies below its column. */
  lemma StoredBelow(colStart: seq<nat>, rowIndex: seq<nat>, n: nat, a: nat, b: nat)
    requires UpperSimple(colStart, rowIndex, n)
    requires Stored(colStart, rowIndex, n, a, b)
    ensures a < b
  {
    assert SimpleColumn(colStart, rowIndex, n, b);
    var column := Col(colStart, rowIndex, n, b);
    var j :| 0 <= j < |column| && column[j] == a;
  }

  /** A closed wedge with its corners in [1, n) is one of the triangles. */
  lemma ClosedIsTriangle(colStart: seq<nat>, rowIndex: seq<nat>, n: nat, x: Hit)
    requires UpperSimple(colStart, rowIndex, n)
    ensures (1 <= x.col1 < n && Closed(colStart, rowIndex, n, x)) <==> x in TriangleSet(colStart, rowIndex, n)
  {
    if 1 <= x.col1 < n && Closed(colStart, rowIndex, n, x) {
      StoredBelow(colStart, rowIndex, n, x.col2, x.col1);
      StoredBelow(colStart, rowIndex, n, x.row2, x.col2);
      assert x == Hit(x.col1, x.row2, x.col2);
    }
  }

  /** On the upper half of a simple graph the kernel's hits are the triangles, each once. */
  lemma KernelIsTriangleSet(colStart: seq<nat>, rowIndex: seq<nat>, n: nat)
    requires UpperSimple(colStart, rowIndex, n)
    ensures Unrepeated(KernelHits(colStart, rowIndex, n))
    ensures Members(KernelHits(colStart, rowIndex, n)) == TriangleSet(colStart, rowIndex, n)
  {
    var hits := KernelHits(colStart, rowIndex, n);
    KernelMultiplicityUpTo(colStart, rowIndex, n, n);
    forall x ensures x in Members(hits) <==> x in TriangleSet(colStart, rowIndex, n) {
      ClosedIsTriangle(colStart, rowIndex, n, x);
      assert x in hits <==> multiset(hits)[x] > 0;
    }
  }

  /**
   * On the upper half of a simple graph, sum is the number of triangles and
   * c3[v] the number of triangles through v.
   */
  lemma KernelCountsTriangles(colStart: seq<nat>, rowIndex: seq<nat>, n: nat)
    requires UpperSimple(colStart, rowIndex, n)
    ensures |KernelHits(colStart, rowIndex, n)| == |TriangleSet(colStart, rowIndex, n)|
    ensures forall v :: Incidence(KernelHits(colStart, rowIndex, n), v) == |TrianglesThrough(colStart, rowIndex, n, v)|
  {
    var hits := KernelHits(colStart, rowIndex, n);
    KernelIsTriangleSet(colStart, rowIndex, n);
    UnrepeatedMembers(hits);
    forall k | 0 <= k < |hits| ensures hits[k].row2 < hits[k].col2 < hits[k].col1 {
      assert hits[k] in Members(hits);
    }
    forall v ensures Incidence(hits, v) == |TrianglesThrough(colStart, rowIndex, n, v)| {
      UnrepeatedIncidence(hits, v);
      assert Touching(hits, v) == TrianglesThrough(colStart, rowIndex, n, v);
    }
  }

  /** triangle_v3.c on the upper half of a simple graph. */
  method CountTriangles(cscColumn: seq<nat>, cscRow: seq<nat>, n: nat) returns (sum: int, c3: array<int>)
    requires UpperSimple(cscColumn, cscRow, n)
    ensures c3.Length == n
    ensures sum == |TriangleSet(cscColumn, cscRow, n)|
    ensures forall v :: 0 <= v < n ==> c3[v] == |TrianglesThrough(cscColumn, cscRow, n, v)|
  {
    sum, c3 := WedgeCount(cscColumn, cscRow, n);
    KernelCountsTriangles(cscColumn, cscRow, n);
  }

  /** triangle_v3_openmp.c and triangle_v3_cilk.c on the upper half of a simple graph. */
  method CountTrianglesInOrder(cscColumn: seq<nat>, cscRow: seq<nat>, n: nat, order: seq<nat>)
    returns (sum: int, c3: array<int>)
    requires UpperSimple(cscColumn, cscRow, n)
    requires multiset(order) == multiset(Columns(1, n))
    ensures c3.Length == n
    ensures sum == |TriangleSet(cscColumn, cscRow, n)|
    ensures forall v :: 0 <= v < n ==> c3[v] == |TrianglesThrough(cscColumn, cscRow, n, v)|
  {
    sum, c3 := WedgeCountInOrder(cscColumn, cscRow, n, order);
    KernelCountsTriangles(cscColumn, cscRow, n);
  }
}
