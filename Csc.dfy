/**
 * The compressed sparse column (CSC) adjacency structure that the conversion
 * routine produces from the coordinate list. The conversion itself is not part
 * of this model: its output is taken as input, constrained by WellFormed.
 */
module Csc {

  /** colStart holds n + 1 non-decreasing offsets starting at 0. */
  predicate Offsets(colStart: seq<nat>, n: nat)
  {
    && |colStart| == n + 1
    && colStart[0] == 0
    && (forall a, b :: 0 <= a <= b <= n ==> colStart[a] <= colStart[b])
  }

  /**
   * The offsets end within rowIndex, and every row index inside them names
   * one of the n vertices.
   */
  predicate WellFormed(colStart: seq<nat>, rowIndex: seq<nat>, n: nat)
  {
    && Offsets(colStart, n)
    && colStart[n] <= |rowIndex|
    && (forall s :: 0 <= s < colStart[n] ==> rowIndex[s] < n)
  }

  /** The adjacency slice of column c: the rows stored between its two offsets. */
  function Col(colStart: seq<nat>, rowIndex: seq<nat>, n: nat, c: nat): (r: seq<nat>)
    requires WellFormed(colStart, rowIndex, n)
    requires c < n
    ensures |r| == colStart[c + 1] - colStart[c]
    ensures forall j :: 0 <= j < |r| ==> r[j] < n
  {
    rowIndex[colStart[c]..colStart[c + 1]]
  }

  /** No value occurs twice. */
  predicate Distinct(s: seq<nat>)
  {
    forall i, j :: 0 <= i < j < |s| ==> s[i] != s[j]
  }

  /** Strictly ascending order, the order the merge intersection relies on. */
  predicate StrictlyAscending(s: seq<nat>)
  {
    forall i, j :: 0 <= i < j < |s| ==> s[i] < s[j]
  }

  /** Every column's slice is strictly ascending. */
  predicate SortedColumns(colStart: seq<nat>, rowIndex: seq<nat>, n: nat)
  {
    && WellFormed(colStart, rowIndex, n)
    && forall c :: 0 <= c < n ==> StrictlyAscending(Col(colStart, rowIndex, n, c))
  }

  /** Column c holds distinct rows, all of them below c. */
  predicate SimpleColumn(colStart: seq<nat>, rowIndex: seq<nat>, n: nat, c: nat)
    requires WellFormed(colStart, rowIndex, n)
    requires c < n
  {
    && Distinct(Col(colStart, rowIndex, n, c))
    && forall j :: 0 <= j < |Col(colStart, rowIndex, n, c)| ==> Col(colStart, rowIndex, n, c)[j] < c
  }

  /** Strictly upper triangular and duplicate free: every column is simple. */
  predicate UpperSimple(colStart: seq<nat>, rowIndex: seq<nat>, n: nat)
  {
    && WellFormed(colStart, rowIndex, n)
    && forall c :: 0 <= c < n ==> SimpleColumn(colStart, rowIndex, n, c)
  }

  /** Every entry of a column order names one of the n vertices. */
  predicate Below(order: seq<nat>, n: nat)
  {
    forall k :: 0 <= k < |order| ==> order[k] < n
  }

  /** The vertex indices lo, lo + 1, ..., hi - 1 in ascending order. */
  function Columns(lo: nat, hi: nat): (r: seq<nat>)
    ensures |r| == if hi <= lo then 0 else hi - lo
    ensures forall k :: 0 <= k < |r| ==> r[k] == lo + k
  {
    if hi <= lo then [] else Columns(lo, hi - 1) + [hi - 1]
  }

  /** i occurs in Columns(lo, hi) exactly when lo <= i < hi. */
  lemma ColumnsMembers(lo: nat, hi: nat, i: nat)
    ensures i in Columns(lo, hi) <==> lo <= i < hi
  {
    if lo <= i < hi {
      assert Columns(lo, hi)[i - lo] == i;
    }
  }
}
