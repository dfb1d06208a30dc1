/**
 * Phases 2 and 3 of the v4 programs. Phase 2 multiplies the matrix whose
 * stored values are c_values (with the sparsity pattern of the CSC input) by
 * the vector t; with t all ones, result_vector[v] is the sum of the values
 * stored in row v. Phase 3 halves every entry into c3 and divides the sum of
 * c3 by three, both with C's integer division, which truncates toward zero.
 */
module Reduction {
  import opened Csc
  import opened Hits

  // ---------------------------------------------------------------------
  // Phase 2: sparse matrix times vector
  // ---------------------------------------------------------------------

  /** The contribution to entry v of the first j slots of column i. */
  function ColumnDot(colStart: seq<nat>, rowIndex: seq<nat>, n: nat, cValues: seq<nat>, t: seq<int>, v: nat, i: nat, j: nat): int
    requires WellFormed(colStart, rowIndex, n)
    requires colStart[n] <= |cValues| && |t| == n
    requires i < n && j <= colStart[i + 1] - colStart[i]
  {
    if j == 0 then 0
    else
      var s := colStart[i] + j - 1;
      ColumnDot(colStart, rowIndex, n, cValues, t, v, i, j - 1) + (if rowIndex[s] == v then cValues[s] * t[i] else 0)
  }

  /** Entry v of the product restricted to the columns below i. */
  function RowDot(colStart: seq<nat>, rowIndex: seq<nat>, n: nat, cValues: seq<nat>, t: seq<int>, v: nat, i: nat): int
    requires WellFormed(colStart, rowIndex, n)
    requires colStart[n] <= |cValues| && |t| == n
    requires i <= n
  {
    if i == 0 then 0
    else RowDot(colStart, rowIndex, n, cValues, t, v, i - 1)
         + ColumnDot(colStart, rowIndex, n, cValues, t, v, i - 1, colStart[i] - colStart[i - 1])
  }

  /** The sum of the values stored at slots below m whose row is v. */
  function RowSum(rowIndex: seq<nat>, cValues: seq<nat>, v: nat, m: nat): nat
    requires m <= |rowIndex| && m <= |cValues|
  {
    if m == 0 then 0 else RowSum(rowIndex, cValues, v, m - 1) + (if rowIndex[m - 1] == v then cValues[m - 1] else 0)
  }

  /** The sum of the values stored at slots below m. */
  function ValueSum(cValues: seq<nat>, m: nat): nat
    requires m <= |cValues|
  {
    if m == 0 then 0 else ValueSum(cValues, m - 1) + cValues[m - 1]
  }

  /** The loop that fills t with ones. */
  method Ones(n: nat) returns (t: array<int>)
    ensures t.Length == n
    ensures forall i :: 0 <= i < n ==> t[i] == 1
  {
    t := new int[n];
    for i := 0 to n
      invariant forall k :: 0 <= k < i ==> t[k] == 1
    {
      t[i] := 1;
    }
  }

  /**
   * The multiplication loop, on a result_vector that starts at zero: every
   * stored slot s of column i adds c_values[s] * t[i] to the entry of its row.
   */
  method MultiplyVector(cscColumn: seq<nat>, cscRow: seq<nat>, n: nat, cValues: seq<nat>, t: seq<int>)
    returns (resultVector: array<int>)
    requires WellFormed(cscColumn, cscRow, n)
    requires cscColumn[n] <= |cValues| && |t| == n
    ensures resultVector.Length == n
    ensures forall v :: 0 <= v < n ==> resultVector[v] == RowDot(cscColumn, cscRow, n, cValues, t, v, n)
  {
    resultVector := new int[n];
    for v := 0 to n
      invariant forall u :: 0 <= u < v ==> resultVector[u] == 0
    {
      resultVector[v] := 0;
    }
    for i := 0 to n
      invariant forall v :: 0 <= v < n ==> resultVector[v] == RowDot(cscColumn, cscRow, n, cValues, t, v, i)
    {
      for j := 0 to cscColumn[i + 1] - cscColumn[i]
        invariant forall v :: 0 <= v < n ==>
          resultVector[v] == RowDot(cscColumn, cscRow, n, cValues, t, v, i) + ColumnDot(cscColumn, cscRow, n, cValues, t, v, i, j)
      {
        var row := cscRow[cscColumn[i] + j];
        var col := i;
        var value := cValues[cscColumn[i] + j];
        resultVector[row] := resultVector[row] + value * t[col];
      }
    }
  }

  /** With t all ones, the slots of the columns below i contribute the row sum of their offsets. */
  lemma {:induction false} RowDotOnes(colStart: seq<nat>, rowIndex: seq<nat>, n: nat, cValues: seq<nat>, t: seq<int>, v: nat, i: nat)
    requires WellFormed(colStart, rowIndex, n)
    requires colStart[n] <= |cValues| && |t| == n
    requires forall k :: 0 <= k < n ==> t[k] == 1
    requires i <= n
    ensures RowDot(colStart, rowIndex, n, cValues, t, v, i) == RowSum(rowIndex, cValues, v, colStart[i])
  {
    if i > 0 {
      RowDotOnes(colStart, rowIndex, n, cValues, t, v, i - 1);
      ColumnDotOnes(colStart, rowIndex, n, cValues, t, v, i - 1, colStart[i] - colStart[i - 1]);
    }
  }

  lemma {:induction false} ColumnDotOnes(colStart: seq<nat>, rowIndex: seq<nat>, n: nat, cValues: seq<nat>, t: seq<int>, v: nat, i: nat, j: nat)
    requires WellFormed(colStart, rowIndex, n)
    requires colStart[n] <= |cValues| && |t| == n
    requires forall k :: 0 <= k < n ==> t[k] == 1
    requires i < n && j <= colStart[i + 1] - colStart[i]
    ensures RowSum(rowIndex, cValues, v, colStart[i]) + ColumnDot(colStart, rowIndex, n, cValues, t, v, i, j)
         == RowSum(rowIndex, cValues, v, colStart[i] + j)
  {
    if j > 0 {
      ColumnDotOnes(colStart, rowIndex, n, cValues, t, v, i, j - 1);
    }
  }

  /** The sum over all rows v < k of the contribution of slot m. */
  lemma {:induction false} OneRowTakesSlot(rowIndex: seq<nat>, cValues: seq<nat>, m: nat, k: nat)
    requires m < |rowIndex| && m < |cValues|
    ensures RowsTotal(rowIndex, cValues, m + 1, k) == RowsTotal(rowIndex, cValues, m, k) + (if rowIndex[m] < k then cValues[m] else 0)
  {
    if k > 0 {
      OneRowTakesSlot(rowIndex, cValues, m, k - 1);
    }
  }

  /** The sum of RowSum(v, m) over the rows v < k. */
  function RowsTotal(rowIndex: seq<nat>, cValues: seq<nat>, m: nat, k: nat): nat
    requires m <= |rowIndex| && m <= |cValues|
  {
    if k == 0 then 0 else RowsTotal(rowIndex, cValues, m, k - 1) + RowSum(rowIndex, cValues, k - 1, m)
  }

  /** Summed over all rows, the row sums account for every stored value exactly once. */
  lemma {:induction false} RowsTotalIsValueSum(rowIndex: seq<nat>, cValues: seq<nat>, m: nat, n: nat)
    requires m <= |rowIndex| && m <= |cValues|
    requires forall s :: 0 <= s < m ==> rowIndex[s] < n
    ensures RowsTotal(rowIndex, cValues, m, n) == ValueSum(cValues, m)
  {
    if m == 0 {
      RowsTotalNone(rowIndex, cValues, n);
    } else {
      RowsTotalIsValueSum(rowIndex, cValues, m - 1, n);
      OneRowTakesSlot(rowIndex, cValues, m - 1, n);
    }
  }

  lemma {:induction false} RowsTotalNone(rowIndex: seq<nat>, cValues: seq<nat>, k: nat)
    ensures RowsTotal(rowIndex, cValues, 0, k) == 0
  {
    if k > 0 {
      RowsTotalNone(rowIndex, cValues, k - 1);
    }
  }

  /** The sum of a sequence whose entries are the row sums is the total of the stored values. */
  lemma {:induction false} TotalOfRowSums(rowIndex: seq<nat>, cValues: seq<nat>, m: nat, r: seq<int>)
    requires m <= |rowIndex| && m <= |cValues|
    requires forall v :: 0 <= v < |r| ==> r[v] == RowSum(rowIndex, cValues, v, m)
    ensures Total(r) == RowsTotal(rowIndex, cValues, m, |r|)
  {
    if r != [] {
      TotalOfRowSums(rowIndex, cValues, m, r[..|r| - 1]);
    }
  }

  /**
   * What the multiplication by the ones vector computes: entry v is the sum
   * of the values stored in row v, and the entries add up to the sum of all
   * stored values.
   */
  lemma ProductWithOnes(colStart: seq<nat>, rowIndex: seq<nat>, n: nat, cValues: seq<nat>, t: seq<int>, r: seq<int>)
    requires WellFormed(colStart, rowIndex, n)
    requires colStart[n] <= |cValues| && |t| == n
    requires forall k :: 0 <= k < n ==> t[k] == 1
    requires |r| == n && forall v :: 0 <= v < n ==> r[v] == RowDot(colStart, rowIndex, n, cValues, t, v, n)
    ensures forall v :: 0 <= v < n ==> r[v] == RowSum(rowIndex, cValues, v, colStart[n])
    ensures Total(r) == ValueSum(cValues, colStart[n])
  {
    forall v | 0 <= v < n ensures r[v] == RowSum(rowIndex, cValues, v, colStart[n]) {
      RowDotOnes(colStart, rowIndex, n, cValues, t, v, n);
    }
    TotalOfRowSums(rowIndex, cValues, colStart[n], r);
    RowsTotalIsValueSum(rowIndex, cValues, colStart[n], n);
  }

  // ---------------------------------------------------------------------
  // Phase 3: normalisation
  // ---------------------------------------------------------------------

  /** C's integer division by a positive divisor: the quotient truncated toward zero. */
  function TruncDiv(a: int, b: int): (q: int)
    requires b > 0
    ensures a >= 0 ==> 0 <= q && b * q <= a < b * q + b
    ensures a < 0 ==> q <= 0 && b * q - b < a <= b * q
  {
    if a >= 0 then
      assert a == b * (a / b) + a % b && 0 <= a % b < b;
      a / b
    else
      assert -a == b * ((-a) / b) + (-a) % b && 0 <= (-a) % b < b;
      -((-a) / b)
  }

  /**
   * The normalisation loop: c3[i] = result_vector[i] / 2 and triangle_sum
   * accumulates c3, then triangle_sum = triangle_sum / 3.
   */
  method Normalise(resultVector: seq<int>) returns (c3: array<int>, triangleSum: int)
    ensures c3.Length == |resultVector|
    ensures forall i :: 0 <= i < |resultVector| ==> c3[i] == TruncDiv(resultVector[i], 2)
    ensures triangleSum == TruncDiv(Total(c3[..]), 3)
  {
    c3 := new int[|resultVector|];
    var sum := 0;
    for i := 0 to |resultVector|
      invariant forall k :: 0 <= k < i ==> c3[k] == TruncDiv(resultVector[k], 2)
      invariant sum == Total(c3[..i])
    {
      c3[i] := TruncDiv(resultVector[i], 2);
      assert c3[..i + 1][..i] == c3[..i];
      sum := sum + c3[i];
    }
    assert c3[..|resultVector|] == c3[..];
    triangleSum := TruncDiv(sum, 3);
  }

  /**
   * The normalisation is exact on the inputs it is designed for: when every
   * entry of result_vector is even and the halves add up to a multiple of
   * three, c3 is exactly the halves and 3 * triangle_sum is their sum.
   */
  lemma NormaliseExact(resultVector: seq<int>, c3: seq<int>, triangleSum: int)
    requires |c3| == |resultVector|
    requires forall i :: 0 <= i < |resultVector| ==> c3[i] == TruncDiv(resultVector[i], 2)
    requires triangleSum == TruncDiv(Total(c3), 3)
    requires forall i :: 0 <= i < |resultVector| ==> resultVector[i] % 2 == 0
    requires Total(c3) % 3 == 0
    ensures forall i :: 0 <= i < |resultVector| ==> 2 * c3[i] == resultVector[i]
    ensures 3 * triangleSum == Total(c3)
  {
    forall i | 0 <= i < |resultVector| ensures 2 * c3[i] == resultVector[i] {
      assert resultVector[i] == 2 * (resultVector[i] / 2);
    }
    assert Total(c3) == 3 * (Total(c3) / 3);
  }
}
