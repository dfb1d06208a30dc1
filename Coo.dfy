/**
 * Preparation of the coordinate (COO) edge list before it is converted to
 * CSC: the orientation heuristic that picks the argument order of the
 * conversion, and the mirroring of the v4 programs that appends every edge
 * once more with its endpoints swapped.
 */
module Coo {

  /** The arguments of the conversion call: row array, column array, entry count, dimension. */
  datatype ConversionCall = ConversionCall(flag: int, rows: seq<int>, cols: seq<int>, nnz: nat, dim: nat)

  /** The edges the conversion reads: the first nnz (row, column) pairs of its arguments. */
  function Edges(call: ConversionCall): (e: seq<(int, int)>)
    requires call.nnz <= |call.rows| && call.nnz <= |call.cols|
    ensures |e| == call.nnz
    ensures forall k :: 0 <= k < call.nnz ==> e[k] == (call.rows[k], call.cols[k])
  {
    seq(call.nnz, k requires 0 <= k < call.nnz => (call.rows[k], call.cols[k]))
  }

  /**
   * The orientation heuristic: flag is 1 exactly when the first entry lies
   * below the diagonal, and then the row and column arrays trade places.
   * The dimension differs between the two calls as well: flag 0 passes M,
   * flag 1 passes N. The first entry is read unconditionally, so the edge
   * list must not be empty.
   */
  function Orient(I: seq<int>, J: seq<int>, nz: nat, M: nat, N: nat): (call: ConversionCall)
    requires 0 < nz <= |I| && nz <= |J|
    ensures call.flag == 0 || call.flag == 1
    ensures call.flag == 1 <==> I[0] > J[0]
    ensures call.nnz == nz
    ensures call.flag == 0 ==> call.rows == I && call.cols == J && call.dim == M
    ensures call.flag == 1 ==> call.rows == J && call.cols == I && call.dim == N
  {
    var flag := if I[0] > J[0] then 1 else 0;
    if flag == 0 then ConversionCall(flag, I, J, nz, M)
    else ConversionCall(flag, J, I, nz, N)
  }

  /** Every edge lies strictly on one side of the diagonal, the same side for all. */
  predicate OneTriangle(I: seq<int>, J: seq<int>, nz: nat)
    requires nz <= |I| && nz <= |J|
  {
    || (forall k :: 0 <= k < nz ==> I[k] < J[k])
    || (forall k :: 0 <= k < nz ==> I[k] > J[k])
  }

  /**
   * What the heuristic is for: an edge list stored in one triangular half,
   * with no diagonal entries, reaches the conversion as an upper triangular
   * matrix (every row below its column).
   */
  lemma OrientationMakesUpper(I: seq<int>, J: seq<int>, nz: nat, M: nat, N: nat)
    requires 0 < nz <= |I| && nz <= |J|
    requires OneTriangle(I, J, nz)
    ensures forall k :: 0 <= k < nz ==> Orient(I, J, nz, M, N).rows[k] < Orient(I, J, nz, M, N).cols[k]
  {
    var call := Orient(I, J, nz, M, N);
    if forall k :: 0 <= k < nz ==> I[k] < J[k] {
      assert call.flag == 0;
    } else {
      assert I[0] > J[0];
      assert call.flag == 1;
    }
  }

  /** Whatever the flag, each edge keeps its two endpoints; only their roles may swap. */
  lemma OrientationKeepsEndpoints(I: seq<int>, J: seq<int>, nz: nat, M: nat, N: nat)
    requires 0 < nz <= |I| && nz <= |J|
    ensures forall k :: 0 <= k < nz ==>
      multiset{Orient(I, J, nz, M, N).rows[k], Orient(I, J, nz, M, N).cols[k]} == multiset{I[k], J[k]}
  {
  }

  /**
   * The decision rests on the first entry alone: a list whose first entry
   * sits on the diagonal keeps its orientation and the dimension M, so every
   * entry below the diagonal reaches the conversion still below it.
   */
  lemma DiagonalHeadKeepsOrientation(I: seq<int>, J: seq<int>, nz: nat, M: nat, N: nat)
    requires 0 < nz <= |I| && nz <= |J|
    requires I[0] == J[0]
    ensures Orient(I, J, nz, M, N).flag == 0 && Orient(I, J, nz, M, N).dim == M
    ensures forall k :: 0 <= k < nz && I[k] > J[k] ==>
      Orient(I, J, nz, M, N).rows[k] > Orient(I, J, nz, M, N).cols[k]
  {
  }

  /**
   * The mirroring loop of the v4 programs: entry nz + i receives entry i with
   * row and column swapped; the first nz entries are not touched.
   */
  method Mirror(I: array<int>, J: array<int>, nz: nat)
    requires I != J
    requires I.Length == 2 * nz && J.Length == 2 * nz
    modifies I, J
    ensures I[..] == old(I[..nz]) + old(J[..nz])
    ensures J[..] == old(J[..nz]) + old(I[..nz])
  {
    for i := 0 to nz
      invariant forall k :: 0 <= k < nz ==> I[k] == old(I[k]) && J[k] == old(J[k])
      invariant forall k :: 0 <= k < i ==> I[nz + k] == old(J[k]) && J[nz + k] == old(I[k])
    {
      I[nz + i] := J[i];
      J[nz + i] := I[i];
    }
    assert I[..] == old(I[..nz]) + old(J[..nz]);
  }

  /** The entry that mirroring pairs with entry k of the doubled list. */
  function Partner(k: nat, nz: nat): nat
  {
    if k < nz then k + nz else k - nz
  }

  /** After mirroring, the transpose of every entry is in the doubled list. */
  lemma MirrorIsSymmetric(I: seq<int>, J: seq<int>, nz: nat)
    requires nz <= |I| && nz <= |J|
    ensures forall k :: 0 <= k < 2 * nz ==>
      && Partner(k, nz) < 2 * nz
      && (I[..nz] + J[..nz])[Partner(k, nz)] == (J[..nz] + I[..nz])[k]
      && (J[..nz] + I[..nz])[Partner(k, nz)] == (I[..nz] + J[..nz])[k]
  {
  }

  /**
   * The v4 programs mirror into the doubled arrays but pass nz, not 2 * nz,
   * to the conversion: it reads the same flag and the same edges as it would
   * without the mirroring, so the mirrored half never reaches the CSC.
   */
  lemma MirrorInvisibleToConversion(I: seq<int>, J: seq<int>, nz: nat, M: nat, N: nat)
    requires 0 < nz <= |I| && nz <= |J|
    ensures Orient(I[..nz] + J[..nz], J[..nz] + I[..nz], nz, M, N).flag == Orient(I, J, nz, M, N).flag
    ensures Edges(Orient(I[..nz] + J[..nz], J[..nz] + I[..nz], nz, M, N)) == Edges(Orient(I, J, nz, M, N))
  {
    var mirrored := Orient(I[..nz] + J[..nz], J[..nz] + I[..nz], nz, M, N);
    var plain := Orient(I, J, nz, M, N);
    assert (I[..nz] + J[..nz])[0] == I[0] && (J[..nz] + I[..nz])[0] == J[0];
    assert Edges(mirrored) == Edges(plain);
  }
}
