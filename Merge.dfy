/**
 * The two-pointer merge at the heart of the common-neighbour counter
 * (triangle_v4_openmp.c and the pthreads worker in triangle_v4_pthreads.c):
 * indice_k and indice_l are copies of two column slices, and value counts
 * the positions where the pointers meet equal entries.
 */
module Merge {
  import opened Csc

  /**
   * What the merge loop counts on k and l: on equal heads it counts one and
   * advances both, otherwise it advances past the smaller head.
   */
  function Common(k: seq<nat>, l: seq<nat>): (r: nat)
    ensures r <= |k| && r <= |l|
    decreases |k| + |l|
  {
    if k == [] || l == [] then 0
    else if k[0] == l[0] then 1 + Common(k[1..], l[1..])
    else if k[0] > l[0] then Common(k, l[1..])
    else Common(k[1..], l)
  }

  /** The set of values in a sequence. */
  function Elems(s: seq<nat>): set<nat>
  {
    set x | x in s
  }

  lemma ElemsCons(s: seq<nat>)
    requires s != []
    ensures Elems(s) == {s[0]} + Elems(s[1..])
  {
    assert s == [s[0]] + s[1..];
  }

  /** A value below the head of an ascending sequence does not occur in it. */
  lemma BelowHeadAbsent(s: seq<nat>, x: nat)
    requires StrictlyAscending(s) && s != [] && x < s[0]
    ensures x !in Elems(s)
  {
    forall i | 0 <= i < |s| ensures s[i] != x {
      if i > 0 {
        assert s[0] < s[i];
      }
    }
  }

  /** Equal heads: the head is common, and it is not among the common values of the tails. */
  lemma IntersectionEqualHeads(k: seq<nat>, l: seq<nat>)
    requires StrictlyAscending(k) && StrictlyAscending(l)
    requires k != [] && l != [] && k[0] == l[0]
    ensures |Elems(k) * Elems(l)| == 1 + |Elems(k[1..]) * Elems(l[1..])|
  {
    ElemsCons(k);
    ElemsCons(l);
    if k[1..] != [] {
      BelowHeadAbsent(k[1..], k[0]);
    }
    SharedHead(k[0], Elems(k[1..]), Elems(l[1..]));
  }

  /** A shared new element adds one to the size of an intersection. */
  lemma SharedHead(x: nat, a: set<nat>, b: set<nat>)
    requires x !in a
    ensures |({x} + a) * ({x} + b)| == 1 + |a * b|
  {
    assert ({x} + a) * ({x} + b) == {x} + a * b;
  }

  /** A head smaller than every value of the other slice is in no intersection. */
  lemma IntersectionDropHead(k: seq<nat>, l: seq<nat>)
    requires StrictlyAscending(k) && l != [] && k != [] && l[0] < k[0]
    ensures Elems(k) * Elems(l) == Elems(k) * Elems(l[1..])
  {
    ElemsCons(l);
    BelowHeadAbsent(k, l[0]);
  }

  /**
   * On strictly ascending inputs the merge counts exactly the values the two
   * slices have in common.
   */
  lemma {:induction false} CommonIsIntersection(k: seq<nat>, l: seq<nat>)
    requires StrictlyAscending(k) && StrictlyAscending(l)
    ensures Common(k, l) == |Elems(k) * Elems(l)|
    decreases |k| + |l|
  {
    if k == [] || l == [] {
      assert Elems(k) * Elems(l) == {};
    } else {
      assert StrictlyAscending(k[1..]) && StrictlyAscending(l[1..]);
      if k[0] == l[0] {
        CommonIsIntersection(k[1..], l[1..]);
        IntersectionEqualHeads(k, l);
      } else if k[0] > l[0] {
        CommonIsIntersection(k, l[1..]);
        IntersectionDropHead(k, l);
      } else {
        CommonIsIntersection(k[1..], l);
        IntersectionDropHead(l, k);
        assert Elems(k) * Elems(l) == Elems(l) * Elems(k);
        assert Elems(k[1..]) * Elems(l) == Elems(l) * Elems(k[1..]);
      }
    }
  }

  /**
   * The copy loops that fill indice_k and indice_l: a fresh array holding the
   * slice of column c.
   */
  method CopyColumn(cscColumn: seq<nat>, cscRow: seq<nat>, n: nat, c: nat) returns (indices: array<nat>)
    requires WellFormed(cscColumn, cscRow, n)
    requires c < n
    ensures fresh(indices)
    ensures indices[..] == Col(cscColumn, cscRow, n, c)
  {
    ghost var column := Col(cscColumn, cscRow, n, c);
    var size := cscColumn[c + 1] - cscColumn[c];
    indices := new nat[size];
    for x := 0 to size
      invariant forall y :: 0 <= y < x ==> indices[y] == column[y]
    {
      indices[x] := cscRow[cscColumn[c] + x];
    }
  }

  /**
   * The merge loop itself. It ends with both pointers within bounds, and
   * value is what Common specifies: at most the size of either input, and
   * the size of their intersection when both inputs are strictly ascending.
   */
  method MergeCount(indiceK: array<nat>, indiceL: array<nat>) returns (value: nat)
    ensures value == Common(indiceK[..], indiceL[..])
    ensures value <= indiceK.Length && value <= indiceL.Length
    ensures StrictlyAscending(indiceK[..]) && StrictlyAscending(indiceL[..]) ==>
              value == |Elems(indiceK[..]) * Elems(indiceL[..])|
  {
    ghost var k, l := indiceK[..], indiceL[..];
    var kSize, lSize := indiceK.Length, indiceL.Length;
    var kPointer, lPointer := 0, 0;
    value := 0;
    while kPointer != kSize && lPointer != lSize
      invariant 0 <= kPointer <= kSize && 0 <= lPointer <= lSize
      invariant value + Common(k[kPointer..], l[lPointer..]) == Common(k, l)
      decreases kSize - kPointer + lSize - lPointer
    {
      assert k[kPointer..][1..] == k[kPointer + 1..];
      assert l[lPointer..][1..] == l[lPointer + 1..];
      if indiceK[kPointer] == indiceL[lPointer] {
        value := value + 1;
        kPointer := kPointer + 1;
        lPointer := lPointer + 1;
      } else if indiceK[kPointer] > indiceL[lPointer] {
        lPointer := lPointer + 1;
      } else {
        kPointer := kPointer + 1;
      }
    }
    assert k[kPointer..] == [] || l[lPointer..] == [];
    if StrictlyAscending(k) && StrictlyAscending(l) {
      CommonIsIntersection(k, l);
    }
  }
}
