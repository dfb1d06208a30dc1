/**
 * The events of the wedge-closing kernel and what they do to its counters.
 * A hit is one successful membership test: it adds one to sum and one to
 * each of c3[col1], c3[row2], c3[col2]. The kernel's parallel outer loop
 * produces one run of hits per column; Concat strings those runs together
 * in the order the columns are visited.
 */
module Hits {
  import opened Csc

  /** One match of a membership scan: the three c3 slots it increments. */
  datatype Hit = Hit(col1: nat, row2: nat, col2: nat)

  /** How many of the three increments of hit h land on c3[v]. */
  function Touch(h: Hit, v: nat): nat
  {
    (if h.col1 == v then 1 else 0) + (if h.row2 == v then 1 else 0) + (if h.col2 == v then 1 else 0)
  }

  /** The total a sequence of hits adds to c3[v]. */
  function Incidence(hits: seq<Hit>, v: nat): nat
  {
    if hits == [] then 0 else Incidence(hits[..|hits| - 1], v) + Touch(hits[|hits| - 1], v)
  }

  /** Every hit names slots of a c3 array of length n. */
  predicate HitsBelow(hits: seq<Hit>, n: nat)
  {
    forall k :: 0 <= k < |hits| ==> hits[k].col1 < n && hits[k].row2 < n && hits[k].col2 < n
  }

  /** The sum of an integer sequence. */
  function Total(s: seq<int>): int
  {
    if s == [] then 0 else Total(s[..|s| - 1]) + s[|s| - 1]
  }

  // ---------------------------------------------------------------------
  // Incidence
  // ---------------------------------------------------------------------

  lemma IncidenceSnoc(hits: seq<Hit>, h: Hit, v: nat)
    ensures Incidence(hits + [h], v) == Incidence(hits, v) + Touch(h, v)
  {
    assert (hits + [h])[..|hits|] == hits;
  }

  /** Incidence is additive over concatenation. */
  lemma {:induction false} IncidenceAppend(a: seq<Hit>, b: seq<Hit>, v: nat)
    ensures Incidence(a + b, v) == Incidence(a, v) + Incidence(b, v)
  {
    if b == [] {
      assert a + b == a;
    } else {
      var b' := b[..|b| - 1];
      assert (a + b)[..|a + b| - 1] == a + b';
      IncidenceAppend(a, b', v);
    }
  }

  /** Taking the hit at position i out of a sequence takes its touches out of every counter. */
  lemma IncidenceRemove(b: seq<Hit>, i: nat, v: nat)
    requires i < |b|
    ensures Incidence(b, v) == Incidence(b[..i] + b[i + 1..], v) + Touch(b[i], v)
  {
    assert b == b[..i] + [b[i]] + b[i + 1..];
    IncidenceAppend(b[..i] + [b[i]], b[i + 1..], v);
    IncidenceAppend(b[..i], b[i + 1..], v);
    IncidenceSnoc(b[..i], b[i], v);
  }

  /** Incidence depends only on which hits occur and how often, not on their order. */
  lemma {:induction false} IncidencePermutation(a: seq<Hit>, b: seq<Hit>, v: nat)
    requires multiset(a) == multiset(b)
    ensures Incidence(a, v) == Incidence(b, v)
  {
    if a == [] {
      assert |b| == |multiset(b)| == 0;
    } else {
      var h := a[|a| - 1];
      assert h in multiset(a);
      var i :| 0 <= i < |b| && b[i] == h;
      RemoveMatching(a, b, i);
      IncidencePermutation(a[..|a| - 1], b[..i] + b[i + 1..], v);
      IncidenceRemove(b, i, v);
      IncidenceSnoc(a[..|a| - 1], h, v);
      assert a == a[..|a| - 1] + [h];
    }
  }

  lemma HitsBelowAppend(a: seq<Hit>, b: seq<Hit>, n: nat)
    requires HitsBelow(a, n) && HitsBelow(b, n)
    ensures HitsBelow(a + b, n)
  {
    forall k | 0 <= k < |a + b|
      ensures (a + b)[k].col1 < n && (a + b)[k].row2 < n && (a + b)[k].col2 < n
    {
      if k >= |a| {
        assert (a + b)[k] == b[k - |a|];
      }
    }
  }

  // ---------------------------------------------------------------------
  // Summed over all vertices, c3 is three times sum
  // ---------------------------------------------------------------------

  /** The sum of Incidence(hits, v) over v in [0, m). */
  function VertexTotal(hits: seq<Hit>, m: nat): nat
  {
    if m == 0 then 0 else VertexTotal(hits, m - 1) + Incidence(hits, m - 1)
  }

  /** Each hit adds three increments in total to c3[0..m), counting only slots below m. */
  lemma {:induction false} TouchTotal(h: Hit, m: nat)
    ensures VertexTotal([h], m) == (if h.col1 < m then 1 else 0) + (if h.row2 < m then 1 else 0) + (if h.col2 < m then 1 else 0)
  {
    if m > 0 {
      TouchTotal(h, m - 1);
      IncidenceSnoc([], h, m - 1);
      assert [] + [h] == [h];
    }
  }

  lemma {:induction false} VertexTotalNone(m: nat)
    ensures VertexTotal([], m) == 0
  {
    if m > 0 {
      VertexTotalNone(m - 1);
    }
  }

  lemma {:induction false} VertexTotalAppend(a: seq<Hit>, b: seq<Hit>, m: nat)
    ensures VertexTotal(a + b, m) == VertexTotal(a, m) + VertexTotal(b, m)
  {
    if m > 0 {
      VertexTotalAppend(a, b, m - 1);
      IncidenceAppend(a, b, m - 1);
    }
  }

  /** Every hit adds 1 to sum and 3 to the sum of c3. */
  lemma {:induction false} VertexTotalIsThreeHits(hits: seq<Hit>, n: nat)
    requires HitsBelow(hits, n)
    ensures VertexTotal(hits, n) == 3 * |hits|
  {
    if hits == [] {
      VertexTotalNone(n);
    } else {
      var p := hits[..|hits| - 1];
      var h := hits[|hits| - 1];
      assert hits == p + [h];
      assert h.col1 < n && h.row2 < n && h.col2 < n;
      assert HitsBelow(p, n);
      VertexTotalIsThreeHits(p, n);
      VertexTotalAppend(p, [h], n);
      TouchTotal(h, n);
      assert VertexTotal([h], n) == 3;
      assert VertexTotal(p + [h], n) == 3 * |p| + 3;
    }
  }

  /** The sum of an array that holds Incidence(hits, v) at every v. */
  lemma {:induction false} TotalIsVertexTotal(c3: seq<int>, hits: seq<Hit>, m: nat)
    requires m <= |c3|
    requires forall v :: 0 <= v < m ==> c3[v] == Incidence(hits, v)
    ensures Total(c3[..m]) == VertexTotal(hits, m)
  {
    if m > 0 {
      assert c3[..m][..m - 1] == c3[..m - 1];
      TotalIsVertexTotal(c3, hits, m - 1);
    }
  }

  /** The invariant the kernel's increments keep: Total(c3) == 3 * sum. */
  lemma TotalIsThreeHits(c3: seq<int>, hits: seq<Hit>)
    requires HitsBelow(hits, |c3|)
    requires forall v :: 0 <= v < |c3| ==> c3[v] == Incidence(hits, v)
    ensures Total(c3) == 3 * |hits|
  {
    TotalIsVertexTotal(c3, hits, |c3|);
    assert c3[..|c3|] == c3;
    VertexTotalIsThreeHits(hits, |c3|);
  }

  // ---------------------------------------------------------------------
  // The per-vertex counters as a value
  // ---------------------------------------------------------------------

  /** c3 after the three increments of one hit (slots outside c3 are not part of the model). */
  function Bump(c3: seq<int>, h: Hit): (r: seq<int>)
    ensures |r| == |c3|
  {
    var a := if h.col1 < |c3| then c3[h.col1 := c3[h.col1] + 1] else c3;
    var b := if h.row2 < |a| then a[h.row2 := a[h.row2] + 1] else a;
    if h.col2 < |b| then b[h.col2 := b[h.col2] + 1] else b
  }

  /** c3 after the increments of a sequence of hits, in order. */
  function Tally(c3: seq<int>, hits: seq<Hit>): (r: seq<int>)
    ensures |r| == |c3|
  {
    if hits == [] then c3 else Bump(Tally(c3, hits[..|hits| - 1]), hits[|hits| - 1])
  }

  /** One more hit at the end is one more Bump. */
  lemma TallySnoc(c3: seq<int>, hits: seq<Hit>, h: Hit)
    ensures Tally(c3, hits + [h]) == Bump(Tally(c3, hits), h)
  {
    assert (hits + [h])[..|hits|] == hits;
  }

  /** Tallying two runs of hits one after the other is tallying them together. */
  lemma {:induction false} TallyAppend(c3: seq<int>, a: seq<Hit>, b: seq<Hit>)
    ensures Tally(Tally(c3, a), b) == Tally(c3, a + b)
  {
    if b == [] {
      assert a + b == a;
    } else {
      var b' := b[..|b| - 1];
      assert (a + b)[..|a + b| - 1] == a + b';
      assert (a + b)[|a + b| - 1] == b[|b| - 1];
      TallyAppend(c3, a, b');
    }
  }

  /** The tally adds Incidence(hits, v) to every slot v. */
  lemma {:induction false} TallyIsIncidence(c3: seq<int>, hits: seq<Hit>)
    requires HitsBelow(hits, |c3|)
    ensures forall v :: 0 <= v < |c3| ==> Tally(c3, hits)[v] == c3[v] + Incidence(hits, v)
  {
    if hits != [] {
      var p := hits[..|hits| - 1];
      assert HitsBelow(p, |c3|);
      TallyIsIncidence(c3, p);
    }
  }

  /** All zeros, the counters' initial state. */
  function Zeros(n: nat): (r: seq<int>)
    ensures |r| == n && forall v :: 0 <= v < n ==> r[v] == 0
  {
    seq(n, v => 0)
  }

  /** Counters started at zero end with the Incidence of the hits, and sum to three per hit. */
  lemma TallyFromZero(hits: seq<Hit>, n: nat)
    requires HitsBelow(hits, n)
    ensures forall v :: 0 <= v < n ==> Tally(Zeros(n), hits)[v] == Incidence(hits, v)
    ensures Total(Tally(Zeros(n), hits)) == 3 * |hits|
  {
    TallyIsIncidence(Zeros(n), hits);
    TotalIsThreeHits(Tally(Zeros(n), hits), hits);
  }

  // ---------------------------------------------------------------------
  // Per-column runs of hits, visited in some order
  // ---------------------------------------------------------------------

  /** The runs table[order[0]], table[order[1]], ... one after the other. */
  function Concat(table: seq<seq<Hit>>, order: seq<nat>): seq<Hit>
    requires Below(order, |table|)
  {
    if order == [] then []
    else Concat(table, order[..|order| - 1]) + table[order[|order| - 1]]
  }

  lemma {:induction false} ConcatAppend(table: seq<seq<Hit>>, a: seq<nat>, b: seq<nat>)
    requires Below(a, |table|) && Below(b, |table|)
    ensures Below(a + b, |table|)
    ensures Concat(table, a + b) == Concat(table, a) + Concat(table, b)
  {
    if b == [] {
      assert a + b == a;
    } else {
      var b' := b[..|b| - 1];
      DropLast(a, b);
      ConcatAppend(table, a, b');
    }
  }

  lemma BelowSlices(t: seq<nat>, i: nat, m: nat)
    requires Below(t, m) && i < |t|
    ensures Below(t[..i], m) && Below(t[i + 1..], m) && Below(t[..i] + t[i + 1..], m)
  {
    var r := t[..i] + t[i + 1..];
    forall k | 0 <= k < |r| ensures r[k] < m {
      if k >= i {
        assert r[k] == t[k + 1];
      }
    }
  }

  /** The run of order t splits around the run of its entry t[i]. */
  lemma ConcatSplit(table: seq<seq<Hit>>, t: seq<nat>, i: nat)
    requires Below(t, |table|) && i < |t|
    ensures Below(t[..i], |table|) && Below(t[i + 1..], |table|)
    ensures Concat(table, t) == Concat(table, t[..i]) + table[t[i]] + Concat(table, t[i + 1..])
  {
    BelowSlices(t, i, |table|);
    var a, b, x := t[..i], t[i + 1..], t[i];
    SplitAround(t, i);
    assert Concat(table, [x]) == table[x] by {
      assert [x][..0] == [];
    }
    ConcatAppend(table, a, [x]);
    ConcatAppend(table, a + [x], b);
  }

  lemma DropLast<T>(a: seq<T>, b: seq<T>)
    requires b != []
    ensures (a + b)[..|a + b| - 1] == a + b[..|b| - 1]
    ensures (a + b)[|a + b| - 1] == b[|b| - 1]
  {
  }

  lemma TakeStep<T>(s: seq<T>, l: nat)
    requires 0 < l <= |s|
    ensures s[..l] == s[..l - 1] + [s[l - 1]]
  {
  }

  lemma SplitAround<T>(t: seq<T>, i: nat)
    requires i < |t|
    ensures t == t[..i] + [t[i]] + t[i + 1..]
  {
  }

  /** Taking entry t[i] out of an order takes exactly its run out of the multiset. */
  lemma ConcatRemove(table: seq<seq<Hit>>, t: seq<nat>, i: nat)
    requires Below(t, |table|)
    requires i < |t|
    ensures Below(t[..i] + t[i + 1..], |table|)
    ensures multiset(Concat(table, t))
         == multiset(Concat(table, t[..i] + t[i + 1..])) + multiset(table[t[i]])
  {
    BelowSlices(t, i, |table|);
    ConcatSplit(table, t, i);
    ConcatAppend(table, t[..i], t[i + 1..]);
    var ca, cx, cb := Concat(table, t[..i]), table[t[i]], Concat(table, t[i + 1..]);
    assert multiset(ca + cx + cb) == multiset(ca + cb) + multiset(cx);
  }

  /** A permutation of an order of entries below m is one too. */
  lemma BelowPermutation(s: seq<nat>, t: seq<nat>, m: nat)
    requires Below(s, m)
    requires multiset(s) == multiset(t)
    ensures Below(t, m)
  {
    forall k | 0 <= k < |t| ensures t[k] < m {
      assert t[k] in multiset(s);
    }
  }

  /** Removing the last entry of s and any occurrence of it in a permutation t leaves permutations. */
  lemma RemoveMatching<T>(s: seq<T>, t: seq<T>, i: nat)
    requires multiset(s) == multiset(t)
    requires s != [] && i < |t| && t[i] == s[|s| - 1]
    ensures multiset(t[..i] + t[i + 1..]) == multiset(s[..|s| - 1])
  {
    var x := t[i];
    assert s == s[..|s| - 1] + [x];
    assert t == t[..i] + [x] + t[i + 1..];
    assert multiset(t) == multiset(t[..i]) + multiset{x} + multiset(t[i + 1..]);
    assert multiset(t[..i] + t[i + 1..]) == multiset(t[..i]) + multiset(t[i + 1..]);
    assert multiset(t[..i] + t[i + 1..]) == multiset(t) - multiset{x};
    assert multiset(s[..|s| - 1]) == multiset(s) - multiset{x};
  }

  /** Visiting the entries in any order yields the same hits, up to order. */
  lemma {:induction false} ConcatPermutation(table: seq<seq<Hit>>, s: seq<nat>, t: seq<nat>)
    requires Below(s, |table|)
    requires multiset(s) == multiset(t)
    ensures Below(t, |table|)
    ensures multiset(Concat(table, s)) == multiset(Concat(table, t))
  {
    BelowPermutation(s, t, |table|);
    if s != [] {
      var s' := s[..|s| - 1];
      var x := s[|s| - 1];
      assert x in multiset(s);
      var i :| 0 <= i < |t| && t[i] == x;
      RemoveMatching(s, t, i);
      ConcatRemove(table, t, i);
      assert Below(s', |table|);
      ConcatPermutation(table, s', t[..i] + t[i + 1..]);
    }
  }

  /** The counters and the hit count of two visiting orders agree. */
  lemma ConcatOrderIrrelevant(table: seq<seq<Hit>>, s: seq<nat>, t: seq<nat>)
    requires Below(s, |table|)
    requires multiset(s) == multiset(t)
    ensures Below(t, |table|)
    ensures |Concat(table, t)| == |Concat(table, s)|
    ensures forall v :: Incidence(Concat(table, t), v) == Incidence(Concat(table, s), v)
  {
    ConcatPermutation(table, s, t);
    var a, b := Concat(table, s), Concat(table, t);
    assert |a| == |multiset(a)| == |multiset(b)| == |b|;
    forall v ensures Incidence(b, v) == Incidence(a, v) {
      IncidencePermutation(b, a, v);
    }
  }

  /** If every run names slots below n, so does any concatenation of them. */
  lemma {:induction false} ConcatBelow(table: seq<seq<Hit>>, order: seq<nat>, n: nat)
    requires Below(order, |table|)
    requires forall c :: 0 <= c < |table| ==> HitsBelow(table[c], n)
    ensures HitsBelow(Concat(table, order), n)
  {
    if order != [] {
      ConcatBelow(table, order[..|order| - 1], n);
      HitsBelowAppend(Concat(table, order[..|order| - 1]), table[order[|order| - 1]], n);
    }
  }
}
