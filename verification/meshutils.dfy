/**
  The half-edge mesh records and the primitives on them (MeshUtils.swift).

  Records live in arenas: a vertex, face or half-edge is a handle, an index
  into the arena, and each field of the record kind is one column of the
  arena indexed by that handle. A pointer field holds a handle or NIL.
  Handle 0 of each arena is the sentinel head of its global list; half-edges
  come in pairs 2k, 2k + 1 (one `EdgePair`), so the pair mate `Sym` of a
  half-edge is derived from its handle rather than stored.
*/
module MeshUtils {
  import opened Cycles
  import opened Labels

  datatype Mesh = Mesh(
    // vertex arena: global list links, `anEdge`, projected coordinates
    vNext: seq<int>, vPrev: seq<int>, vEdge: seq<int>, vS: seq<real>, vT: seq<real>,
    // face arena: global list links, `anEdge`, `inside`, `marked`
    fNext: seq<int>, fPrev: seq<int>, fEdge: seq<int>, fInside: seq<bool>, fMarked: seq<bool>,
    // half-edge arena: global list link, topology, `winding`
    eNext: seq<int>, onext: seq<int>, lnext: seq<int>, org: seq<int>, lface: seq<int>,
    winding: seq<int>)

  /** The columns of each arena have one entry per record, and half-edges
      come in whole pairs. */
  predicate Shaped(m: Mesh) {
    && |m.vPrev| == |m.vNext| && |m.vEdge| == |m.vNext| && |m.vS| == |m.vNext| && |m.vT| == |m.vNext|
    && |m.fPrev| == |m.fNext| && |m.fEdge| == |m.fNext| && |m.fInside| == |m.fNext|
    && |m.fMarked| == |m.fNext|
    && |m.onext| == |m.eNext| && |m.lnext| == |m.eNext| && |m.org| == |m.eNext|
    && |m.lface| == |m.eNext| && |m.winding| == |m.eNext| && |m.eNext| % 2 == 0
  }

  /** The other half of e's pair. */
  function Sym(e: int): int {
    if e % 2 == 0 then e + 1 else e - 1
  }

  /** The first half of e's pair (`ensureFirst`). */
  function First(e: int): int {
    e - e % 2
  }

  lemma SymFacts(e: int)
    requires 0 <= e
    ensures Sym(e) != e && Sym(Sym(e)) == e && 0 <= Sym(e)
    ensures First(e) % 2 == 0 && (First(e) == e || First(e) == Sym(e))
    ensures First(Sym(e)) == First(e) && Sym(First(e)) == First(e) + 1
  {
  }

  // ---------------------------------------------------------------------------
  // Derived navigation: none of these is stored.

  function Dst(m: Mesh, e: int): int
    requires Shaped(m) && 0 <= e < |m.org|
  {
    m.org[Sym(e)]
  }

  function Rface(m: Mesh, e: int): int
    requires Shaped(m) && 0 <= e < |m.lface|
  {
    m.lface[Sym(e)]
  }

  function Oprev(m: Mesh, e: int): int
    requires Shaped(m) && 0 <= e < |m.lnext|
  {
    m.lnext[Sym(e)]
  }

  function Lprev(m: Mesh, e: int): int
    requires Shaped(m) && 0 <= e < |m.onext| && 0 <= m.onext[e]
  {
    Sym(m.onext[e])
  }

  function Dprev(m: Mesh, e: int): int
    requires Shaped(m) && 0 <= e < |m.lnext| && 0 <= m.lnext[e]
  {
    Sym(m.lnext[e])
  }

  function Rprev(m: Mesh, e: int): int
    requires Shaped(m) && 0 <= e < |m.onext|
  {
    m.onext[Sym(e)]
  }

  function Dnext(m: Mesh, e: int): int
    requires Shaped(m) && 0 <= e < |m.onext| && 0 <= Rprev(m, e)
  {
    Sym(Rprev(m, e))
  }

  function Rnext(m: Mesh, e: int): int
    requires Shaped(m) && 0 <= e < |m.lnext| && 0 <= Oprev(m, e)
  {
    Sym(Oprev(m, e))
  }

  /** The edge algebra at half-edge e of a set S of half-edges: S holds e's
      Sym, Onext and Lnext, and `e.Onext.Sym.Lnext == e`, `e.Lnext.Onext.Sym == e`. */
  ghost predicate EdgeOk(onext: seq<int>, lnext: seq<int>, S: set<int>, e: int) {
    && |lnext| == |onext| && 0 <= e < |onext| && Sym(e) in S
    && onext[e] in S && lnext[e] in S
    && 0 <= onext[e] < |onext| && 0 <= lnext[e] < |onext|
    && 0 <= Sym(onext[e]) < |lnext| && lnext[Sym(onext[e])] == e
    && 0 <= onext[lnext[e]] < |onext| && Sym(onext[lnext[e]]) == e
  }

  /** The edge algebra on S (which it makes closed under Sym, Onext, Lnext). */
  ghost predicate Algebra(onext: seq<int>, lnext: seq<int>, S: set<int>) {
    && |lnext| == |onext| && |onext| % 2 == 0
    && forall e {:trigger EdgeOk(onext, lnext, S, e)} :: e in S ==> EdgeOk(onext, lnext, S, e)
  }

  /** Under the edge algebra each derived `prev` step undoes its `next` step:
      Oprev/Onext, Lprev/Lnext, Dprev/Dnext and Rprev/Rnext are inverse pairs. */
  lemma NavigationInverses(m: Mesh, S: set<int>, e: int)
    requires Shaped(m) && Algebra(m.onext, m.lnext, S) && e in S && 0 <= e < |m.onext|
    ensures 0 <= Oprev(m, e) < |m.onext| && m.onext[Oprev(m, e)] == e
    ensures 0 <= m.onext[e] && 0 <= Lprev(m, e) < |m.lnext| && m.lnext[Lprev(m, e)] == e
    ensures 0 <= m.lnext[e] < |m.lnext| && 0 <= Dprev(m, e) < |m.onext|
    ensures 0 <= Rprev(m, Dprev(m, e)) && Dnext(m, Dprev(m, e)) == e
    ensures 0 <= Rprev(m, e) < |m.onext| && 0 <= Oprev(m, Rprev(m, e)) && Rnext(m, Rprev(m, e)) == e
    ensures 0 <= m.onext[m.lnext[e]] && Sym(m.onext[m.lnext[e]]) == e
  {
    var s := Sym(e);
    assert EdgeOk(m.onext, m.lnext, S, e) && EdgeOk(m.onext, m.lnext, S, s);
    var d := m.lnext[e];
    assert EdgeOk(m.onext, m.lnext, S, d);
    var r := m.onext[s];
    assert EdgeOk(m.onext, m.lnext, S, r);
  }

  // ---------------------------------------------------------------------------
  // splice

  /** MeshUtils.splice(a, b): the Onext links of a and b are exchanged and the
      Lnext links into them are redirected, assignment by assignment. */
  function Splice(m: Mesh, a: int, b: int): (m': Mesh)
    requires Shaped(m) && 0 <= a < |m.onext| && 0 <= b < |m.onext|
    requires 0 <= m.onext[a] < |m.onext| && 0 <= m.onext[b] < |m.onext|
    ensures Shaped(m') && m' == m.(onext := m'.onext, lnext := m'.lnext)
    ensures m'.onext[a] == m.onext[b] && m'.onext[b] == m.onext[a]
    ensures m'.lnext[Sym(m.onext[b])] == a
    ensures m.onext[a] != m.onext[b] ==> m'.lnext[Sym(m.onext[a])] == b
    ensures forall z :: 0 <= z < |m.onext| && z != a && z != b ==> m'.onext[z] == m.onext[z]
    ensures forall z :: 0 <= z < |m.lnext| && z != Sym(m.onext[a]) && z != Sym(m.onext[b]) ==>
      m'.lnext[z] == m.lnext[z]
  {
    var aOnext := m.onext[a];
    var bOnext := m.onext[b];
    var lnext := m.lnext[Sym(aOnext) := b][Sym(bOnext) := a];
    var onext := m.onext[a := bOnext][b := aOnext];
    m.(onext := onext, lnext := lnext)
  }

  /** Where `e.Onext.Sym.Lnext == e` holds for a and b, a splice is a swap of
      the Onext successors of a and b together with a swap of the Lnext
      successors of `a.Onext.Sym` and `b.Onext.Sym`. */
  lemma SpliceIsSwap(m: Mesh, a: int, b: int)
    requires Shaped(m) && 0 <= a < |m.onext| && 0 <= b < |m.onext|
    requires 0 <= m.onext[a] < |m.onext| && 0 <= m.onext[b] < |m.onext|
    requires m.lnext[Sym(m.onext[a])] == a && m.lnext[Sym(m.onext[b])] == b
    ensures 0 <= Sym(m.onext[a]) < |m.lnext| && 0 <= Sym(m.onext[b]) < |m.lnext|
    ensures Splice(m, a, b).onext == SwapSucc(m.onext, a, b)
    ensures Splice(m, a, b).lnext == SwapSucc(m.lnext, Sym(m.onext[a]), Sym(m.onext[b]))
  {
  }

  /** Splicing twice at the same pair of half-edges restores every Onext and
      Lnext link. */
  lemma SpliceTwiceRestores(m: Mesh, a: int, b: int)
    requires Shaped(m) && 0 <= a < |m.onext| && 0 <= b < |m.onext|
    requires 0 <= m.onext[a] < |m.onext| && 0 <= m.onext[b] < |m.onext|
    requires m.lnext[Sym(m.onext[a])] == a && m.lnext[Sym(m.onext[b])] == b
    ensures Splice(Splice(m, a, b), a, b) == m
  {
    var x := Sym(m.onext[a]);
    var y := Sym(m.onext[b]);
    var m1 := Splice(m, a, b);
    SpliceIsSwap(m, a, b);
    assert m1.lnext[Sym(m1.onext[a])] == a && m1.lnext[Sym(m1.onext[b])] == b;
    SpliceIsSwap(m1, a, b);
    SwapTwice(m.onext, a, b);
    if x != y {
      SwapSymmetric(SwapSucc(m.lnext, x, y), y, x);
      SwapTwice(m.lnext, x, y);
    }
  }

  /** A splice of two half-edges of S keeps the edge algebra on S. */
  lemma SplicePreservesAlgebra(m: Mesh, S: set<int>, a: int, b: int)
    requires Shaped(m) && Algebra(m.onext, m.lnext, S) && a in S && b in S
    requires 0 <= a < |m.onext| && 0 <= b < |m.onext|
    requires 0 <= m.onext[a] < |m.onext| && 0 <= m.onext[b] < |m.onext|
    ensures Algebra(Splice(m, a, b).onext, Splice(m, a, b).lnext, S)
  {
    assert EdgeOk(m.onext, m.lnext, S, a) && EdgeOk(m.onext, m.lnext, S, b);
    var x := Sym(m.onext[a]);
    var y := Sym(m.onext[b]);
    assert EdgeOk(m.onext, m.lnext, S, m.onext[a]) && EdgeOk(m.onext, m.lnext, S, m.onext[b]);
    assert x in S && y in S;
    SpliceIsSwap(m, a, b);
    var m' := Splice(m, a, b);
    forall e | e in S ensures EdgeOk(m'.onext, m'.lnext, S, e) {
      assert EdgeOk(m.onext, m.lnext, S, e);
      if e != a && e != b {
        // another half-edge's Onext.Sym is neither x nor y, or it would be a or b
        assert Sym(m.onext[e]) != x && Sym(m.onext[e]) != y;
      }
      var w := m'.lnext[e];
      assert EdgeOk(m.onext, m.lnext, S, w);
      if e != x && e != y {
        assert w != a && w != b;
      }
    }
  }

  // ---------------------------------------------------------------------------
  // Walks of a face loop

  /** The half-edges of c have origins and destinations in the vertex arena. */
  ghost predicate EndsIn(m: Mesh, c: seq<int>) {
    && Shaped(m)
    && forall i :: 0 <= i < |c| ==>
      0 <= c[i] < |m.org| && 0 <= m.org[c[i]] < |m.vS| && 0 <= m.org[Sym(c[i])] < |m.vS|
  }

  /** The shoelace term of one half-edge. */
  function AreaTerm(m: Mesh, e: int): real
    requires Shaped(m) && 0 <= e < |m.org|
    requires 0 <= m.org[e] < |m.vS| && 0 <= m.org[Sym(e)] < |m.vS|
  {
    var o := m.org[e];
    var d := m.org[Sym(e)];
    (m.vS[o] - m.vS[d]) * (m.vT[o] + m.vT[d])
  }

  /** The sum of the shoelace terms of the half-edges of c. */
  function AreaSum(m: Mesh, c: seq<int>): real
    requires EndsIn(m, c)
  {
    if |c| == 0 then 0.0
    else
      AreaSum(m, c[..|c| - 1]) + AreaTerm(m, c[|c| - 1])
  }

  lemma {:induction false} AreaSumAppend(m: Mesh, a: seq<int>, b: seq<int>)
    requires EndsIn(m, a) && EndsIn(m, b)
    ensures EndsIn(m, a + b)
    ensures AreaSum(m, a + b) == AreaSum(m, a) + AreaSum(m, b)
    decreases |b|
  {
    if |b| > 0 {
      var b' := b[..|b| - 1];
      assert (a + b)[..|a + b| - 1] == a + b';
      AreaSumAppend(m, a, b');
    } else {
      assert a + b == a;
    }
  }

  /** faceArea: the shoelace sum once over each half-edge of the face loop
      that starts at the face's `anEdge`. */
  method FaceArea(m: Mesh, f: int, ghost c: seq<int>) returns (area: real)
    requires Shaped(m) && 0 <= f < |m.fEdge|
    requires IsCycle(m.lnext, c) && c[0] == m.fEdge[f] && EndsIn(m, c)
    ensures area == AreaSum(m, c)
  {
    area := 0.0;
    var e := m.fEdge[f];
    ghost var i := 0;
    while true
      invariant 0 <= i < |c| && e == c[i]
      invariant area == AreaSum(m, c[..i])
      decreases |c| - i
    {
      assert c[..i + 1][..i] == c[..i];
      area := area + AreaTerm(m, e);
      e := m.lnext[e];
      if e == m.fEdge[f] {
        if i < |c| - 1 {
          DistinctApart(c, 0, i + 1);
        }
        assert c[..i + 1] == c;
        return;
      }
      i := i + 1;
    }
  }

  /** The area of a face does not depend on which half-edge of its loop the
      walk starts from. */
  lemma {:induction false} AreaAnyStart(m: Mesh, c: seq<int>, x: int)
    requires EndsIn(m, c) && x in c
    ensures EndsIn(m, RotateTo(c, x))
    ensures AreaSum(m, RotateTo(c, x)) == AreaSum(m, c)
  {
    var k := IndexOf(c, x);
    var a, b := c[..k], c[k..];
    assert c == a + b;
    assert RotateTo(c, x) == b + a;
    EndsInParts(m, c, k);
    AreaSumAppend(m, a, b);
    AreaSumAppend(m, b, a);
  }

  lemma EndsInParts(m: Mesh, c: seq<int>, k: nat)
    requires EndsIn(m, c) && k <= |c|
    ensures EndsIn(m, c[..k]) && EndsIn(m, c[k..])
  {
    assert forall i :: 0 <= i < |c| - k ==> c[k..][i] == c[k + i];
  }

  /** vertsCount: the number of half-edges of the face loop from `anEdge`. */
  method VertsCount(m: Mesh, f: int, ghost c: seq<int>) returns (n: int)
    requires Shaped(m) && 0 <= f < |m.fEdge|
    requires IsCycle(m.lnext, c) && c[0] == m.fEdge[f]
    ensures n == |c|
  {
    n := 0;
    var e := m.fEdge[f];
    ghost var i := 0;
    while true
      invariant 0 <= i < |c| && e == c[i] && n == i
      decreases |c| - i
    {
      n := n + 1;
      e := m.lnext[e];
      if e == m.fEdge[f] {
        if i < |c| - 1 {
          DistinctApart(c, 0, i + 1);
        }
        return;
      }
      i := i + 1;
    }
  }

  /** The loop a walk follows is determined by its start: two cycles of the
      same table from the same element are equal, so the count and area
      above do not depend on the ghost cycle chosen. */
  lemma {:induction false} LoopFromStartIsUnique(succ: seq<int>, c: seq<int>, d: seq<int>)
    requires IsCycle(succ, c) && IsCycle(succ, d) && c[0] == d[0]
    ensures c == d
  {
    WalksAgree(succ, c, d, |c| - 1);
    WalksAgree(succ, d, c, |d| - 1);
    forall i | 0 <= i < |c| ensures c[i] == d[i] {
      WalksAgree(succ, c, d, i);
    }
  }

  // ---------------------------------------------------------------------------
  // loop(with:)

  /** loop(with:) over the circular list `next` from `start`, where the
      closure called on element x relinks x to `relink[x]`. The successor is
      read before the closure runs, so every element of the original cycle
      is visited once, in order, however the closure relinks it. */
  method LoopWith(next: seq<int>, start: int, relink: seq<int>, ghost c: seq<int>)
    returns (visited: seq<int>, next': seq<int>)
    requires IsCycle(next, c) && c[0] == start && |relink| == |next|
    ensures visited == c
    ensures |next'| == |next|
    ensures forall z :: 0 <= z < |next| ==> next'[z] == if z in c then relink[z] else next[z]
  {
    var current := start;
    visited := [];
    next' := next;
    ghost var i := 0;
    while true
      invariant 0 <= i < |c| && current == c[i] && visited == c[..i]
      invariant |next'| == |next|
      invariant forall z :: 0 <= z < |next| ==> next'[z] == if z in c[..i] then relink[z] else next[z]
      invariant forall j :: i <= j < |c| ==> next'[c[j]] == next[c[j]]
      decreases |c| - i
    {
      var nxt := next'[current];
      assert nxt == next[c[i]];
      // the closure
      visited := visited + [current];
      next' := next'[current := relink[current]];
      assert c[..i + 1] == c[..i] + [c[i]];
      forall j | i + 1 <= j < |c| ensures next'[c[j]] == next[c[j]] {
        DistinctApart(c, i, j);
      }
      current := nxt;
      if current == start {
        if i < |c| - 1 {
          DistinctApart(c, 0, i + 1);
        }
        assert c[..i + 1] == c;
        return;
      }
      i := i + 1;
    }
  }

  // ---------------------------------------------------------------------------
  // Vector3.longAxis and addWinding

  function Abs(x: real): real {
    if x < 0.0 then -x else x
  }

  datatype Vector3 = Vector3(x: real, y: real, z: real) {
    function At(i: int): real
      requires 0 <= i < 3
    {
      if i == 0 then x else if i == 1 then y else z
    }
  }

  /** longAxis: the index of a component of largest magnitude, the lowest
      such index on ties. */
  function LongAxis(v: Vector3): (i: int)
    ensures 0 <= i < 3
    ensures forall j :: 0 <= j < 3 ==> Abs(v.At(j)) <= Abs(v.At(i))
    ensures forall j :: 0 <= j < i ==> Abs(v.At(j)) < Abs(v.At(i))
  {
    var i := if Abs(v.y) > Abs(v.x) then 1 else 0;
    if Abs(v.z) > Abs(if i == 0 then v.x else v.y) then 2 else i
  }

  /** The two properties above single out one index. */
  lemma LongAxisUnique(v: Vector3, i: int)
    requires 0 <= i < 3
    requires forall j :: 0 <= j < 3 ==> Abs(v.At(j)) <= Abs(v.At(i))
    requires forall j :: 0 <= j < i ==> Abs(v.At(j)) < Abs(v.At(i))
    ensures LongAxis(v) == i
  {
    var k := LongAxis(v);
    assert Abs(v.At(k)) <= Abs(v.At(i)) && Abs(v.At(i)) <= Abs(v.At(k));
  }

  /** addWinding(eDst, eSrc) (Geom.swift): eSrc's winding is added to eDst's
      and eSrc.Sym's to eDst.Sym's, in that order. When eSrc is eDst.Sym,
      the second addition reads the winding the first one just wrote. */
  function AddWinding(m: Mesh, eDst: int, eSrc: int): (m': Mesh)
    requires Shaped(m) && 0 <= eDst < |m.winding| && 0 <= eSrc < |m.winding|
    ensures Shaped(m') && m' == m.(winding := m'.winding)
    ensures eSrc != Sym(eDst) ==>
      && m'.winding[eDst] == m.winding[eDst] + m.winding[eSrc]
      && m'.winding[Sym(eDst)] == m.winding[Sym(eDst)] + m.winding[Sym(eSrc)]
    ensures eSrc == Sym(eDst) ==>
      && m'.winding[eDst] == m.winding[eDst] + m.winding[Sym(eDst)]
      && m'.winding[Sym(eDst)] == m.winding[eDst] + 2 * m.winding[Sym(eDst)]
    ensures forall z :: 0 <= z < |m.winding| && z != eDst && z != Sym(eDst) ==>
      m'.winding[z] == m.winding[z]
  {
    var w := m.winding[eDst := m.winding[eDst] + m.winding[eSrc]];
    var w' := w[Sym(eDst) := w[Sym(eDst)] + w[Sym(eSrc)]];
    m.(winding := w')
  }

  /** Folding one pair's windings into another adds the source pair's total
      to the destination pair's total, whichever way round the two pairs are
      given. */
  lemma AddWindingPairTotal(m: Mesh, eDst: int, eSrc: int)
    requires Shaped(m) && 0 <= eDst < |m.winding| && 0 <= eSrc < |m.winding|
    requires First(eSrc) != First(eDst)
    ensures var m' := AddWinding(m, eDst, eSrc);
      m'.winding[eDst] + m'.winding[Sym(eDst)]
        == m.winding[eDst] + m.winding[Sym(eDst)] + m.winding[eSrc] + m.winding[Sym(eSrc)]
    ensures var m' := AddWinding(m, eDst, eSrc);
      m'.winding[eSrc] == m.winding[eSrc] && m'.winding[Sym(eSrc)] == m.winding[Sym(eSrc)]
  {
  }
}
