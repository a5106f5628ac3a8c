/**
  The mesh operations built from splice and the record bookkeeping
  (Mesh.swift): addEdgeVertex, splitEdge, connect and delete.

  Each keeps the invariant `Mesh.Inv`. The proofs follow the source's
  steps on the Onext and Lnext tables: every `MeshUtils.splice` is a swap of
  two Onext successors and two Lnext successors (`SpliceIsSwap`), and the
  vertex and face labels are re-established by the `Labels` steps (absorb a
  fresh loop, split, join, split off, retire).
*/
module MeshOps {
  import opened Cycles
  import opened Labels
  import opened MeshUtils
  import opened MeshContext
  import opened MO = Mesh

  // ---------------------------------------------------------------------------
  // Shared facts

  /** A live half-edge's pair is listed in the edge list. */
  lemma LiveListed(m: Mesh, g: Shape, e: int)
    requires Inv(m, g) && e in g.live
    ensures 2 <= e < |m.eNext| && First(e) in g.ering
  {
  }

  /** Under the edge algebra, e.Lnext's Onext is e.Sym: e.Lnext is the
      Onext predecessor of e.Sym around e's destination. */
  lemma LnextOnext(m: Mesh, S: set<int>, e: int)
    requires Shaped(m) && Algebra(m.onext, m.lnext, S) && e in S
    ensures 0 <= e < |m.lnext| && 0 <= m.lnext[e] < |m.onext| && m.lnext[e] in S
    ensures m.onext[m.lnext[e]] == Sym(e)
  {
    assert EdgeOk(m.onext, m.lnext, S, e);
    SymFacts(m.onext[m.lnext[e]]);
  }

  /** A live half-edge and its Lnext share the vertex e.Dst. */
  lemma LnextAtDst(m: Mesh, g: Shape, e: int)
    requires Inv(m, g) && e in g.live
    ensures 0 <= e < |m.lnext| && 0 <= m.lnext[e] < |m.org|
    ensures m.org[m.lnext[e]] == Dst(m, e)
    ensures Used(VLab(m, g), Dst(m, e)) && Dst(m, e) in g.vcyc && m.lnext[e] in g.vcyc[Dst(m, e)]
  {
    LnextOnext(m, g.live, e);
    var b := m.lnext[e];
    LabelCycle(VLab(m, g), b);
    LiveOrg(m, g, b);
  }

  /** A half-edge that is its own successor is a one-element loop. */
  lemma SelfLoop(succ: seq<int>, x: int)
    requires 0 <= x < |succ| && succ[x] == x
    ensures IsCycle(succ, [x])
  {
    OneDistinct([x]);
  }

  /** A fresh label for a half-edge that is a loop on its own. */
  lemma LabelFreshLoop(L: Lab, x: int, w: int, lab': seq<int>, ring': seq<int>)
    requires Valid(L) && 0 <= x < |L.succ| && L.succ[x] == x && x !in L.live
    requires w == |L.anchor| && w != 0 && |lab'| == |L.lab|
    requires forall z :: 0 <= z < |L.lab| ==> lab'[z] == if z == x then w else L.lab[z]
    requires forall z :: z in ring' <==> z in L.ring || z == w
    ensures Valid(L.(lab := lab', anchor := L.anchor + [x], ring := ring',
                     cyc := L.cyc[w := [x]], live := L.live + {x}))
  {
    SelfLoop(L.succ, x);
    assert forall z :: z in [x] <==> z == x;
    LabelFresh(L, [x], w, lab', ring');
    assert Elems([x]) == {x};
  }

  lemma ElemsOfPair(S: set<int>, e: int)
    ensures S + Elems([e]) + Elems([e + 1]) == S + {e, e + 1}
  {
  }

  // ---------------------------------------------------------------------------
  // addEdgeVertex

  /** addEdgeVertex(eOrg): a fresh edge eNew becomes eOrg.Lnext, leaving
      eOrg.Dst for a fresh vertex whose only half-edge is eNew.Sym; eNew and
      eNew.Sym take eOrg's left face, and nothing else is relabelled. */
  method AddEdgeVertex(m: Mesh, ghost g: Shape, eOrg: int) returns (m': Mesh, eNew: int, ghost g': Shape)
    requires Inv(m, g) && eOrg in g.live
    ensures Inv(m', g') && |m'.eNext| == |m.eNext| + 2
    ensures eNew == |m.eNext| && Sym(eNew) == eNew + 1 && g'.live == g.live + {eNew, eNew + 1}
    ensures VertexCount(g') == VertexCount(g) + 1 && FaceCount(g') == FaceCount(g)
    ensures EdgeCount(g') == EdgeCount(g) + 1
    ensures 0 <= eOrg < |m.lnext| && 0 <= m.lnext[eOrg] < |m.onext|
    ensures m'.lnext[eOrg] == eNew && m'.lnext[eNew + 1] == m.lnext[eOrg] && m'.lnext[eNew] == eNew + 1
    ensures m'.onext[m.lnext[eOrg]] == eNew && m'.onext[eNew] == Sym(eOrg)
    ensures m'.onext[eNew + 1] == eNew + 1
    ensures m'.org[eNew] == Dst(m, eOrg) && Dst(m', eNew) == |m.vNext|
    ensures m'.lface[eNew] == m.lface[eOrg] && Rface(m', eNew) == m.lface[eOrg]
    ensures forall z :: 0 <= z < |m.eNext| ==> m'.org[z] == m.org[z] && m'.lface[z] == m.lface[z]
    ensures forall z :: 0 <= z < |m.eNext| && z != m.lnext[eOrg] ==> m'.onext[z] == m.onext[z]
    ensures forall z :: 0 <= z < |m.eNext| && z != eOrg ==> m'.lnext[z] == m.lnext[z]
    ensures m'.fEdge == m.fEdge && m'.winding == m.winding + [0, 0]
  {
    AevReady(m, g, eOrg);
    var v;
    m', eNew, v := AevSteps(m, eOrg, g.ering, g.vring);
    g' := AddEdgeVertexShape(m, g, eOrg, m', eNew, v);
    AevLinks(m, eOrg, m');
  }

  /** addEdgeVertex's links, origins and faces around the fresh pair, from
      the tables its steps leave. */
  lemma AevLinks(m: Mesh, eOrg: int, m': Mesh)
    requires Shaped(m) && 2 <= eOrg < |m.eNext| && 0 <= m.lnext[eOrg] < |m.eNext|
    requires 0 <= Sym(eOrg) < |m.eNext| && Sym(Sym(eOrg)) == eOrg && m.onext[m.lnext[eOrg]] == Sym(eOrg)
    requires var e := |m.eNext|; Shaped(m') && Sym(e) == e + 1
    requires var e := |m.eNext|; m'.onext == SwapSucc(m.onext + [e, e + 1], e, m.lnext[eOrg])
    requires var e := |m.eNext|; m'.lnext == SwapSucc(m.lnext + [e + 1, e], e + 1, eOrg)
    requires m'.org == m.org + [Dst(m, eOrg), |m.vNext|]
    requires m'.lface == m.lface + [m.lface[eOrg], m.lface[eOrg]]
    ensures var e := |m.eNext|;
      && m'.lnext[eOrg] == e && m'.lnext[e + 1] == m.lnext[eOrg] && m'.lnext[e] == e + 1
      && m'.onext[m.lnext[eOrg]] == e && m'.onext[e] == Sym(eOrg) && m'.onext[e + 1] == e + 1
      && m'.org[e] == Dst(m, eOrg) && Dst(m', e) == |m.vNext|
      && m'.lface[e] == m.lface[eOrg] && Rface(m', e) == m.lface[eOrg]
    ensures forall z :: 0 <= z < |m.eNext| ==> m'.org[z] == m.org[z] && m'.lface[z] == m.lface[z]
    ensures forall z :: 0 <= z < |m.eNext| && z != m.lnext[eOrg] ==> m'.onext[z] == m.onext[z]
    ensures forall z :: 0 <= z < |m.eNext| && z != eOrg ==> m'.lnext[z] == m.lnext[z]
  {
  }

  /** What addEdgeVertex's steps need of the mesh, read from the invariant. */
  lemma AevReady(m: Mesh, g: Shape, eOrg: int)
    requires Inv(m, g) && eOrg in g.live
    ensures Shaped(m) && IsEdgeRing(m.eNext, g.ering) && IsRing(m.vNext, m.vPrev, g.vring)
    ensures 2 <= eOrg < |m.eNext| && First(eOrg) in g.ering
    ensures 0 <= m.lnext[eOrg] < |m.eNext| && m.onext[m.lnext[eOrg]] == Sym(eOrg)
    ensures 0 <= Sym(eOrg) < |m.eNext| && Sym(Sym(eOrg)) == eOrg
    ensures 0 <= Dst(m, eOrg) && Dst(m, eOrg) in g.vring
  {
    LiveListed(m, g, eOrg);
    LnextOnext(m, g.live, eOrg);
    LnextAtDst(m, g, eOrg);
    SymFacts(eOrg);
    assert Sym(eOrg) in g.live;
  }

  /** The steps of addEdgeVertex on the tables: MakeEdge, the splice of the
      fresh half into eOrg.Dst and eOrg's face, the fresh vertex, the faces. */
  method AevSteps(m: Mesh, eOrg: int, ghost er: seq<int>, ghost vr: seq<int>)
    returns (m': Mesh, e: int, v: int)
    requires Shaped(m) && IsEdgeRing(m.eNext, er) && IsRing(m.vNext, m.vPrev, vr)
    requires 2 <= eOrg < |m.eNext| && First(eOrg) in er
    requires 0 <= m.lnext[eOrg] < |m.eNext| && m.onext[m.lnext[eOrg]] == Sym(eOrg)
    requires 0 <= Sym(eOrg) < |m.eNext| && Sym(Sym(eOrg)) == eOrg
    requires 0 <= Dst(m, eOrg) && Dst(m, eOrg) in vr
    ensures e == |m.eNext| && v == |m.vNext| && Shaped(m') && Sym(e) == e + 1
    ensures IsEdgeRing(m'.eNext, InsertAt(er, IndexOf(er, First(eOrg)), e))
    ensures IsRing(m'.vNext, m'.vPrev, InsertAt(vr, IndexOf(vr, Dst(m, eOrg)), v))
    ensures m'.onext == SwapSucc(m.onext + [e, e + 1], e, m.lnext[eOrg])
    ensures m'.lnext == SwapSucc(m.lnext + [e + 1, e], e + 1, eOrg)
    ensures m'.org == m.org + [Dst(m, eOrg), v] && m'.vEdge == m.vEdge + [e + 1]
    ensures m'.lface == m.lface + [m.lface[eOrg], m.lface[eOrg]]
    ensures m'.fEdge == m.fEdge && m'.fNext == m.fNext && m'.fPrev == m.fPrev
    ensures m'.winding == m.winding + [0, 0]
  {
    var b := m.lnext[eOrg];
    var m1;
    m1, e := MakeEdge(m, eOrg, er);
    // eNew joins the Onext loop at eOrg.Dst just after eOrg.Lnext, and its
    // pair's Lnext loop joins eOrg's left face just after eOrg
    SpliceIsSwap(m1, e, b);
    var m2 := Splice(m1, e, b);
    var d := Dst(m, eOrg);
    var m3 := m2.(org := m2.org[e := d]);
    assert m3.onext[e + 1] == e + 1;
    OneDistinct([e + 1]);
    var m4;
    m4, v := MakeVertex(m3, e + 1, d, [e + 1], vr);
    var f := m.lface[eOrg];
    m' := m4.(lface := m4.lface[e := f][e + 1 := f]);
    assert m'.org == m.org + [d, v];
    assert m'.lface == m.lface + [f, f];
  }

  /** The shape after addEdgeVertex, from the tables its steps leave. */
  lemma AddEdgeVertexShape(m: Mesh, g: Shape, eOrg: int, m': Mesh, e: int, v: int)
    returns (g': Shape)
    requires Inv(m, g) && eOrg in g.live && e == |m.eNext| && v == |m.vNext|
    requires 2 <= eOrg < |m.eNext| && First(eOrg) in g.ering
    requires 0 <= m.lnext[eOrg] < |m.eNext| && m.onext[m.lnext[eOrg]] == Sym(eOrg)
    requires 0 <= Sym(eOrg) < |m.eNext| && Sym(Sym(eOrg)) == eOrg
    requires 0 <= Dst(m, eOrg) && Dst(m, eOrg) in g.vring
    requires Shaped(m') && Sym(e) == e + 1
    requires IsEdgeRing(m'.eNext, InsertAt(g.ering, IndexOf(g.ering, First(eOrg)), e))
    requires IsRing(m'.vNext, m'.vPrev, InsertAt(g.vring, IndexOf(g.vring, Dst(m, eOrg)), v))
    requires m'.onext == SwapSucc(m.onext + [e, e + 1], e, m.lnext[eOrg])
    requires m'.lnext == SwapSucc(m.lnext + [e + 1, e], e + 1, eOrg)
    requires m'.org == m.org + [Dst(m, eOrg), v] && m'.vEdge == m.vEdge + [e + 1]
    requires m'.lface == m.lface + [m.lface[eOrg], m.lface[eOrg]]
    requires m'.fEdge == m.fEdge && m'.fNext == m.fNext && m'.fPrev == m.fPrev
    ensures Inv(m', g') && g'.live == g.live + {e, e + 1}
    ensures |g'.vring| == |g.vring| + 1 && |g'.fring| == |g.fring| && |g'.ering| == |g.ering| + 1
  {
    var vr := InsertAt(g.vring, IndexOf(g.vring, Dst(m, eOrg)), v);
    var er := InsertAt(g.ering, IndexOf(g.ering, First(eOrg)), e);
    var vcyc', fcyc' := AevLabels(m, g, eOrg, m', e, v);
    AevAlgebra(m, g.live, eOrg, e, m'.onext, m'.lnext);
    g' := InvAfterPair(m, g, m', vr, g.fring, er, vcyc', fcyc');
  }

  /** The vertex and face labels after addEdgeVertex. */
  lemma AevLabels(m: Mesh, g: Shape, eOrg: int, m': Mesh, e: int, v: int)
    returns (vcyc': map<int, seq<int>>, fcyc': map<int, seq<int>>)
    requires Inv(m, g) && eOrg in g.live && e == |m.eNext| && v == |m.vNext|
    requires 2 <= eOrg < |m.eNext| && 0 <= m.lnext[eOrg] < |m.eNext|
    requires 0 <= Dst(m, eOrg) && Dst(m, eOrg) in g.vring
    requires Shaped(m')
    requires m'.onext == SwapSucc(m.onext + [e, e + 1], e, m.lnext[eOrg])
    requires m'.lnext == SwapSucc(m.lnext + [e + 1, e], e + 1, eOrg)
    requires m'.org == m.org + [Dst(m, eOrg), v] && m'.vEdge == m.vEdge + [e + 1]
    requires m'.lface == m.lface + [m.lface[eOrg], m.lface[eOrg]] && m'.fEdge == m.fEdge
    ensures Valid(Lab(m'.onext, m'.org, m'.vEdge, InsertAt(g.vring, IndexOf(g.vring, Dst(m, eOrg)), v),
                      vcyc', g.live + {|m.eNext|, |m.eNext| + 1}, false))
    ensures Valid(Lab(m'.lnext, m'.lface, m'.fEdge, g.fring, fcyc', g.live + {|m.eNext|, |m.eNext| + 1}, true))
  {
    var vr := InsertAt(g.vring, IndexOf(g.vring, Dst(m, eOrg)), v);
    LnextAtDst(m, g, eOrg);
    forall z | z in g.live ensures z < e { }
    var live' := g.live + {|m.eNext|, |m.eNext| + 1};
    vcyc' := AevVertices(VLab(m, g), |m.eNext|, m.lnext[eOrg], Dst(m, eOrg), m'.onext, m'.org, m'.vEdge, vr);
    assert VLab(m, g).(succ := m'.onext, lab := m'.org, anchor := m'.vEdge, ring := vr, cyc := vcyc',
                       live := VLab(m, g).live + {|m.eNext|, |m.eNext| + 1})
        == Lab(m'.onext, m'.org, m'.vEdge, vr, vcyc', live', false);
    assert CoverAt(FLab(m, g), eOrg);
    fcyc' := AevFace(FLab(m, g), |m.eNext|, eOrg, m'.lnext, m'.lface);
  }

  /** addEdgeVertex on the edge algebra: the fresh pair is a self-contained
      edge, then one splice. */
  lemma AevAlgebra(m: Mesh, S: set<int>, eOrg: int, e: int, onext': seq<int>, lnext': seq<int>)
    requires Shaped(m) && Algebra(m.onext, m.lnext, S) && eOrg in S && e == |m.eNext|
    requires forall z :: z in S ==> 0 <= z < e
    requires 0 <= m.lnext[eOrg] < e && m.onext[m.lnext[eOrg]] == Sym(eOrg) && Sym(Sym(eOrg)) == eOrg
    requires onext' == SwapSucc(m.onext + [e, e + 1], e, m.lnext[eOrg])
    requires lnext' == SwapSucc(m.lnext + [e + 1, e], e + 1, eOrg)
    ensures Algebra(onext', lnext', S + {|m.eNext|, |m.eNext| + 1})
  {
    var b := m.lnext[eOrg];
    AlgebraAppend(m.onext, m.lnext, S, [e, e + 1], [e + 1, e]);
    var m1 := m.(eNext := m.eNext + [NIL, NIL], onext := m.onext + [e, e + 1],
                 lnext := m.lnext + [e + 1, e], org := m.org + [NIL, NIL],
                 lface := m.lface + [NIL, NIL], winding := m.winding + [0, 0]);
    assert e % 2 == 0 && Sym(e) == e + 1;
    AlgebraAddPair(m1.onext, m1.lnext, S, e);
    assert EdgeOk(m.onext, m.lnext, S, eOrg);
    SpliceIsSwap(m1, e, b);
    SplicePreservesAlgebra(m1, S + {e, e + 1}, e, b);
  }

  /** addEdgeVertex on the vertex labels: the fresh half e is absorbed into
      the Onext loop of d at b, and the fresh half e + 1 forms a fresh vertex. */
  lemma AevVertices(L: Lab, e: int, b: int, d: int, onext': seq<int>, org': seq<int>,
                    vEdge': seq<int>, ring': seq<int>) returns (cyc': map<int, seq<int>>)
    requires Valid(L) && e == |L.succ| && |L.anchor| != 0
    requires forall z :: z in L.live ==> z < e
    requires Used(L, d) && d in L.cyc && b in L.cyc[d]
    requires onext' == SwapSucc(L.succ + [e, e + 1], e, b)
    requires org' == L.lab + [d, |L.anchor|] && vEdge' == L.anchor + [e + 1]
    requires forall z :: z in ring' <==> z in L.ring || z == |L.anchor|
    ensures Valid(L.(succ := onext', lab := org', anchor := vEdge', ring := ring', cyc := cyc',
                     live := L.live + {e, e + 1}))
  {
    var cy := AevVertexAbsorb(L, e, b, d, onext', L.lab + [d, NIL]);
    assert CycleOk(L, d);
    cyc' := AevVertexFresh(L, e, b, d, onext', org', vEdge', ring', cy);
  }

  /** The fresh half e + 1 forms a fresh vertex, once e is absorbed. */
  lemma AevVertexFresh(L: Lab, e: int, b: int, d: int, onext': seq<int>, org': seq<int>,
                       vEdge': seq<int>, ring': seq<int>, cy: seq<int>) returns (cyc': map<int, seq<int>>)
    requires e == |L.succ| && |L.anchor| != 0 && |L.lab| == e && 0 <= b < e && |cy| > 0
    requires forall z :: z in L.live ==> z < e
    requires onext' == SwapSucc(L.succ + [e, e + 1], e, b)
    requires org' == L.lab + [d, |L.anchor|] && vEdge' == L.anchor + [e + 1]
    requires forall z :: z in ring' <==> z in L.ring || z == |L.anchor|
    requires Valid(L.(succ := onext', lab := L.lab + [d, NIL], cyc := L.cyc[d := [b] + [e][1..] + [e] + cy[1..]],
                      live := L.live + Elems([e])))
    ensures Valid(L.(succ := onext', lab := org', anchor := vEdge', ring := ring', cyc := cyc',
                     live := L.live + {e, e + 1}))
  {
    var w := |L.anchor|;
    var L2 := L.(succ := onext', lab := L.lab + [d, NIL], cyc := L.cyc[d := [b] + [e][1..] + [e] + cy[1..]],
                 live := L.live + Elems([e]));
    assert onext'[e + 1] == e + 1;
    assert e + 1 !in L2.live;
    forall z | 0 <= z < |L2.lab| ensures org'[z] == if z == e + 1 then w else L2.lab[z] {
      if z < e {
        assert org'[z] == L.lab[z] == L2.lab[z];
      }
    }
    cyc' := L2.cyc[w := [e + 1]];
    LabelFreshLoop(L2, e + 1, w, org', ring');
    ElemsOfPair(L.live, e);
    assert L2.live + {e + 1} == L.live + {e, e + 1};
  }

  /** The fresh half e absorbed into the Onext loop of d at b. */
  lemma AevVertexAbsorb(L: Lab, e: int, b: int, d: int, onext': seq<int>, lab2: seq<int>)
    returns (cy: seq<int>)
    requires Valid(L) && e == |L.succ|
    requires forall z :: z in L.live ==> z < e
    requires Used(L, d) && d in L.cyc && b in L.cyc[d]
    requires onext' == SwapSucc(L.succ + [e, e + 1], e, b)
    requires lab2 == L.lab + [d, NIL]
    ensures cy == RotateTo(L.cyc[d], b)
    ensures Valid(L.(succ := onext', lab := lab2, cyc := L.cyc[d := [b] + [e][1..] + [e] + cy[1..]],
                     live := L.live + Elems([e])))
  {
    var s1 := L.succ + [e, e + 1];
    assert CycleOk(L, d);
    assert 0 <= b < e;
    Extend(L, s1, L.lab + [NIL, NIL], L.anchor);
    var L1 := L.(succ := s1, lab := L.lab + [NIL, NIL]);
    SmallCycles(s1, e);
    SwapSymmetric(s1, b, e);
    Absorb(L1, d, b, [e], onext', lab2);
    cy := RotateTo(L.cyc[d], b);
  }

  /** addEdgeVertex on the face labels: the fresh pair's two-edge loop is
      absorbed into eOrg's face loop at eOrg (or joins the nil-labelled
      half-edges when eOrg has no face). */
  lemma AevFace(L: Lab, e: int, eOrg: int, lnext': seq<int>, lface': seq<int>)
    returns (cyc': map<int, seq<int>>)
    requires Valid(L) && L.nilOk && e == |L.succ| && eOrg in L.live && CoverAt(L, eOrg)
    requires forall z :: z in L.live ==> z < e
    requires 0 <= eOrg < |L.lab|
    requires lnext' == SwapSucc(L.succ + [e + 1, e], e + 1, eOrg)
    requires lface' == L.lab + [L.lab[eOrg], L.lab[eOrg]]
    ensures Valid(L.(succ := lnext', lab := lface', cyc := cyc', live := L.live + {e, e + 1}))
  {
    var s1 := L.succ + [e + 1, e];
    Extend(L, s1, L.lab + [NIL, NIL], L.anchor);
    var L1 := L.(succ := s1, lab := L.lab + [NIL, NIL]);
    TwoDistinct([e + 1, e]);
    assert IsCycle(s1, [e + 1, e]);
    SwapSymmetric(s1, e + 1, eOrg);
    var f := L.lab[eOrg];
    assert Elems([e + 1, e]) == {e, e + 1};
    if f != NIL {
      Absorb(L1, f, eOrg, [e + 1, e], lnext', lface');
      var cy := RotateTo(L.cyc[f], eOrg);
      cyc' := L.cyc[f := [eOrg] + [e + 1, e][1..] + [e + 1] + cy[1..]];
    } else {
      AbsorbNil(L1, eOrg, [e + 1, e], lnext', lface');
      cyc' := L.cyc;
    }
  }

  // ---------------------------------------------------------------------------
  // splitEdge

  /** splitEdge(eOrg): eOrg is cut at a fresh vertex, the Dst of eOrg and the
      Org of the returned eNew, so that eNew == eOrg.Lnext runs on to eOrg's
      old destination. Both keep eOrg's left and right faces and eNew copies
      eOrg's winding numbers; nothing else is relabelled. */
  method SplitEdge(m: Mesh, ghost g: Shape, eOrg: int) returns (m': Mesh, eNew: int, ghost g': Shape)
    requires Inv(m, g) && eOrg in g.live
    ensures Inv(m', g')
    ensures Shaped(m') && |m'.eNext| == |m.eNext| + 2
    ensures eNew == |m.eNext| + 1 && g'.live == g.live + {|m.eNext|, |m.eNext| + 1}
    ensures eNew in g'.live && Sym(eNew) in g'.live
    ensures VertexCount(g') == VertexCount(g) + 1 && FaceCount(g') == FaceCount(g)
    ensures EdgeCount(g') == EdgeCount(g) + 1
    ensures 0 <= eOrg < |m.eNext| && 0 <= Sym(eOrg) < |m.eNext| && Sym(eNew) == eNew - 1
    ensures m'.lnext[eOrg] == eNew
    ensures Dst(m', eOrg) == |m.vNext| && m'.org[eNew] == |m.vNext|
    ensures Dst(m', eNew) == Dst(m, eOrg) && m'.org[eOrg] == m.org[eOrg]
    ensures m'.lface[eOrg] == m.lface[eOrg] && m'.lface[eNew] == m.lface[eOrg]
    ensures Rface(m', eOrg) == Rface(m, eOrg) && Rface(m', eNew) == Rface(m, eOrg)
    ensures m'.winding[eNew] == m.winding[eOrg] && m'.winding[Sym(eNew)] == m.winding[Sym(eOrg)]
    ensures forall z :: 0 <= z < |m.eNext| && z != Sym(eOrg) ==> m'.org[z] == m.org[z]
    ensures forall z :: 0 <= z < |m.eNext| ==> m'.lface[z] == m.lface[z] && m'.winding[z] == m.winding[z]
    ensures m.lnext[eOrg] != Sym(eOrg) ==> m'.lnext[eNew] == m.lnext[eOrg]
    ensures forall z :: 0 <= z < |m.eNext| && z != eOrg && m.lnext[z] != Sym(eOrg) ==> m'.lnext[z] == m.lnext[z]
  {
    SplitPre(m, g, eOrg);
    var m1, t, g1 := AddEdgeVertex(m, g, eOrg);
    SplitBridge(m, eOrg, m1, t);
    m', g' := SplitAfter(m1, g1, eOrg, t);
    eNew := t + 1;
    SplitLinks(m, g, eOrg, m1, g1, t, m', g', eNew);
    SplitLnextFrame(m, eOrg, m1, t, m');
  }

  /** splitEdge's Lnext table against the one before addEdgeVertex: eNew
      takes over eOrg's old successor (unless eOrg ran into its own Sym),
      and only the half-edge that led into eOrg.Sym changes among the others. */
  lemma SplitLnextFrame(m: Mesh, eOrg: int, m1: Mesh, t: int, m': Mesh)
    requires Shaped(m) && Shaped(m1) && t == |m.eNext| && |m1.eNext| == t + 2 && Sym(t) == t + 1
    requires 0 <= eOrg < t && 0 <= Sym(eOrg) < t
    requires m1.lnext[eOrg] == t && m1.lnext[t] == t + 1 && m1.lnext[t + 1] == m.lnext[eOrg]
    requires forall z :: 0 <= z < |m.eNext| && z != eOrg ==> m1.lnext[z] == m.lnext[z]
    requires 0 <= m1.onext[Sym(eOrg)] < |m1.onext| && 0 <= Sym(m1.onext[Sym(eOrg)]) < |m1.onext|
    requires Sym(m1.onext[Sym(eOrg)]) != t && Sym(m1.onext[Sym(eOrg)]) != eOrg
    requires m1.lnext[Sym(m1.onext[Sym(eOrg)])] == Sym(eOrg)
    requires m'.lnext == SplitLnext(m1, eOrg, t)
    ensures m.lnext[eOrg] != Sym(eOrg) ==> m'.lnext[t + 1] == m.lnext[eOrg]
    ensures forall z :: 0 <= z < |m.eNext| && z != eOrg && m.lnext[z] != Sym(eOrg) ==> m'.lnext[z] == m.lnext[z]
  {
    var y := Sym(m1.onext[Sym(eOrg)]);
    var l1 := SwapSucc(m1.lnext, y, eOrg);
    assert m'.lnext == SwapSucc(l1, eOrg, t);
  }

  /** splitEdge after addEdgeVertex made t = eTmp: the splices, relabelling
      and the new shape. */
  method SplitAfter(m1: Mesh, ghost g1: Shape, eOrg: int, t: int) returns (m': Mesh, ghost g': Shape)
    requires Inv(m1, g1) && t + 1 < |m1.eNext| && eOrg in g1.live && t in g1.live && t + 1 in g1.live
    requires 0 <= eOrg < t && 0 <= Sym(eOrg) < t && Sym(t) == t + 1 && Sym(Sym(eOrg)) == eOrg
    requires m1.lnext[eOrg] == t && m1.lnext[t] == t + 1 && m1.onext[t] == Sym(eOrg) && m1.onext[t + 1] == t + 1
    requires m1.lface[t] == m1.lface[eOrg] && m1.org[Sym(eOrg)] == m1.org[t]
    requires m1.lface[eOrg] != NIL ==> 0 <= m1.lface[eOrg] < |m1.fEdge| && m1.fEdge[m1.lface[eOrg]] != t
    ensures Inv(m', g') && g' == g1.(vcyc := g'.vcyc, fcyc := g'.fcyc)
    ensures 0 <= m1.onext[Sym(eOrg)] < |m1.onext| && 0 <= Sym(m1.onext[Sym(eOrg)]) < |m1.onext|
    ensures 0 <= m1.org[t] < |m1.vEdge|
    ensures Sym(m1.onext[Sym(eOrg)]) != t && Sym(m1.onext[Sym(eOrg)]) != eOrg
    ensures m1.lnext[Sym(m1.onext[Sym(eOrg)])] == Sym(eOrg)
    ensures SplitTables(m1, eOrg, t, m')
  {
    ghost var y := SplitFacts(m1, g1, eOrg, t);
    m' := SplitSteps(m1, eOrg, t);
    g' := SplitEdgeShape(m1, g1, eOrg, t, y, m');
  }

  /** What splitEdge needs of eOrg before addEdgeVertex: its face's anchor
      is an old half-edge. */
  lemma SplitPre(m: Mesh, g: Shape, eOrg: int)
    requires Inv(m, g) && eOrg in g.live
    ensures Shaped(m) && 0 <= eOrg < |m.eNext| && 0 <= Sym(eOrg) < |m.eNext| && Sym(Sym(eOrg)) == eOrg
    ensures m.lface[eOrg] != NIL ==> 0 <= m.lface[eOrg] < |m.fEdge| && m.fEdge[m.lface[eOrg]] < |m.eNext|
  {
    LiveNav(m, g, eOrg);
    SymFacts(eOrg);
    if m.lface[eOrg] != NIL {
      LiveFace(m, g, eOrg);
      FaceLoop(m, g, m.lface[eOrg]);
      LiveListed(m, g, m.fEdge[m.lface[eOrg]]);
    }
  }

  /** `SplitPre`'s facts carried over addEdgeVertex, which appended t. */
  lemma SplitBridge(m: Mesh, eOrg: int, m1: Mesh, t: int)
    requires Shaped(m) && 0 <= eOrg < |m.eNext| && 0 <= Sym(eOrg) < |m.eNext| && Sym(Sym(eOrg)) == eOrg
    requires m.lface[eOrg] != NIL ==> 0 <= m.lface[eOrg] < |m.fEdge| && m.fEdge[m.lface[eOrg]] < |m.eNext|
    requires Shaped(m1) && t == |m.eNext| && |m1.eNext| == |m.eNext| + 2 && m1.fEdge == m.fEdge
    requires m1.org[t] == Dst(m, eOrg) && m1.lface[t] == m.lface[eOrg]
    requires forall z :: 0 <= z < |m.eNext| ==> m1.org[z] == m.org[z] && m1.lface[z] == m.lface[z]
    ensures t + 1 < |m1.eNext| && 0 <= eOrg < t && 0 <= Sym(eOrg) < t && Sym(t) == t + 1
    ensures m1.lface[t] == m1.lface[eOrg] && m1.org[Sym(eOrg)] == m1.org[t]
    ensures m1.lface[eOrg] != NIL ==> 0 <= m1.lface[eOrg] < |m1.fEdge| && m1.fEdge[m1.lface[eOrg]] != t
  {
    assert m1.lface[eOrg] == m.lface[eOrg] && m1.org[Sym(eOrg)] == m.org[Sym(eOrg)];
  }

  /** What splitEdge's steps need of the mesh addEdgeVertex leaves: y, the
      Lnext predecessor of eOrg.Sym, is neither eOrg nor t, and the origin
      of t is a vertex. */
  lemma SplitFacts(m1: Mesh, g1: Shape, eOrg: int, t: int) returns (y: int)
    requires Inv(m1, g1) && eOrg in g1.live && t in g1.live && t + 1 in g1.live
    requires 0 <= eOrg < t && 0 <= Sym(eOrg) < t && Sym(t) == t + 1 && Sym(Sym(eOrg)) == eOrg
    requires m1.onext[t + 1] == t + 1 && m1.onext[t] == Sym(eOrg)
    ensures 0 <= m1.onext[Sym(eOrg)] < |m1.onext| && y == Sym(m1.onext[Sym(eOrg)])
    ensures y in g1.live && 0 <= y < |m1.onext| && y != t && y != eOrg && Sym(eOrg) in g1.live
    ensures m1.lnext[y] == Sym(eOrg) && m1.lface[y] == m1.lface[Sym(eOrg)]
    ensures m1.org[t] != NIL && m1.org[t] != 0 && 0 <= m1.org[t] < |m1.vEdge|
  {
    var s := Sym(eOrg);
    assert s in g1.live by { LiveNav(m1, g1, eOrg); }
    var x := SplitNeighbour(m1, g1, s, t);
    y := Sym(x);
    SymFacts(x);
    LnextSameFace(m1, g1, y);
    LiveOrg(m1, g1, t);
    LabelsBelow(m1, g1, t);
  }

  /** eOrg.Sym's Onext is neither t.Sym nor eOrg.Sym (whose Onext t holds). */
  lemma SplitNeighbour(m1: Mesh, g1: Shape, s: int, t: int) returns (x: int)
    requires Inv(m1, g1) && s in g1.live && t in g1.live && t + 1 in g1.live && s != t && s != t + 1
    requires m1.onext[t + 1] == t + 1 && m1.onext[t] == s
    ensures 0 <= s < |m1.onext| && x == m1.onext[s] && x != t + 1 && x != s
    ensures 0 <= x && 0 <= Sym(x) < |m1.lnext| && Sym(x) in g1.live && m1.lnext[Sym(x)] == s
  {
    LiveNav(m1, g1, s);
    NextInjective(m1, g1, s, t + 1);
    NextInjective(m1, g1, s, t);
    x := m1.onext[s];
  }

  /** The Onext table after splitEdge's splices: eOrg.Sym leaves t's loop
      and joins t + 1's. */
  function SplitOnext(m1: Mesh, eOrg: int, t: int): seq<int>
    requires Shaped(m1) && 0 <= Sym(eOrg) < |m1.onext| && 0 <= t && t + 1 < |m1.onext|
  {
    SwapSucc(SwapSucc(m1.onext, Sym(eOrg), t), Sym(eOrg), t + 1)
  }

  /** The Lnext table after splitEdge's splices: t leaves eOrg's face loop
      and follows eOrg.Sym.Onext.Sym. */
  function SplitLnext(m1: Mesh, eOrg: int, t: int): seq<int>
    requires Shaped(m1) && 0 <= eOrg < |m1.onext| && 0 <= Sym(eOrg) < |m1.onext| && 0 <= t < |m1.onext|
    requires 0 <= Sym(m1.onext[Sym(eOrg)]) < |m1.onext|
  {
    SwapSucc(SwapSucc(m1.lnext, Sym(m1.onext[Sym(eOrg)]), eOrg), eOrg, t)
  }

  /** The tables splitEdge leaves, given addEdgeVertex's. */
  ghost predicate SplitTables(m1: Mesh, eOrg: int, t: int, m': Mesh)
    requires Shaped(m1) && 0 <= eOrg < |m1.onext| && 0 <= Sym(eOrg) < |m1.onext| && 0 <= t && t + 1 < |m1.onext|
    requires 0 <= Sym(m1.onext[Sym(eOrg)]) < |m1.onext| && 0 <= m1.org[t] < |m1.vEdge|
  {
    var s := Sym(eOrg);
    m' == m1.(onext := SplitOnext(m1, eOrg, t), lnext := SplitLnext(m1, eOrg, t),
              org := m1.org[s := m1.org[t + 1]], vEdge := m1.vEdge[m1.org[t] := t],
              lface := m1.lface[t := m1.lface[s]],
              winding := m1.winding[t + 1 := m1.winding[eOrg]][t := m1.winding[s]])
  }

  /** splitEdge's steps after addEdgeVertex made t = eTmp: eOrg.Sym is taken
      out of eOrg.Dst's Onext loop and joined to eNew = t.Sym at the fresh
      vertex, then the origins, the anchor of the old destination, eNew's
      right face and the windings are set. */
  method SplitSteps(m1: Mesh, eOrg: int, t: int) returns (m': Mesh)
    requires Shaped(m1) && 0 <= eOrg < |m1.eNext| && 0 <= Sym(eOrg) < |m1.eNext| && Sym(Sym(eOrg)) == eOrg
    requires 0 <= t && t + 1 < |m1.eNext| && Sym(t) == t + 1 && Sym(t + 1) == t && eOrg != t && Sym(eOrg) != t
    requires m1.lnext[eOrg] == t && m1.lnext[t] == t + 1 && m1.onext[t] == Sym(eOrg) && m1.onext[t + 1] == t + 1
    requires 0 <= m1.onext[Sym(eOrg)] < |m1.onext| && m1.onext[Sym(eOrg)] != t + 1
    requires m1.lnext[Sym(m1.onext[Sym(eOrg)])] == Sym(eOrg)
    requires 0 <= m1.org[t] < |m1.vEdge|
    ensures SplitTables(m1, eOrg, t, m')
  {
    var s := Sym(eOrg);
    var m2 := Splice(m1, s, Oprev(m1, s));
    SpliceIsSwap(m1, s, t);
    var eNew := Sym(t);
    assert m2.lnext[eOrg] == s && m2.lnext[t] == eNew;
    var m3 := Splice(m2, s, eNew);
    SpliceIsSwap(m2, s, eNew);
    var m4 := m3.(org := m3.org[s := m3.org[eNew]]);
    var m5 := m4.(vEdge := m4.vEdge[Dst(m4, eNew) := Sym(eNew)]);
    var m6 := m5.(lface := m5.lface[Sym(eNew) := Rface(m5, eOrg)]);
    m' := m6.(winding := m6.winding[eNew := m6.winding[eOrg]][Sym(eNew) := m6.winding[s]]);
  }

  /** splitEdge's links, origins, faces and windings, from addEdgeVertex's
      and from the tables splitEdge's own steps leave. */
  lemma SplitLinks(m: Mesh, g: Shape, eOrg: int, m1: Mesh, g1: Shape, t: int, m': Mesh, g': Shape, eNew: int)
    requires Shaped(m) && 0 <= eOrg < |m.eNext| && 0 <= Sym(eOrg) < |m.eNext| && Sym(Sym(eOrg)) == eOrg
    requires Shaped(m1) && t == |m.eNext| && |m1.eNext| == |m.eNext| + 2 && eNew == t + 1
    requires t + 1 < |m1.eNext| && 0 <= eOrg < t && 0 <= Sym(eOrg) < t && Sym(t) == t + 1
    requires g1.live == g.live + {t, t + 1}
    requires VertexCount(g1) == VertexCount(g) + 1 && FaceCount(g1) == FaceCount(g)
    requires EdgeCount(g1) == EdgeCount(g) + 1
    requires m1.lnext[t] == t + 1
    requires m1.org[t] == Dst(m, eOrg) && Dst(m1, t) == |m.vNext|
    requires m1.lface[t] == m.lface[eOrg] && Rface(m1, t) == m.lface[eOrg]
    requires forall z :: 0 <= z < |m.eNext| ==> m1.org[z] == m.org[z] && m1.lface[z] == m.lface[z]
    requires m1.winding == m.winding + [0, 0]
    requires g' == g1.(vcyc := g'.vcyc, fcyc := g'.fcyc)
    requires 0 <= m1.onext[Sym(eOrg)] < |m1.onext| && 0 <= Sym(m1.onext[Sym(eOrg)]) < |m1.onext|
    requires 0 <= m1.org[t] < |m1.vEdge|
    requires Sym(m1.onext[Sym(eOrg)]) != t && Sym(m1.onext[Sym(eOrg)]) != eOrg
    requires SplitTables(m1, eOrg, t, m')
    ensures Shaped(m') && |m'.eNext| == |m.eNext| + 2
    ensures eNew == |m.eNext| + 1 && g'.live == g.live + {|m.eNext|, |m.eNext| + 1}
    ensures VertexCount(g') == VertexCount(g) + 1 && FaceCount(g') == FaceCount(g)
    ensures EdgeCount(g') == EdgeCount(g) + 1
    ensures 0 <= eOrg < |m.eNext| && 0 <= Sym(eOrg) < |m.eNext| && Sym(eNew) == eNew - 1
    ensures m'.lnext[eOrg] == eNew
    ensures Dst(m', eOrg) == |m.vNext| && m'.org[eNew] == |m.vNext|
    ensures Dst(m', eNew) == Dst(m, eOrg) && m'.org[eOrg] == m.org[eOrg]
    ensures m'.lface[eOrg] == m.lface[eOrg] && m'.lface[eNew] == m.lface[eOrg]
    ensures Rface(m', eOrg) == Rface(m, eOrg) && Rface(m', eNew) == Rface(m, eOrg)
    ensures m'.winding[eNew] == m.winding[eOrg] && m'.winding[Sym(eNew)] == m.winding[Sym(eOrg)]
    ensures forall z :: 0 <= z < |m.eNext| && z != Sym(eOrg) ==> m'.org[z] == m.org[z]
    ensures forall z :: 0 <= z < |m.eNext| ==> m'.lface[z] == m.lface[z] && m'.winding[z] == m.winding[z]
  {
  }

  /** The shape after splitEdge, from the tables its steps leave. */
  lemma SplitEdgeShape(m1: Mesh, g1: Shape, eOrg: int, t: int, y: int, m': Mesh) returns (g': Shape)
    requires Inv(m1, g1) && eOrg in g1.live && t in g1.live && t + 1 in g1.live && y in g1.live
    requires Sym(eOrg) in g1.live
    requires 0 <= eOrg < t && 0 <= Sym(eOrg) < t && Sym(t) == t + 1 && Sym(Sym(eOrg)) == eOrg
    requires m1.lnext[eOrg] == t && m1.onext[t] == Sym(eOrg) && m1.onext[t + 1] == t + 1
    requires m1.lnext[t] == t + 1 && Sym(t + 1) == t
    requires m1.lface[t] == m1.lface[eOrg] && m1.org[Sym(eOrg)] == m1.org[t]
    requires m1.lface[eOrg] != NIL ==> 0 <= m1.lface[eOrg] < |m1.fEdge| && m1.fEdge[m1.lface[eOrg]] != t
    requires 0 <= m1.onext[Sym(eOrg)] < |m1.onext| && y == Sym(m1.onext[Sym(eOrg)])
    requires 0 <= y < |m1.onext| && y != t && y != eOrg && m1.lface[y] == m1.lface[Sym(eOrg)]
    requires m1.lnext[y] == Sym(eOrg)
    requires m1.org[t] != NIL && m1.org[t] != 0 && 0 <= m1.org[t] < |m1.vEdge|
    requires SplitTables(m1, eOrg, t, m')
    ensures Inv(m', g') && g' == g1.(vcyc := g'.vcyc, fcyc := g'.fcyc)
  {
    SplitAlgebra(m1, g1.live, eOrg, t, y);
    SplitFields(m1, eOrg, t, m');
    assert Sentinels(m') && Shaped(m');
    var vcyc' := SplitVertexSide(m1, g1, eOrg, t, m');
    var fcyc' := SplitFaceSide(m1, g1, eOrg, t, y, m');
    g' := InvRelabelled(m1, g1, m', vcyc', fcyc');
  }

  /** The columns splitEdge leaves alone, and the ones it rewrites. */
  lemma SplitFields(m1: Mesh, eOrg: int, t: int, m': Mesh)
    requires Shaped(m1) && 0 <= eOrg < |m1.onext| && 0 <= Sym(eOrg) < |m1.onext| && 0 <= t && t + 1 < |m1.onext|
    requires 0 <= Sym(m1.onext[Sym(eOrg)]) < |m1.onext| && 0 <= m1.org[t] < |m1.vEdge|
    requires SplitTables(m1, eOrg, t, m')
    ensures m'.vNext == m1.vNext && m'.vPrev == m1.vPrev && m'.fNext == m1.fNext && m'.fPrev == m1.fPrev
    ensures m'.eNext == m1.eNext && m'.fEdge == m1.fEdge && m'.vS == m1.vS && m'.vT == m1.vT
    ensures m'.fInside == m1.fInside && m'.fMarked == m1.fMarked
    ensures m'.onext == SplitOnext(m1, eOrg, t) && m'.lnext == SplitLnext(m1, eOrg, t)
    ensures m'.org == m1.org[Sym(eOrg) := m1.org[t + 1]] && m'.vEdge == m1.vEdge[m1.org[t] := t]
    ensures m'.lface == m1.lface[t := m1.lface[Sym(eOrg)]]
  {
  }

  /** The vertex half of `SplitEdgeShape`. */
  lemma SplitVertexSide(m1: Mesh, g1: Shape, eOrg: int, t: int, m': Mesh) returns (vcyc': map<int, seq<int>>)
    requires Shaped(m1) && Valid(VLab(m1, g1))
    requires Sym(eOrg) in g1.live && t in g1.live && t + 1 in g1.live
    requires 0 <= eOrg < t && 0 <= Sym(eOrg) < t && Sym(t) == t + 1 && t + 1 < |m1.onext|
    requires m1.onext[t] == Sym(eOrg) && m1.org[Sym(eOrg)] == m1.org[t]
    requires m1.org[t] != NIL && 0 <= m1.org[t] < |m1.vEdge|
    requires 0 <= Sym(m1.onext[Sym(eOrg)]) < |m1.onext|
    requires m'.onext == SplitOnext(m1, eOrg, t)
    requires m'.org == m1.org[Sym(eOrg) := m1.org[t + 1]] && m'.vEdge == m1.vEdge[m1.org[t] := t]
    ensures Valid(Lab(m'.onext, m'.org, m'.vEdge, g1.vring, vcyc', g1.live, false))
  {
    var L := VLab(m1, g1);
    vcyc' := SplitVertexLabels(L, Sym(eOrg), t, m'.onext, m'.org, m'.vEdge);
    assert L.(succ := m'.onext, lab := m'.org, anchor := m'.vEdge, cyc := vcyc')
        == Lab(m'.onext, m'.org, m'.vEdge, g1.vring, vcyc', g1.live, false);
  }

  /** The face half of `SplitEdgeShape`. */
  lemma SplitFaceSide(m1: Mesh, g1: Shape, eOrg: int, t: int, y: int, m': Mesh) returns (fcyc': map<int, seq<int>>)
    requires Shaped(m1) && Valid(FLab(m1, g1))
    requires eOrg in g1.live && t in g1.live && y in g1.live
    requires 0 <= eOrg < t && 0 <= Sym(eOrg) < t && t + 1 < |m1.onext|
    requires m1.lnext[eOrg] == t && m1.lface[t] == m1.lface[eOrg]
    requires m1.lface[eOrg] != NIL ==> 0 <= m1.lface[eOrg] < |m1.fEdge| && m1.fEdge[m1.lface[eOrg]] != t
    requires 0 <= m1.onext[Sym(eOrg)] < |m1.onext| && y == Sym(m1.onext[Sym(eOrg)])
    requires 0 <= y < |m1.onext| && y != t && y != eOrg && m1.lface[y] == m1.lface[Sym(eOrg)]
    requires m'.lnext == SplitLnext(m1, eOrg, t) && m'.fEdge == m1.fEdge
    requires m'.lface == m1.lface[t := m1.lface[Sym(eOrg)]]
    ensures Valid(Lab(m'.lnext, m'.lface, m'.fEdge, g1.fring, fcyc', g1.live, true))
  {
    var L := FLab(m1, g1);
    fcyc' := SplitFaceLabels(L, eOrg, t, y, m'.lnext, m'.lface);
    assert L.(succ := m'.lnext, lab := m'.lface, cyc := fcyc')
        == Lab(m'.lnext, m'.lface, m'.fEdge, g1.fring, fcyc', g1.live, true);
  }

  /** splitEdge's two splices keep the edge algebra. */
  lemma SplitAlgebra(m1: Mesh, S: set<int>, eOrg: int, t: int, y: int)
    requires Shaped(m1) && Algebra(m1.onext, m1.lnext, S)
    requires eOrg in S && Sym(eOrg) in S && t in S && t + 1 in S && Sym(t) == t + 1 && Sym(eOrg) != t
    requires 0 <= eOrg < |m1.onext| && 0 <= Sym(eOrg) < |m1.onext| && 0 <= t && t + 1 < |m1.onext|
    requires Sym(Sym(eOrg)) == eOrg && Sym(t + 1) == t && eOrg != t
    requires m1.onext[t] == Sym(eOrg) && m1.onext[t + 1] == t + 1
    requires m1.lnext[eOrg] == t && m1.lnext[t] == t + 1
    requires 0 <= m1.onext[Sym(eOrg)] < |m1.onext| && y == Sym(m1.onext[Sym(eOrg)])
    requires 0 <= y < |m1.onext| && y != t && y != eOrg && m1.lnext[y] == Sym(eOrg)
    ensures Algebra(SplitOnext(m1, eOrg, t), SplitLnext(m1, eOrg, t), S)
  {
    var s := Sym(eOrg);
    SplitSpliceTables(m1, eOrg, t, y);
    SplicePreservesAlgebra(m1, S, s, t);
    SplicePreservesAlgebra(Splice(m1, s, t), S, s, t + 1);
  }

  /** splitEdge's two splices, as the swaps `SplitOnext` and `SplitLnext`. */
  lemma SplitSpliceTables(m1: Mesh, eOrg: int, t: int, y: int)
    requires Shaped(m1) && 0 <= eOrg < |m1.onext| && 0 <= Sym(eOrg) < |m1.onext| && 0 <= t && t + 1 < |m1.onext|
    requires Sym(Sym(eOrg)) == eOrg && Sym(t) == t + 1 && Sym(t + 1) == t && Sym(eOrg) != t && eOrg != t
    requires m1.onext[t] == Sym(eOrg) && m1.onext[t + 1] == t + 1
    requires m1.lnext[eOrg] == t && m1.lnext[t] == t + 1
    requires 0 <= m1.onext[Sym(eOrg)] < |m1.onext| && y == Sym(m1.onext[Sym(eOrg)])
    requires 0 <= y < |m1.onext| && y != t && y != eOrg && m1.lnext[y] == Sym(eOrg)
    ensures Shaped(Splice(m1, Sym(eOrg), t))
    ensures Splice(m1, Sym(eOrg), t).onext[Sym(eOrg)] == Sym(eOrg)
    ensures Splice(m1, Sym(eOrg), t).onext[t + 1] == t + 1
    ensures Splice(Splice(m1, Sym(eOrg), t), Sym(eOrg), t + 1).onext == SplitOnext(m1, eOrg, t)
    ensures Splice(Splice(m1, Sym(eOrg), t), Sym(eOrg), t + 1).lnext == SplitLnext(m1, eOrg, t)
  {
    var s := Sym(eOrg);
    SpliceIsSwap(m1, s, t);
    var m2 := Splice(m1, s, t);
    assert m2.onext[s] == s && m2.onext[t + 1] == t + 1;
    assert m2.lnext[eOrg] == s && m2.lnext[t] == t + 1;
    SpliceIsSwap(m2, s, t + 1);
  }

  /** splitEdge on the vertex labels: s = eOrg.Sym moves from the Onext loop
      of the old destination, whose anchor becomes t, to the loop of the
      fresh vertex at t + 1. */
  lemma SplitVertexLabels(L: Lab, s: int, t: int, onext': seq<int>, org': seq<int>, vEdge': seq<int>)
    returns (cyc': map<int, seq<int>>)
    requires Valid(L) && s in L.live && t in L.live && t + 1 in L.live
    requires s != t && s != t + 1 && 0 <= s && 0 <= t && t + 1 < |L.succ| && s < |L.succ|
    requires L.succ[t] == s && L.lab[s] == L.lab[t] && L.lab[t] != NIL
    requires onext' == SwapSucc(SwapSucc(L.succ, s, t), s, t + 1)
    requires org' == L.lab[s := L.lab[t + 1]]
    requires 0 <= L.lab[t] < |L.anchor| && vEdge' == L.anchor[L.lab[t] := t]
    ensures Valid(L.(succ := onext', lab := org', anchor := vEdge', cyc := cyc'))
  {
    assert CoverAt(L, t);
    Reanchor(L, L.lab[t], t);
    cyc' := SplitVertexMove(L.(anchor := vEdge'), s, t, onext', org');
  }

  /** `SplitVertexLabels` once t anchors the old destination. */
  lemma SplitVertexMove(L: Lab, s: int, t: int, onext': seq<int>, org': seq<int>)
    returns (cyc': map<int, seq<int>>)
    requires Valid(L) && s in L.live && t in L.live && t + 1 in L.live
    requires s != t && s != t + 1 && 0 <= s && 0 <= t && t + 1 < |L.succ| && s < |L.succ|
    requires L.succ[t] == s && L.lab[s] == L.lab[t] && L.lab[t] != NIL
    requires 0 <= L.lab[t] < |L.anchor| && L.anchor[L.lab[t]] == t
    requires onext' == SwapSucc(SwapSucc(L.succ, s, t), s, t + 1)
    requires org' == L.lab[s := L.lab[t + 1]]
    ensures Valid(L.(succ := onext', lab := org', cyc := cyc'))
  {
    cyc' := Move(L, L.lab[t], L.lab[t + 1], t, s, t + 1);
    SwapSymmetric(L.succ, s, t);
    SwapSymmetric(SwapSucc(L.succ, t, s), s, t + 1);
    assert L.(succ := onext', lab := org', cyc := cyc', live := L.live)
        == L.(succ := onext', lab := org', cyc := cyc');
  }

  /** splitEdge on the face labels: t leaves eOrg's face loop, closing it
      over eOrg -> t + 1, and follows y = eOrg.Sym.Onext.Sym on the loop of
      eOrg.Sym, whose label it takes. */
  lemma SplitFaceLabels(L: Lab, eOrg: int, t: int, y: int, lnext': seq<int>, lface': seq<int>)
    returns (cyc': map<int, seq<int>>)
    requires Valid(L) && eOrg in L.live && t in L.live && y in L.live
    requires eOrg != t && y != t && y != eOrg
    requires 0 <= eOrg < |L.succ| && 0 <= t < |L.succ| && 0 <= y < |L.succ|
    requires L.succ[eOrg] == t && L.lab[t] == L.lab[eOrg]
    requires L.lab[eOrg] != NIL ==> 0 <= L.lab[eOrg] < |L.anchor| && L.anchor[L.lab[eOrg]] != t
    requires lnext' == SwapSucc(SwapSucc(L.succ, y, eOrg), eOrg, t)
    requires lface' == L.lab[t := L.lab[y]]
    ensures Valid(L.(succ := lnext', lab := lface', cyc := cyc'))
  {
    cyc' := Move(L, L.lab[eOrg], L.lab[y], eOrg, t, y);
    SwapsMove(L.succ, y, eOrg, t);
    assert L.(succ := lnext', lab := lface', cyc := cyc', live := L.live)
        == L.(succ := lnext', lab := lface', cyc := cyc');
  }

  // ---------------------------------------------------------------------------
  // connect

  /** The Onext table after connect's first splice, of the fresh half
      e = |eNext| with eOrg.Lnext. */
  ghost function ConnOnext(m: Mesh, eOrg: int): seq<int>
    requires Shaped(m) && 0 <= eOrg < |m.lnext| && 0 <= m.lnext[eOrg] < |m.onext|
  {
    var e := |m.eNext|;
    SwapSucc(m.onext + [e, e + 1], e, m.lnext[eOrg])
  }

  /** The Lnext table after connect's first splice. */
  ghost function ConnLnext(m: Mesh, eOrg: int): seq<int>
    requires Shaped(m) && 0 <= eOrg < |m.lnext|
  {
    var e := |m.eNext|;
    SwapSucc(m.lnext + [e + 1, e], e + 1, eOrg)
  }

  /** The half-edge whose Lnext is eDst after the first splice: the second
      splice, of e + 1 with eDst, swaps its Lnext with that of e. */
  ghost function ConnPrev(m: Mesh, eOrg: int, eDst: int): int
    requires Shaped(m) && 0 <= eOrg < |m.lnext| && 0 <= m.lnext[eOrg] < |m.onext|
    requires 0 <= eDst < |m.onext|
  {
    Sym(ConnOnext(m, eOrg)[eDst])
  }

  /** connect(eOrg, eDst): a fresh edge eNew from eOrg.Dst to eDst.Org, so
      that eOrg.Lnext == eNew and eNew.Lnext == eDst. When eOrg and eDst have
      the same left face the loop splits, and eNew's part (which holds eOrg
      and eDst) is a fresh face; otherwise the two loops join and eDst's face
      is destroyed. eNew.Sym keeps eOrg's old face; no vertex is made or
      destroyed and no old half-edge changes origin. */
  method Connect(m: Mesh, ghost g: Shape, eOrg: int, eDst: int) returns (m': Mesh, eNew: int, ghost g': Shape)
    requires Inv(m, g) && eOrg in g.live && eDst in g.live
    requires m.lface[eOrg] != NIL && m.lface[eDst] != NIL
    ensures Inv(m', g')
    ensures eNew == |m.eNext| && Sym(eNew) == eNew + 1 && g'.live == g.live + {eNew, eNew + 1}
    ensures VertexCount(g') == VertexCount(g) && EdgeCount(g') == EdgeCount(g) + 1
    ensures FaceCount(g') == FaceCount(g) + (if m.lface[eDst] == m.lface[eOrg] then 1 else -1)
    ensures m'.lnext[eOrg] == eNew && m'.lnext[eNew] == eDst
    ensures m'.org[eNew] == Dst(m, eOrg) && Dst(m', eNew) == m.org[eDst]
    ensures forall z :: 0 <= z < |m.eNext| ==> m'.org[z] == m.org[z]
    ensures Rface(m', eNew) == m.lface[eOrg]
    ensures m.lface[eDst] == m.lface[eOrg] ==>
      m'.lface[eNew] == |m.fNext| && m'.lface[eOrg] == |m.fNext| && m'.lface[eDst] == |m.fNext|
    ensures m.lface[eDst] != m.lface[eOrg] ==>
      m'.lface[eNew] == m.lface[eOrg] && m'.lface[eDst] == m.lface[eOrg]
  {
    ghost var kf := ConnectReady(m, g, eOrg, eDst);
    ghost var cf := ConnectNewLoop(m, g, eOrg, eDst);
    ghost var fr';
    m', eNew, fr' := ConnectSteps(m, eOrg, eDst, g.ering, g.fring, kf, cf);
    g' := ConnectShape(m, g, eOrg, eDst, kf, cf, m', fr');
    ConnectLinks(m, eOrg, eDst, m'.lnext);
    ConnectOrigins(m, eOrg, eDst, m');
    ConnectFaceLinks(m, eOrg, eDst, g.fring, kf, cf, m', fr');
  }

  /** connect's links around the fresh pair: eOrg, e, eDst in Lnext order. */
  lemma ConnectLinks(m: Mesh, eOrg: int, eDst: int, lnext': seq<int>)
    requires Shaped(m) && 0 <= eOrg < |m.eNext| && 0 <= eDst < |m.eNext| && 0 <= m.lnext[eOrg] < |m.eNext|
    requires var e, y := |m.eNext|, ConnPrev(m, eOrg, eDst);
      && 0 <= y < e + 2 && y != e && y != eOrg && ConnLnext(m, eOrg)[y] == eDst
    requires lnext' == SwapSucc(ConnLnext(m, eOrg), |m.eNext|, ConnPrev(m, eOrg, eDst))
    ensures lnext'[eOrg] == |m.eNext| && lnext'[|m.eNext|] == eDst
  {
  }

  /** connect's origins: the fresh pair runs from eOrg.Dst to eDst.Org. */
  lemma ConnectOrigins(m: Mesh, eOrg: int, eDst: int, m': Mesh)
    requires Shaped(m) && 0 <= eOrg < |m.eNext| && 0 <= eDst < |m.eNext|
    requires var e := |m.eNext|; Shaped(m') && Sym(e) == e + 1
    requires m'.org == m.org + [Dst(m, eOrg), m.org[eDst]]
    ensures |m'.org| == |m.org| + 2
    ensures m'.org[|m.eNext|] == Dst(m, eOrg) && Dst(m', |m.eNext|) == m.org[eDst]
    ensures forall z :: 0 <= z < |m.eNext| ==> m'.org[z] == m.org[z]
  {
  }

  /** connect's faces around the fresh pair, and the count of faces. */
  lemma ConnectFaceLinks(m: Mesh, eOrg: int, eDst: int, fr: seq<int>,
                         kf: seq<int>, cf: seq<int>, m': Mesh, fr': seq<int>)
    requires Shaped(m) && 0 <= eOrg < |m.eNext| && 0 <= eDst < |m.eNext|
    requires var e := |m.eNext|; Shaped(m') && Sym(e) == e + 1
    requires var fo, fd := m.lface[eOrg], m.lface[eDst];
      fd != fo ==>
      && fd in fr && fr' == RemoveAt(fr, IndexOf(fr, fd))
      && Relabelled(m.lface + [fo, fo], m'.lface, kf, fo)
    requires var fo, fd := m.lface[eOrg], m.lface[eDst];
      fd == fo ==>
      && fo in fr && fr' == InsertAt(fr, IndexOf(fr, fo), |m.fNext|)
      && Relabelled(m.lface + [fo, fo], m'.lface, cf, |m.fNext|)
    requires m.lface[eDst] != m.lface[eOrg] ==>
      (forall z :: z in kf ==> 0 <= z < |m.eNext|) && eOrg !in kf && eDst in kf
    requires m.lface[eDst] == m.lface[eOrg] ==>
      |cf| > 0 && cf[0] == |m.eNext| && eOrg in cf && eDst in cf && |m.eNext| + 1 !in cf
    ensures |fr'| == |fr| + (if m.lface[eDst] == m.lface[eOrg] then 1 else -1)
    ensures Rface(m', |m.eNext|) == m.lface[eOrg]
    ensures var e := |m.eNext|;
      m.lface[eDst] == m.lface[eOrg] ==>
      m'.lface[e] == |m.fNext| && m'.lface[eOrg] == |m.fNext| && m'.lface[eDst] == |m.fNext|
    ensures var e := |m.eNext|;
      m.lface[eDst] != m.lface[eOrg] ==> m'.lface[e] == m.lface[eOrg] && m'.lface[eDst] == m.lface[eOrg]
  {
    var e := |m.eNext|;
    if m.lface[eDst] != m.lface[eOrg] {
      assert e + 1 !in kf by {
        if e + 1 in kf { assert false; }
      }
    }
  }

  /** What connect's steps need of the mesh, read from the invariant; kf is
      eDst's face loop from its anchor, destroyed when the faces differ. */
  lemma ConnectReady(m: Mesh, g: Shape, eOrg: int, eDst: int) returns (kf: seq<int>)
    requires Inv(m, g) && eOrg in g.live && eDst in g.live
    requires m.lface[eOrg] != NIL && m.lface[eDst] != NIL
    ensures Shaped(m) && IsEdgeRing(m.eNext, g.ering) && IsRing(m.fNext, m.fPrev, g.fring)
    ensures 2 <= eOrg < |m.eNext| && 2 <= eDst < |m.eNext| && First(eOrg) in g.ering
    ensures 0 <= m.lnext[eOrg] < |m.eNext| && m.onext[m.lnext[eOrg]] == Sym(eOrg)
    ensures 0 <= Sym(eOrg) < |m.eNext| && Sym(Sym(eOrg)) == eOrg
    ensures 0 <= Dst(m, eOrg) && Dst(m, eOrg) in g.vring
    ensures var e := |m.eNext|; var y := ConnPrev(m, eOrg, eDst);
      && 0 <= ConnOnext(m, eOrg)[eDst] < e + 2 && 0 <= y < e + 2 && y != e && y != eOrg
      && ConnLnext(m, eOrg)[y] == eDst && (y in g.live || y == e + 1)
      && (m.lface + [m.lface[eOrg], m.lface[eOrg]])[y] == m.lface[eDst]
    ensures var fo := m.lface[eOrg]; 0 < fo < |m.fNext| && fo in g.fring && fo in g.fcyc
    ensures var fd := m.lface[eDst]; 0 < fd < |m.fNext| && fd in g.fring && fd in g.fcyc
    ensures m.lface[eDst] != m.lface[eOrg] ==>
      && IsCycle(m.lnext + [|m.eNext| + 1, |m.eNext|], kf) && kf[0] == m.fEdge[m.lface[eDst]]
      && (forall z :: z in kf <==> z in g.fcyc[m.lface[eDst]])
      && (forall z :: z in kf ==> 0 <= z < |m.eNext|) && eOrg !in kf && eDst in kf
    ensures Shaped(m) && 2 <= eOrg < |m.eNext| && 2 <= eDst < |m.eNext|
    ensures 0 <= m.lnext[eOrg] < |m.eNext| && m.onext[m.lnext[eOrg]] == Sym(eOrg)
    ensures 0 <= Sym(eOrg) < |m.eNext| && Sym(Sym(eOrg)) == eOrg
    ensures var e, y := |m.eNext|, ConnPrev(m, eOrg, eDst);
      && 0 <= ConnOnext(m, eOrg)[eDst] < e + 2 && 0 <= y < e + 2 && y != e && y != eOrg
      && ConnLnext(m, eOrg)[y] == eDst
    ensures 0 < m.lface[eOrg] < |m.fNext| && 0 < m.lface[eDst] < |m.fNext|
    ensures forall z :: z in g.live ==> 0 <= z < |m.eNext|
  {
    AevReady(m, g, eOrg);
    LiveListed(m, g, eDst);
    ConnectPrevFace(m, g, eOrg, eDst);
    LiveFace(m, g, eOrg);
    LiveFace(m, g, eDst);
    kf := [];
    if m.lface[eDst] != m.lface[eOrg] {
      kf := ConnectKillLoop(m, g, m.lface[eDst]);
    }
  }

  /** Where the half-edge whose Lnext is eDst after the first splice comes
      from: the fresh e + 1 when eDst is eOrg.Lnext, else eDst's old Lnext
      predecessor eDst.Onext.Sym. */
  lemma ConnectPrev(m: Mesh, S: set<int>, eOrg: int, eDst: int)
    requires Shaped(m) && Algebra(m.onext, m.lnext, S) && eOrg in S && eDst in S
    requires forall z :: z in S ==> 0 <= z < |m.eNext|
    ensures 0 <= eOrg < |m.lnext| && 0 <= m.lnext[eOrg] < |m.onext| && 0 <= eDst < |m.onext|
    ensures var e := |m.eNext|; var y := ConnPrev(m, eOrg, eDst);
      && 0 <= ConnOnext(m, eOrg)[eDst] < e + 2 && 0 <= y < e + 2 && y != e && y != eOrg
      && ConnLnext(m, eOrg)[y] == eDst
      && (eDst == m.lnext[eOrg] ==> y == e + 1)
      && (eDst != m.lnext[eOrg] ==> y in S && m.lnext[y] == eDst)
  {
    var e := |m.eNext|;
    assert EdgeOk(m.onext, m.lnext, S, eOrg) && EdgeOk(m.onext, m.lnext, S, eDst);
    var o1 := ConnOnext(m, eOrg);
    if eDst == m.lnext[eOrg] {
      assert o1[eDst] == e;
    } else {
      assert o1[eDst] == m.onext[eDst];
      var y := Sym(m.onext[eDst]);
      assert EdgeOk(m.onext, m.lnext, S, m.onext[eDst]);
      assert y != eOrg;
    }
  }

  /** The face of that half-edge, after the first splice, is eDst's. */
  lemma ConnectPrevFace(m: Mesh, g: Shape, eOrg: int, eDst: int)
    requires Inv(m, g) && eOrg in g.live && eDst in g.live
    ensures 0 <= eOrg < |m.lnext| && 0 <= m.lnext[eOrg] < |m.onext| && 0 <= eDst < |m.onext|
    ensures var e := |m.eNext|; var y := ConnPrev(m, eOrg, eDst);
      && 0 <= ConnOnext(m, eOrg)[eDst] < e + 2 && 0 <= y < e + 2 && y != e && y != eOrg
      && ConnLnext(m, eOrg)[y] == eDst && (y in g.live || y == e + 1)
      && (m.lface + [m.lface[eOrg], m.lface[eOrg]])[y] == m.lface[eDst]
  {
    assert forall z :: z in g.live ==> 0 <= z < |m.eNext|;
    ConnectPrev(m, g.live, eOrg, eDst);
    var y := ConnPrev(m, eOrg, eDst);
    if eDst == m.lnext[eOrg] {
      LnextSameFace(m, g, eOrg);
    } else {
      LnextSameFace(m, g, y);
    }
  }

  /** The face loop of fd read from its anchor, in the tables grown by a
      fresh pair: what killFace walks. */
  lemma ConnectKillLoop(m: Mesh, g: Shape, fd: int) returns (kf: seq<int>)
    requires Inv(m, g) && fd in g.fring && fd != 0
    ensures fd in g.fcyc && 0 <= fd < |m.fEdge|
    ensures IsCycle(m.lnext + [|m.eNext| + 1, |m.eNext|], kf) && kf[0] == m.fEdge[fd]
    ensures forall z :: z in kf <==> z in g.fcyc[fd]
    ensures forall z :: z in kf ==> 0 <= z < |m.eNext| && m.lface[z] == fd
  {
    var e := |m.eNext|;
    FaceLoop(m, g, fd);
    kf := RotateTo(g.fcyc[fd], m.fEdge[fd]);
    CycleGrown(m.lnext, [e + 1, e], kf);
  }

  /** A cycle stays a cycle when the table grows. */
  lemma CycleGrown(succ: seq<int>, t: seq<int>, c: seq<int>)
    requires IsCycle(succ, c)
    ensures IsCycle(succ + t, c)
  {
    forall i | 0 <= i < |c| ensures 0 <= c[i] < |succ + t| && (succ + t)[c[i]] == succ[c[i]] {
    }
    CycleKept(succ, succ + t, c);
  }

  /** The loop that becomes connect's fresh face when eOrg and eDst share
      their left face: the part of the split loop through e. */
  lemma ConnectNewLoop(m: Mesh, g: Shape, eOrg: int, eDst: int) returns (cf: seq<int>)
    requires Shaped(m) && Valid(FLab(m, g)) && forall z :: z in g.live ==> 0 <= z < |m.eNext|
    requires eOrg in g.live && m.lface[eOrg] != NIL
    requires Shaped(m) && 2 <= eOrg < |m.eNext| && 2 <= eDst < |m.eNext|
    requires 0 <= m.lnext[eOrg] < |m.eNext| && m.onext[m.lnext[eOrg]] == Sym(eOrg)
    requires 0 <= Sym(eOrg) < |m.eNext| && Sym(Sym(eOrg)) == eOrg
    requires var e, y := |m.eNext|, ConnPrev(m, eOrg, eDst);
      && 0 <= ConnOnext(m, eOrg)[eDst] < e + 2 && 0 <= y < e + 2 && y != e && y != eOrg
      && ConnLnext(m, eOrg)[y] == eDst
    requires 0 < m.lface[eOrg] < |m.fNext| && 0 < m.lface[eDst] < |m.fNext|
    requires var y := ConnPrev(m, eOrg, eDst);
      && (y in g.live || y == |m.eNext| + 1)
      && (m.lface + [m.lface[eOrg], m.lface[eOrg]])[y] == m.lface[eDst]
    ensures m.lface[eDst] == m.lface[eOrg] ==>
      && IsCycle(SwapSucc(ConnLnext(m, eOrg), |m.eNext|, ConnPrev(m, eOrg, eDst)), cf) && cf[0] == |m.eNext|
      && eOrg in cf && eDst in cf && |m.eNext| + 1 !in cf
  {
    var e := |m.eNext|;
    var L := FLab(m, g);
    assert L.succ == m.lnext && L.lab == m.lface;
    assert ConnLnext(m, eOrg) == SwapSucc(L.succ + [e + 1, e], e + 1, eOrg);
    cf := ConnectSplitLoop(L, e, eOrg, eDst, ConnPrev(m, eOrg, eDst));
  }

  /** The same on the face labels: after the absorb, e and y lie on one
      loop when eOrg and eDst share their label, and the swap of their
      successors leaves the loop through e. */
  lemma ConnectSplitLoop(L: Lab, e: int, eOrg: int, eDst: int, y: int) returns (cf: seq<int>)
    requires Valid(L) && L.nilOk && e == |L.succ|
    requires forall z :: z in L.live ==> z < e
    requires eOrg in L.live && 0 <= eOrg < e && 0 <= eDst < e && L.lab[eOrg] != NIL
    requires 0 <= y < e + 2 && y != e && (y in L.live || y == e + 1)
    requires (L.lab + [L.lab[eOrg], L.lab[eOrg]])[y] == L.lab[eDst]
    requires SwapSucc(L.succ + [e + 1, e], e + 1, eOrg)[y] == eDst
    ensures L.lab[eDst] == L.lab[eOrg] ==>
      && IsCycle(SwapSucc(SwapSucc(L.succ + [e + 1, e], e + 1, eOrg), e, y), cf) && cf[0] == e
      && eOrg in cf && eDst in cf && e + 1 !in cf
  {
    cf := [e];
    if L.lab[eDst] == L.lab[eOrg] {
      var fo := L.lab[eOrg];
      var L1 := ConnectFaceAbsorb(L, e, eOrg);
      assert CoverAt(L1, e) && CoverAt(L1, y);
      assert CycleOk(L1, fo);
      assert CoverAt(L1, eOrg);
      cf := SplitLoopHalf(L1.succ, L1.cyc[fo], e, y, eOrg);
    }
  }

  /** The loop through e that a swap of the successors of e and y leaves:
      it keeps e's predecessor p and y's old successor, not e's. */
  lemma SplitLoopHalf(succ: seq<int>, c: seq<int>, e: int, y: int, p: int) returns (h: seq<int>)
    requires IsCycle(succ, c) && e in c && y in c && p in c && e != y && p != y
    requires 0 <= p < |succ| && succ[p] == e
    ensures 0 <= e < |succ| && 0 <= y < |succ|
    ensures IsCycle(SwapSucc(succ, e, y), h) && h[0] == e
    ensures p in h && succ[y] in h && succ[e] !in h
  {
    SwapHalves(succ, c, e, y);
    PredInFirstHalf(succ, c, e, y, p);
    h := Halves(c, e, y).0;
  }

  /** The steps of connect on the tables: MakeEdge, the destruction of eDst's
      face when the loops differ, the two splices, the origins and faces of
      the fresh pair, and the fresh face when the loop splits. */
  method ConnectSteps(m: Mesh, eOrg: int, eDst: int, ghost er: seq<int>, ghost fr: seq<int>,
                      ghost kf: seq<int>, ghost cf: seq<int>) returns (m': Mesh, e: int, ghost fr': seq<int>)
    requires Shaped(m) && 2 <= eOrg < |m.eNext| && 2 <= eDst < |m.eNext|
    requires 0 <= m.lnext[eOrg] < |m.eNext| && m.onext[m.lnext[eOrg]] == Sym(eOrg)
    requires 0 <= Sym(eOrg) < |m.eNext| && Sym(Sym(eOrg)) == eOrg
    requires var e, y := |m.eNext|, ConnPrev(m, eOrg, eDst);
      && 0 <= ConnOnext(m, eOrg)[eDst] < e + 2 && 0 <= y < e + 2 && y != e && y != eOrg
      && ConnLnext(m, eOrg)[y] == eDst
    requires 0 < m.lface[eOrg] < |m.fNext| && 0 < m.lface[eDst] < |m.fNext|
    requires IsEdgeRing(m.eNext, er) && First(eOrg) in er
    requires IsRing(m.fNext, m.fPrev, fr) && m.lface[eOrg] in fr && m.lface[eDst] in fr
    requires m.lface[eDst] != m.lface[eOrg] ==>
      && IsCycle(m.lnext + [|m.eNext| + 1, |m.eNext|], kf) && kf[0] == m.fEdge[m.lface[eDst]]
      && (forall z :: z in kf ==> 0 <= z < |m.eNext|) && eOrg !in kf
    requires m.lface[eDst] == m.lface[eOrg] ==>
      IsCycle(SwapSucc(ConnLnext(m, eOrg), |m.eNext|, ConnPrev(m, eOrg, eDst)), cf) && cf[0] == |m.eNext|
    ensures e == |m.eNext|
    ensures var e := |m.eNext|; Shaped(m') && Sym(e) == e + 1 && First(eOrg) in er
    ensures IsEdgeRing(m'.eNext, InsertAt(er, IndexOf(er, First(eOrg)), |m.eNext|))
    ensures m'.onext == SwapSucc(ConnOnext(m, eOrg), |m.eNext| + 1, eDst)
    ensures m'.lnext == SwapSucc(ConnLnext(m, eOrg), |m.eNext|, ConnPrev(m, eOrg, eDst))
    ensures m'.org == m.org + [Dst(m, eOrg), m.org[eDst]]
    ensures m'.vNext == m.vNext && m'.vPrev == m.vPrev && m'.vEdge == m.vEdge
    ensures IsRing(m'.fNext, m'.fPrev, fr')
    ensures var e, fo, fd := |m.eNext|, m.lface[eOrg], m.lface[eDst];
      fd != fo ==>
      && fd in fr && fr' == RemoveAt(fr, IndexOf(fr, fd))
      && Relabelled(m.lface + [fo, fo], m'.lface, kf, fo)
      && m'.fEdge == m.fEdge[fo := e + 1]
    ensures var e, fo, fd := |m.eNext|, m.lface[eOrg], m.lface[eDst];
      fd == fo ==>
      && fo in fr && fr' == InsertAt(fr, IndexOf(fr, fo), |m.fNext|)
      && Relabelled(m.lface + [fo, fo], m'.lface, cf, |m.fNext|)
      && m'.fEdge == (m.fEdge + [e])[fo := e + 1]
  {
    if m.lface[eDst] != m.lface[eOrg] {
      m', e, fr' := ConnectJoinSteps(m, eOrg, eDst, er, fr, kf);
    } else {
      m', e, fr' := ConnectSplitSteps(m, eOrg, eDst, er, fr, cf);
    }
  }

  /** connect's steps when eOrg and eDst lie on two loops: eDst's face dies. */
  method ConnectJoinSteps(m: Mesh, eOrg: int, eDst: int, ghost er: seq<int>, ghost fr: seq<int>,
                          ghost kf: seq<int>) returns (m': Mesh, e: int, ghost fr': seq<int>)
    requires Shaped(m) && 2 <= eOrg < |m.eNext| && 2 <= eDst < |m.eNext|
    requires 0 <= m.lnext[eOrg] < |m.eNext| && m.onext[m.lnext[eOrg]] == Sym(eOrg)
    requires 0 <= Sym(eOrg) < |m.eNext| && Sym(Sym(eOrg)) == eOrg
    requires var e, y := |m.eNext|, ConnPrev(m, eOrg, eDst);
      && 0 <= ConnOnext(m, eOrg)[eDst] < e + 2 && 0 <= y < e + 2 && y != e && y != eOrg
      && ConnLnext(m, eOrg)[y] == eDst
    requires 0 < m.lface[eOrg] < |m.fNext| && 0 < m.lface[eDst] < |m.fNext|
    requires IsEdgeRing(m.eNext, er) && First(eOrg) in er
    requires IsRing(m.fNext, m.fPrev, fr) && m.lface[eOrg] in fr && m.lface[eDst] in fr
    requires m.lface[eDst] != m.lface[eOrg]
    requires IsCycle(m.lnext + [|m.eNext| + 1, |m.eNext|], kf) && kf[0] == m.fEdge[m.lface[eDst]]
    requires (forall z :: z in kf ==> 0 <= z < |m.eNext|) && eOrg !in kf
    ensures e == |m.eNext|
    ensures var e := |m.eNext|; Shaped(m') && Sym(e) == e + 1 && First(eOrg) in er
    ensures IsEdgeRing(m'.eNext, InsertAt(er, IndexOf(er, First(eOrg)), |m.eNext|))
    ensures m'.onext == SwapSucc(ConnOnext(m, eOrg), |m.eNext| + 1, eDst)
    ensures m'.lnext == SwapSucc(ConnLnext(m, eOrg), |m.eNext|, ConnPrev(m, eOrg, eDst))
    ensures m'.org == m.org + [Dst(m, eOrg), m.org[eDst]]
    ensures m'.vNext == m.vNext && m'.vPrev == m.vPrev && m'.vEdge == m.vEdge
    ensures IsRing(m'.fNext, m'.fPrev, fr')
    ensures var fo, fd := m.lface[eOrg], m.lface[eDst];
      && fd in fr && fr' == RemoveAt(fr, IndexOf(fr, fd))
      && Relabelled(m.lface + [fo, fo], m'.lface, kf, fo)
      && m'.fEdge == m.fEdge[fo := |m.eNext| + 1]
  {
    var m2;
    m2, e, fr' := ConnectMakeKill(m, eOrg, eDst, er, fr, kf);
    m' := ConnectJoinTail(m, m2, eOrg, eDst, fr', kf);
  }

  /** The splices and links of connect, after eDst's face is killed. */
  method ConnectJoinTail(m: Mesh, m2: Mesh, eOrg: int, eDst: int, ghost fr2: seq<int>, ghost kf: seq<int>)
    returns (m': Mesh)
    requires Shaped(m) && 2 <= eOrg < |m.eNext| && 2 <= eDst < |m.eNext|
    requires 0 <= m.lnext[eOrg] < |m.eNext| && m.onext[m.lnext[eOrg]] == Sym(eOrg)
    requires 0 <= Sym(eOrg) < |m.eNext| && Sym(Sym(eOrg)) == eOrg
    requires var e, y := |m.eNext|, ConnPrev(m, eOrg, eDst);
      && 0 <= ConnOnext(m, eOrg)[eDst] < e + 2 && 0 <= y < e + 2
      && ConnLnext(m, eOrg)[y] == eDst
    requires 0 < m.lface[eOrg] < |m.fNext| && m.lface[eDst] != m.lface[eOrg] && eOrg !in kf
    requires var e := |m.eNext|; Shaped(m2) && Sym(e) == e + 1
    requires m2.onext == m.onext + [|m.eNext|, |m.eNext| + 1]
    requires m2.lnext == m.lnext + [|m.eNext| + 1, |m.eNext|]
    requires m2.org == m.org + [NIL, NIL]
    requires m2.vNext == m.vNext && m2.vPrev == m.vPrev && m2.vEdge == m.vEdge && m2.fEdge == m.fEdge
    requires IsRing(m2.fNext, m2.fPrev, fr2) && m.lface[eOrg] in fr2
    requires Relabelled(m.lface + [NIL, NIL], m2.lface, kf, m.lface[eOrg])
    ensures Shaped(m') && m'.eNext == m2.eNext
    ensures m'.onext == SwapSucc(ConnOnext(m, eOrg), |m.eNext| + 1, eDst)
    ensures m'.lnext == SwapSucc(ConnLnext(m, eOrg), |m.eNext|, ConnPrev(m, eOrg, eDst))
    ensures m'.org == m.org + [Dst(m, eOrg), m.org[eDst]]
    ensures m'.vNext == m.vNext && m'.vPrev == m.vPrev && m'.vEdge == m.vEdge
    ensures IsRing(m'.fNext, m'.fPrev, fr2)
    ensures var fo := m.lface[eOrg];
      && Relabelled(m.lface + [fo, fo], m'.lface, kf, fo)
      && m'.fEdge == m.fEdge[fo := |m.eNext| + 1]
  {
    var fo := m.lface[eOrg];
    assert m2.lface[eOrg] == fo;
    m' := ConnectTail(m, m2, eOrg, eDst, [], fr2);
    ConnectKilledFaces(m.lface, m2.lface, m'.lface, kf, fo);
  }

  /** connect's steps when eOrg and eDst share a loop: it splits, and the
      part cf through the fresh edge becomes a fresh face. */
  method ConnectSplitSteps(m: Mesh, eOrg: int, eDst: int, ghost er: seq<int>, ghost fr: seq<int>,
                           ghost cf: seq<int>) returns (m': Mesh, e: int, ghost fr': seq<int>)
    requires Shaped(m) && 2 <= eOrg < |m.eNext| && 2 <= eDst < |m.eNext|
    requires 0 <= m.lnext[eOrg] < |m.eNext| && m.onext[m.lnext[eOrg]] == Sym(eOrg)
    requires 0 <= Sym(eOrg) < |m.eNext| && Sym(Sym(eOrg)) == eOrg
    requires var e, y := |m.eNext|, ConnPrev(m, eOrg, eDst);
      && 0 <= ConnOnext(m, eOrg)[eDst] < e + 2 && 0 <= y < e + 2 && y != e && y != eOrg
      && ConnLnext(m, eOrg)[y] == eDst
    requires 0 < m.lface[eOrg] < |m.fNext| && 0 < m.lface[eDst] < |m.fNext|
    requires IsEdgeRing(m.eNext, er) && First(eOrg) in er
    requires IsRing(m.fNext, m.fPrev, fr) && m.lface[eOrg] in fr && m.lface[eDst] in fr
    requires m.lface[eDst] == m.lface[eOrg]
    requires IsCycle(SwapSucc(ConnLnext(m, eOrg), |m.eNext|, ConnPrev(m, eOrg, eDst)), cf) && cf[0] == |m.eNext|
    ensures e == |m.eNext|
    ensures var e := |m.eNext|; Shaped(m') && Sym(e) == e + 1 && First(eOrg) in er
    ensures IsEdgeRing(m'.eNext, InsertAt(er, IndexOf(er, First(eOrg)), |m.eNext|))
    ensures m'.onext == SwapSucc(ConnOnext(m, eOrg), |m.eNext| + 1, eDst)
    ensures m'.lnext == SwapSucc(ConnLnext(m, eOrg), |m.eNext|, ConnPrev(m, eOrg, eDst))
    ensures m'.org == m.org + [Dst(m, eOrg), m.org[eDst]]
    ensures m'.vNext == m.vNext && m'.vPrev == m.vPrev && m'.vEdge == m.vEdge
    ensures IsRing(m'.fNext, m'.fPrev, fr')
    ensures var fo := m.lface[eOrg];
      && fo in fr && fr' == InsertAt(fr, IndexOf(fr, fo), |m.fNext|)
      && Relabelled(m.lface + [fo, fo], m'.lface, cf, |m.fNext|)
      && m'.fEdge == (m.fEdge + [|m.eNext|])[fo := |m.eNext| + 1]
  {
    var fo := m.lface[eOrg];
    var m2;
    ghost var fr2;
    m2, e, fr2 := ConnectMakeKill(m, eOrg, eDst, er, fr, []);
    m' := ConnectTail(m, m2, eOrg, eDst, cf, fr2);
    fr' := InsertAt(fr2, IndexOf(fr2, fo), |m2.fNext|);
    FillPair(m.lface, fo, fo);
    assert m2.lface[e := fo][e + 1 := fo] == m.lface + [fo, fo];
  }

  /** connect's splices and last steps, after MakeEdge and the face kill. */
  method ConnectTail(m: Mesh, m2: Mesh, eOrg: int, eDst: int, ghost cf: seq<int>, ghost fr: seq<int>)
    returns (m': Mesh)
    requires Shaped(m) && Shaped(m2) && |m2.onext| == |m.onext| + 2 && Sym(|m.onext|) == |m.onext| + 1
    requires 2 <= eOrg < |m.eNext| && 2 <= eDst < |m.eNext|
    requires 0 <= m.lnext[eOrg] < |m.eNext| && m.onext[m.lnext[eOrg]] == Sym(eOrg)
    requires 0 <= Sym(eOrg) < |m.eNext| && Sym(Sym(eOrg)) == eOrg
    requires m2.onext == m.onext + [|m.onext|, |m.onext| + 1]
    requires m2.lnext == m.lnext + [|m.onext| + 1, |m.onext|]
    requires m2.org == m.org + [NIL, NIL]
    requires var y := ConnPrev(m, eOrg, eDst);
      && 0 <= ConnOnext(m, eOrg)[eDst] < |m.eNext| + 2 && 0 <= y < |m.eNext| + 2
      && ConnLnext(m, eOrg)[y] == eDst
    requires var fo := m2.lface[eOrg]; 0 < fo < |m2.fNext| && fo in fr && IsRing(m2.fNext, m2.fPrev, fr)
    requires m.lface[eDst] == m.lface[eOrg] ==>
      IsCycle(SwapSucc(ConnLnext(m, eOrg), |m.eNext|, ConnPrev(m, eOrg, eDst)), cf) && cf[0] == |m.eNext|
    ensures Shaped(m') && m'.eNext == m2.eNext
    ensures m'.onext == SwapSucc(ConnOnext(m, eOrg), |m.onext| + 1, eDst)
    ensures m'.lnext == SwapSucc(ConnLnext(m, eOrg), |m.onext|, ConnPrev(m, eOrg, eDst))
    ensures m'.org == m.org + [Dst(m, eOrg), m.org[eDst]]
    ensures m'.vNext == m2.vNext && m'.vPrev == m2.vPrev && m'.vEdge == m2.vEdge
    ensures var e, fo := |m.onext|, m2.lface[eOrg];
      m.lface[eDst] != m.lface[eOrg] ==>
      && m'.fNext == m2.fNext && m'.fPrev == m2.fPrev
      && m'.lface == m2.lface[e := fo][e + 1 := fo] && m'.fEdge == m2.fEdge[fo := e + 1]
    ensures var e, fo := |m.onext|, m2.lface[eOrg];
      m.lface[eDst] == m.lface[eOrg] ==>
      && IsRing(m'.fNext, m'.fPrev, InsertAt(fr, IndexOf(fr, fo), |m2.fNext|))
      && Relabelled(m2.lface[e := fo][e + 1 := fo], m'.lface, cf, |m2.fNext|)
      && m'.fEdge == (m2.fEdge + [e])[fo := e + 1]
  {
    var m4 := ConnectSplices(m, m2, eOrg, eDst);
    m' := ConnectFinish(m4, eOrg, eDst, |m.onext|, m2.lface[eOrg], m.lface[eDst] != m.lface[eOrg], cf, fr);
    assert Dst(m4, eOrg) == Dst(m, eOrg);
    FillPair(m.org, Dst(m, eOrg), m.org[eDst]);
  }

  /** connect's two splices: the fresh edge joins eOrg.Dst after eOrg.Lnext,
      then eDst.Org at eDst. */
  method ConnectSplices(m: Mesh, m2: Mesh, eOrg: int, eDst: int) returns (m4: Mesh)
    requires Shaped(m) && Shaped(m2) && |m2.onext| == |m.onext| + 2 && Sym(|m.onext|) == |m.onext| + 1
    requires 2 <= eOrg < |m.eNext| && 2 <= eDst < |m.eNext|
    requires 0 <= m.lnext[eOrg] < |m.eNext| && m.onext[m.lnext[eOrg]] == Sym(eOrg)
    requires 0 <= Sym(eOrg) < |m.eNext| && Sym(Sym(eOrg)) == eOrg
    requires m2.onext == m.onext + [|m.onext|, |m.onext| + 1]
    requires m2.lnext == m.lnext + [|m.onext| + 1, |m.onext|]
    requires var y := ConnPrev(m, eOrg, eDst);
      && 0 <= ConnOnext(m, eOrg)[eDst] < |m.eNext| + 2 && 0 <= y < |m.eNext| + 2
      && ConnLnext(m, eOrg)[y] == eDst
    ensures m4 == m2.(onext := SwapSucc(ConnOnext(m, eOrg), |m.onext| + 1, eDst),
                      lnext := SwapSucc(ConnLnext(m, eOrg), |m.onext|, ConnPrev(m, eOrg, eDst)))
  {
    var e, b := |m.onext|, m.lnext[eOrg];
    SpliceIsSwap(m2, e, b);
    var m3 := Splice(m2, e, b);
    assert m3.onext == ConnOnext(m, eOrg) && m3.lnext == ConnLnext(m, eOrg);
    SpliceIsSwap(m3, e + 1, eDst);
    m4 := Splice(m3, e + 1, eDst);
  }

  /** The faces after connect joins two loops: the killed loop and the fresh
      pair carry eOrg's face, everything else keeps its own. */
  lemma ConnectKilledFaces(lface: seq<int>, lface2: seq<int>, lface': seq<int>, kf: seq<int>, fo: int)
    requires Relabelled(lface + [NIL, NIL], lface2, kf, fo)
    requires lface' == lface2[|lface| := fo][|lface| + 1 := fo]
    ensures Relabelled(lface + [fo, fo], lface', kf, fo)
  {
    forall z | 0 <= z < |lface| + 2
      ensures lface'[z] == if z in kf then fo else (lface + [fo, fo])[z]
    {
      if z < |lface| { assert lface'[z] == lface2[z]; }
    }
  }

  /** The two appended nil slots filled in. */
  lemma FillPair(s: seq<int>, a: int, b: int)
    ensures (s + [NIL, NIL])[|s| := a][|s| + 1 := b] == s + [a, b]
  {
  }

  /** connect's first steps: MakeEdge, then the destruction of eDst's face
      (its loop relabelled with eOrg's face) when the two faces differ. */
  method ConnectMakeKill(m: Mesh, eOrg: int, eDst: int, ghost er: seq<int>, ghost fr: seq<int>,
                         ghost kf: seq<int>) returns (m2: Mesh, e: int, ghost fr': seq<int>)
    requires Shaped(m) && IsEdgeRing(m.eNext, er) && IsRing(m.fNext, m.fPrev, fr)
    requires 0 <= eOrg < |m.eNext| && 0 <= eDst < |m.eNext| && First(eOrg) in er
    requires m.lface[eOrg] in fr
    requires m.lface[eDst] != m.lface[eOrg] ==>
      && m.lface[eDst] in fr && 0 < m.lface[eDst] < |m.fNext|
      && IsCycle(m.lnext + [|m.eNext| + 1, |m.eNext|], kf) && kf[0] == m.fEdge[m.lface[eDst]]
    ensures e == |m.eNext| && Shaped(m2) && Sym(e) == e + 1
    ensures IsEdgeRing(m2.eNext, InsertAt(er, IndexOf(er, First(eOrg)), e))
    ensures m2.onext == m.onext + [e, e + 1] && m2.lnext == m.lnext + [e + 1, e]
    ensures m2.org == m.org + [NIL, NIL]
    ensures m2.vNext == m.vNext && m2.vPrev == m.vPrev && m2.vEdge == m.vEdge && m2.fEdge == m.fEdge
    ensures m.lface[eDst] != m.lface[eOrg] ==>
      && IsRing(m2.fNext, m2.fPrev, RemoveAt(fr, IndexOf(fr, m.lface[eDst])))
      && Relabelled(m.lface + [NIL, NIL], m2.lface, kf, m.lface[eOrg])
    ensures m.lface[eDst] == m.lface[eOrg] ==>
      m2.fNext == m.fNext && m2.fPrev == m.fPrev && m2.lface == m.lface + [NIL, NIL]
    ensures IsRing(m2.fNext, m2.fPrev, fr') && m.lface[eOrg] in fr'
    ensures fr' == if m.lface[eDst] != m.lface[eOrg] then RemoveAt(fr, IndexOf(fr, m.lface[eDst])) else fr
  {
    var m1;
    m1, e := MakeEdge(m, eOrg, er);
    m2 := m1;
    if m.lface[eDst] != m.lface[eOrg] {
      // two disjoint loops are connected: eDst's face is destroyed
      m2 := KillFace(m1, m.lface[eDst], m.lface[eOrg], kf, fr);
      fr' := RemoveAt(fr, IndexOf(fr, m.lface[eDst]));
      RemoveAtContents(fr, IndexOf(fr, m.lface[eDst]));
    } else {
      fr' := fr;
    }
  }

  /** connect's last steps: the origins and faces of the fresh pair, the old
      face anchored at e + 1, and the fresh face when the loop splits. */
  method ConnectFinish(m: Mesh, eOrg: int, eDst: int, e: int, fo: int, joiningLoops: bool,
                       ghost cf: seq<int>, ghost fr: seq<int>) returns (m': Mesh)
    requires Shaped(m) && 0 <= eOrg < e && 0 <= eDst < e && e + 1 < |m.eNext| && Sym(e) == e + 1
    requires m.lface[eOrg] == fo && 0 < fo < |m.fNext| && fo in fr && IsRing(m.fNext, m.fPrev, fr)
    requires !joiningLoops ==> IsCycle(m.lnext, cf) && cf[0] == e
    ensures Shaped(m') && m'.eNext == m.eNext && m'.onext == m.onext && m'.lnext == m.lnext
    ensures m'.vNext == m.vNext && m'.vPrev == m.vPrev && m'.vEdge == m.vEdge
    ensures m'.org == m.org[e := Dst(m, eOrg)][e + 1 := m.org[eDst]]
    ensures joiningLoops ==>
      && m'.fNext == m.fNext && m'.fPrev == m.fPrev
      && m'.lface == m.lface[e := fo][e + 1 := fo] && m'.fEdge == m.fEdge[fo := e + 1]
    ensures !joiningLoops ==>
      && IsRing(m'.fNext, m'.fPrev, InsertAt(fr, IndexOf(fr, fo), |m.fNext|))
      && Relabelled(m.lface[e := fo][e + 1 := fo], m'.lface, cf, |m.fNext|)
      && m'.fEdge == (m.fEdge + [e])[fo := e + 1]
  {
    var m5 := m.(org := m.org[e := Dst(m, eOrg)][e + 1 := m.org[eDst]]);
    var m6 := m5.(lface := m5.lface[e := m5.lface[eOrg]][e + 1 := m5.lface[eOrg]]);
    // the old face is anchored at the fresh pair's second half
    m' := m6.(fEdge := m6.fEdge[m6.lface[eOrg] := e + 1]);
    if !joiningLoops {
      // one loop becomes two: eNew's part is a fresh face
      var m7 := m';
      var fNew;
      m', fNew := MakeFace(m7, e, m7.lface[eOrg], cf, fr);
      assert m'.fEdge == (m.fEdge + [e])[fo := e + 1];
    }
  }

  /** The shape after connect, from the tables its steps leave. */
  lemma ConnectShape(m: Mesh, g: Shape, eOrg: int, eDst: int, kf: seq<int>, cf: seq<int>,
                     m': Mesh, fr': seq<int>) returns (g': Shape)
    requires Inv(m, g) && eOrg in g.live && eDst in g.live
    requires m.lface[eOrg] != NIL && m.lface[eDst] != NIL
    requires Shaped(m) && 2 <= eOrg < |m.eNext| && 2 <= eDst < |m.eNext|
    requires 0 <= m.lnext[eOrg] < |m.eNext| && m.onext[m.lnext[eOrg]] == Sym(eOrg)
    requires 0 <= Sym(eOrg) < |m.eNext| && Sym(Sym(eOrg)) == eOrg
    requires var e, y := |m.eNext|, ConnPrev(m, eOrg, eDst);
      && 0 <= ConnOnext(m, eOrg)[eDst] < e + 2 && 0 <= y < e + 2 && y != e && y != eOrg
      && ConnLnext(m, eOrg)[y] == eDst
    requires 0 < m.lface[eOrg] < |m.fNext| && 0 < m.lface[eDst] < |m.fNext|
    requires var e, y := |m.eNext|, ConnPrev(m, eOrg, eDst);
      && (y in g.live || y == e + 1)
      && (m.lface + [m.lface[eOrg], m.lface[eOrg]])[y] == m.lface[eDst]
    requires m.lface[eDst] != m.lface[eOrg] ==>
      m.lface[eDst] in g.fcyc && (forall z :: z in kf <==> z in g.fcyc[m.lface[eDst]])
    requires m.lface[eDst] == m.lface[eOrg] ==>
      IsCycle(SwapSucc(ConnLnext(m, eOrg), |m.eNext|, ConnPrev(m, eOrg, eDst)), cf) && cf[0] == |m.eNext|
    requires var e := |m.eNext|; Shaped(m') && Sym(e) == e + 1 && First(eOrg) in g.ering
    requires IsEdgeRing(m'.eNext, InsertAt(g.ering, IndexOf(g.ering, First(eOrg)), |m.eNext|))
    requires m'.onext == SwapSucc(ConnOnext(m, eOrg), |m.eNext| + 1, eDst)
    requires m'.lnext == SwapSucc(ConnLnext(m, eOrg), |m.eNext|, ConnPrev(m, eOrg, eDst))
    requires m'.org == m.org + [Dst(m, eOrg), m.org[eDst]]
    requires m'.vNext == m.vNext && m'.vPrev == m.vPrev && m'.vEdge == m.vEdge
    requires IsRing(m'.fNext, m'.fPrev, fr')
    requires var e, fo, fd := |m.eNext|, m.lface[eOrg], m.lface[eDst];
      fd != fo ==>
      && fd in g.fring && fr' == RemoveAt(g.fring, IndexOf(g.fring, fd))
      && Relabelled(m.lface + [fo, fo], m'.lface, kf, fo)
      && m'.fEdge == m.fEdge[fo := e + 1]
    requires var e, fo, fd := |m.eNext|, m.lface[eOrg], m.lface[eDst];
      fd == fo ==>
      && fo in g.fring && fr' == InsertAt(g.fring, IndexOf(g.fring, fo), |m.fNext|)
      && Relabelled(m.lface + [fo, fo], m'.lface, cf, |m.fNext|)
      && m'.fEdge == (m.fEdge + [e])[fo := e + 1]
    ensures Inv(m', g') && g'.live == g.live + {|m.eNext|, |m.eNext| + 1}
    ensures g'.vring == g.vring && g'.fring == fr' && |g'.ering| == |g.ering| + 1
  {
    forall z | z in g.live ensures z < |m.eNext| { }
    var er := InsertAt(g.ering, IndexOf(g.ering, First(eOrg)), |m.eNext|);
    if m.lface[eDst] != m.lface[eOrg] {
      RemoveAtContents(g.fring, IndexOf(g.fring, m.lface[eDst]));
    }
    var vcyc' := ConnectShapeV(m, g, eOrg, eDst, m');
    var fcyc' := ConnectShapeF(m, g, eOrg, eDst, kf, cf, m', fr');
    ConnectAlgebra(m, g.live, eOrg, eDst, m');
    ConnectSentinels(m, m.lface[eOrg], m.lface[eDst], m');
    g' := InvAfterPair(m, g, m', g.vring, fr', er, vcyc', fcyc');
  }

  /** connect keeps the unused slot 0 of both tables. */
  lemma ConnectSentinels(m: Mesh, fo: int, fd: int, m': Mesh)
    requires Sentinels(m) && 0 < fo < |m.fEdge| && m'.vEdge == m.vEdge
    requires fd != fo ==> m'.fEdge == m.fEdge[fo := |m.eNext| + 1]
    requires fd == fo ==> m'.fEdge == (m.fEdge + [|m.eNext|])[fo := |m.eNext| + 1]
    ensures Sentinels(m')
  {
  }

  /** connect's vertex labels, on the mesh. */
  lemma ConnectShapeV(m: Mesh, g: Shape, eOrg: int, eDst: int, m': Mesh) returns (vcyc': map<int, seq<int>>)
    requires Inv(m, g) && eOrg in g.live && eDst in g.live
    requires 0 <= m.lnext[eOrg] < |m.onext|
    requires m'.onext == SwapSucc(ConnOnext(m, eOrg), |m.eNext| + 1, eDst)
    requires m'.org == m.org + [Dst(m, eOrg), m.org[eDst]] && m'.vEdge == m.vEdge
    ensures Valid(Lab(m'.onext, m'.org, m'.vEdge, g.vring, vcyc', g.live + {|m.eNext|, |m.eNext| + 1}, false))
  {
    LnextAtDst(m, g, eOrg);
    var e := |m.eNext|;
    forall z | z in g.live ensures z < e { }
    vcyc' := ConnectVertices(VLab(m, g), e, m.lnext[eOrg], Dst(m, eOrg), eDst, m'.onext, m'.org);
  }

  /** connect's face labels, on the mesh. */
  lemma ConnectShapeF(m: Mesh, g: Shape, eOrg: int, eDst: int, kf: seq<int>, cf: seq<int>,
                      m': Mesh, fr': seq<int>) returns (fcyc': map<int, seq<int>>)
    requires Shaped(m) && Valid(FLab(m, g)) && |m.fEdge| > 0
    requires forall z :: z in g.live ==> 0 <= z < |m.eNext|
    requires eOrg in g.live && eDst in g.live && 0 <= eOrg < |m.eNext| && 0 <= eDst < |m.eNext|
    requires m.lface[eOrg] != NIL && m.lface[eDst] != NIL
    requires 0 <= m.lnext[eOrg] < |m.onext| && 0 <= ConnOnext(m, eOrg)[eDst]
    requires var e := |m.eNext|; var y := ConnPrev(m, eOrg, eDst);
      && 0 <= y < e + 2 && y != e && (y in g.live || y == e + 1)
      && (m.lface + [m.lface[eOrg], m.lface[eOrg]])[y] == m.lface[eDst]
    requires m.lface[eDst] != m.lface[eOrg] ==>
      m.lface[eDst] in g.fcyc && (forall z :: z in kf <==> z in g.fcyc[m.lface[eDst]])
    requires m.lface[eDst] == m.lface[eOrg] ==>
      IsCycle(SwapSucc(ConnLnext(m, eOrg), |m.eNext|, ConnPrev(m, eOrg, eDst)), cf) && cf[0] == |m.eNext|
    requires m'.lnext == SwapSucc(ConnLnext(m, eOrg), |m.eNext|, ConnPrev(m, eOrg, eDst))
    requires var fo, fd := m.lface[eOrg], m.lface[eDst];
      fd != fo ==>
      && Relabelled(m.lface + [fo, fo], m'.lface, kf, fo)
      && m'.fEdge == m.fEdge[fo := |m.eNext| + 1]
      && (forall z :: z in fr' <==> z in g.fring && z != fd)
    requires var fo, fd := m.lface[eOrg], m.lface[eDst];
      fd == fo ==>
      && Relabelled(m.lface + [fo, fo], m'.lface, cf, |m.fNext|)
      && m'.fEdge == (m.fEdge + [|m.eNext|])[fo := |m.eNext| + 1]
      && (forall z :: z in fr' <==> z in g.fring || z == |m.fNext|)
    ensures Valid(Lab(m'.lnext, m'.lface, m'.fEdge, fr', fcyc', g.live + {|m.eNext|, |m.eNext| + 1}, true))
  {
    var e := |m.eNext|;
    var fo, fd := m.lface[eOrg], m.lface[eDst];
    var L := FLab(m, g);
    if fd != fo {
      assert Relabelled(m.lface + [fo, fo], m'.lface, g.fcyc[fd], fo);
    }
    fcyc' := ConnectFaces(L, e, eOrg, eDst, ConnPrev(m, eOrg, eDst), m'.lnext, m'.lface, m'.fEdge, fr', cf);
  }

  /** connect on the edge algebra: the fresh pair, then two splices. */
  lemma ConnectAlgebra(m: Mesh, S: set<int>, eOrg: int, eDst: int, m': Mesh)
    requires Shaped(m) && Algebra(m.onext, m.lnext, S) && eOrg in S && eDst in S
    requires forall z :: z in S ==> 0 <= z < |m.eNext|
    requires 0 <= m.lnext[eOrg] < |m.eNext| && m.onext[m.lnext[eOrg]] == Sym(eOrg) && Sym(Sym(eOrg)) == eOrg
    requires Shaped(m') && |m'.eNext| == |m.eNext| + 2
    requires 0 <= ConnOnext(m, eOrg)[eDst] < |m.eNext| + 2
    requires m'.onext == SwapSucc(ConnOnext(m, eOrg), |m.eNext| + 1, eDst)
    requires m'.lnext == SwapSucc(ConnLnext(m, eOrg), |m.eNext|, ConnPrev(m, eOrg, eDst))
    ensures Algebra(m'.onext, m'.lnext, S + {|m.eNext|, |m.eNext| + 1})
  {
    var e := |m.eNext|;
    var S' := S + {e, e + 1};
    var o1, l1 := ConnOnext(m, eOrg), ConnLnext(m, eOrg);
    AevAlgebra(m, S, eOrg, e, o1, l1);
    var m1 := m'.(onext := o1, lnext := l1);
    assert EdgeOk(o1, l1, S', eDst) && EdgeOk(o1, l1, S', e + 1);
    SpliceIsSwap(m1, e + 1, eDst);
    SplicePreservesAlgebra(m1, S', e + 1, eDst);
  }

  /** connect on the vertex labels: the fresh half e is absorbed into the
      Onext loop of d at b, then the fresh half e + 1 into the Onext loop of
      eDst's origin at eDst. */
  lemma ConnectVertices(L: Lab, e: int, b: int, d: int, eDst: int, onext': seq<int>, org': seq<int>)
    returns (cyc': map<int, seq<int>>)
    requires Valid(L) && !L.nilOk && e == |L.succ|
    requires forall z :: z in L.live ==> z < e
    requires Used(L, d) && d in L.cyc && b in L.cyc[d] && eDst in L.live
    requires onext' == SwapSucc(SwapSucc(L.succ + [e, e + 1], e, b), e + 1, eDst)
    requires org' == L.lab + [d, L.lab[eDst]]
    ensures Valid(L.(succ := onext', lab := org', cyc := cyc', live := L.live + {e, e + 1}))
  {
    var o1 := SwapSucc(L.succ + [e, e + 1], e, b);
    var lab1 := L.lab + [d, NIL];
    var cy := AevVertexAbsorb(L, e, b, d, o1, lab1);
    var L1 := L.(succ := o1, lab := lab1, cyc := L.cyc[d := [b] + [e][1..] + [e] + cy[1..]],
                 live := L.live + Elems([e]));
    var v := L.lab[eDst];
    assert eDst < e && L1.lab[eDst] == v;
    forall z | 0 <= z < |L1.lab| ensures org'[z] == if z == e + 1 then v else L1.lab[z] {
      if z < e {
        assert org'[z] == L.lab[z] == L1.lab[z];
      }
    }
    cyc' := ConnectVertexSecond(L1, e, eDst, onext', org');
    ElemsOfPair(L.live, e);
  }

  /** The fresh half e + 1, its own Onext loop, absorbed into the Onext loop
      of eDst's origin at eDst. */
  lemma ConnectVertexSecond(L1: Lab, e: int, eDst: int, onext': seq<int>, org': seq<int>)
    returns (cyc': map<int, seq<int>>)
    requires Valid(L1) && !L1.nilOk && 0 <= e + 1 < |L1.succ| && e + 1 !in L1.live
    requires L1.succ[e + 1] == e + 1 && eDst in L1.live && 0 <= eDst < e
    requires onext' == SwapSucc(L1.succ, e + 1, eDst)
    requires |org'| == |L1.lab|
    requires forall z :: 0 <= z < |L1.lab| ==> org'[z] == if z == e + 1 then L1.lab[eDst] else L1.lab[z]
    ensures Valid(L1.(succ := onext', lab := org', cyc := cyc', live := L1.live + Elems([e + 1])))
  {
    var v := L1.lab[eDst];
    assert CoverAt(L1, eDst);
    SelfLoop(L1.succ, e + 1);
    SwapSymmetric(L1.succ, eDst, e + 1);
    Absorb(L1, v, eDst, [e + 1], onext', org');
    var cd := RotateTo(L1.cyc[v], eDst);
    cyc' := L1.cyc[v := [eDst] + [e + 1][1..] + [e + 1] + cd[1..]];
  }

  /** connect's first splice on the face labels: the fresh pair's two-edge
      loop is absorbed into eOrg's face loop at eOrg. */
  lemma ConnectFaceAbsorb(L: Lab, e: int, eOrg: int) returns (L1: Lab)
    requires Valid(L) && L.nilOk && e == |L.succ| && eOrg in L.live
    requires forall z :: z in L.live ==> z < e
    requires 0 <= eOrg < |L.lab| && L.lab[eOrg] != NIL
    ensures L1 == L.(succ := SwapSucc(L.succ + [e + 1, e], e + 1, eOrg),
                     lab := L.lab + [L.lab[eOrg], L.lab[eOrg]], cyc := L1.cyc,
                     live := L.live + {e, e + 1})
    ensures L.lab[eOrg] in L1.cyc && L1.cyc == L.cyc[L.lab[eOrg] := L1.cyc[L.lab[eOrg]]]
    ensures Valid(L1)
  {
    var f := L.lab[eOrg];
    var s1 := L.succ + [e + 1, e];
    var lnext1 := SwapSucc(s1, e + 1, eOrg);
    Extend(L, s1, L.lab + [NIL, NIL], L.anchor);
    var L0 := L.(succ := s1, lab := L.lab + [NIL, NIL]);
    TwoDistinct([e + 1, e]);
    assert IsCycle(s1, [e + 1, e]);
    SwapSymmetric(s1, e + 1, eOrg);
    assert CoverAt(L, eOrg);
    Absorb(L0, f, eOrg, [e + 1, e], lnext1, L.lab + [f, f]);
    var cy := RotateTo(L.cyc[f], eOrg);
    assert Elems([e + 1, e]) == {e, e + 1};
    L1 := L.(succ := lnext1, lab := L.lab + [f, f],
             cyc := L.cyc[f := [eOrg] + [e + 1, e][1..] + [e + 1] + cy[1..]],
             live := L.live + {e, e + 1});
  }

  /** connect on the face labels: after the absorb, the swap of the Lnext
      successors of e and y (the half-edge whose Lnext is eDst) joins eDst's
      face into eOrg's, or splits their common face, e's part taking the
      fresh face |anchor|. */
  lemma ConnectFaces(L: Lab, e: int, eOrg: int, eDst: int, y: int, lnext': seq<int>, lface': seq<int>,
                     fEdge': seq<int>, ring': seq<int>, cf: seq<int>) returns (cyc': map<int, seq<int>>)
    requires Valid(L) && L.nilOk && e == |L.succ| && |L.anchor| > 0
    requires forall z :: z in L.live ==> z < e
    requires eOrg in L.live && eDst in L.live && 0 <= eOrg < e && 0 <= eDst < e
    requires L.lab[eOrg] != NIL && L.lab[eDst] != NIL
    requires 0 <= y < e + 2 && y != e && (y in L.live || y == e + 1)
    requires (L.lab + [L.lab[eOrg], L.lab[eOrg]])[y] == L.lab[eDst]
    requires lnext' == SwapSucc(SwapSucc(L.succ + [e + 1, e], e + 1, eOrg), e, y)
    requires L.lab[eDst] != L.lab[eOrg] ==>
      && L.lab[eDst] in L.cyc
      && Relabelled(L.lab + [L.lab[eOrg], L.lab[eOrg]], lface', L.cyc[L.lab[eDst]], L.lab[eOrg])
      && fEdge' == L.anchor[L.lab[eOrg] := e + 1]
      && (forall z :: z in ring' <==> z in L.ring && z != L.lab[eDst])
    requires L.lab[eDst] == L.lab[eOrg] ==>
      && IsCycle(lnext', cf) && cf[0] == e
      && Relabelled(L.lab + [L.lab[eOrg], L.lab[eOrg]], lface', cf, |L.anchor|)
      && fEdge' == (L.anchor + [e])[L.lab[eOrg] := e + 1]
      && (forall z :: z in ring' <==> z in L.ring || z == |L.anchor|)
    ensures Valid(L.(succ := lnext', lab := lface', anchor := fEdge', ring := ring', cyc := cyc',
                     live := L.live + {e, e + 1}))
  {
    var fo, fd := L.lab[eOrg], L.lab[eDst];
    var L1 := ConnectFaceAbsorb(L, e, eOrg);
    assert CoverAt(L1, y) && CoverAt(L1, e) && CoverAt(L1, e + 1);
    if fd != fo {
      assert L1.cyc[fd] == L.cyc[fd];
      cyc' := ConnectJoin(L1, fo, fd, e, y, lnext', lface', fEdge', ring');
    } else {
      cyc' := ConnectSplit(L1, fo, e, y, lnext', lface', fEdge', ring', cf);
    }
    var R := L1.(succ := lnext', lab := lface', anchor := fEdge', ring := ring', cyc := cyc');
    assert R == L.(succ := lnext', lab := lface', anchor := fEdge', ring := ring', cyc := cyc',
                   live := L.live + {e, e + 1});
  }

  /** `Join` of the face y's loop into e's, anchored at e + 1. */
  lemma ConnectJoin(L1: Lab, fo: int, fd: int, e: int, y: int, lnext': seq<int>, lface': seq<int>,
                    fEdge': seq<int>, ring': seq<int>) returns (cyc': map<int, seq<int>>)
    requires Valid(L1) && fo != fd && 0 <= e + 1 < |L1.succ| && 0 <= y < |L1.succ|
    requires Used(L1, fo) && fo in L1.cyc && e in L1.cyc[fo] && e + 1 in L1.cyc[fo]
    requires Used(L1, fd) && fd in L1.cyc && y in L1.cyc[fd]
    requires lnext' == SwapSucc(L1.succ, e, y)
    requires Relabelled(L1.lab, lface', L1.cyc[fd], fo)
    requires fEdge' == L1.anchor[fo := e + 1]
    requires forall z :: z in ring' <==> z in L1.ring && z != fd
    ensures Valid(L1.(succ := lnext', lab := lface', anchor := fEdge', ring := ring', cyc := cyc'))
  {
    Join(L1, fo, fd, e, y, e + 1, lnext', lface', ring');
    var cx := RotateTo(L1.cyc[fo], e);
    var cz := RotateTo(L1.cyc[fd], y);
    cyc' := L1.cyc[fo := [e] + cz[1..] + [y] + cx[1..]];
  }

  /** `SplitAt` of e's loop at e and y, e's part taking the fresh label
      |anchor| with anchor e and the old label re-anchored at e + 1. */
  lemma ConnectSplit(L1: Lab, fo: int, e: int, y: int, lnext': seq<int>, lface': seq<int>,
                     fEdge': seq<int>, ring': seq<int>, cf: seq<int>) returns (cyc': map<int, seq<int>>)
    requires Valid(L1) && Used(L1, fo) && fo in L1.cyc && e in L1.cyc[fo] && y in L1.cyc[fo] && e != y
    requires 0 <= e + 1 < |L1.succ| && 0 <= y < |L1.succ| && L1.succ[e] == e + 1
    requires lnext' == SwapSucc(L1.succ, e, y)
    requires |L1.anchor| != 0
    requires IsCycle(lnext', cf) && cf[0] == e
    requires Relabelled(L1.lab, lface', cf, |L1.anchor|)
    requires fEdge' == (L1.anchor + [e])[fo := e + 1]
    requires forall z :: z in ring' <==> z in L1.ring || z == |L1.anchor|
    ensures Valid(L1.(succ := lnext', lab := lface', anchor := fEdge', ring := ring', cyc := cyc'))
  {
    assert CycleOk(L1, fo);
    SwapHalves(L1.succ, L1.cyc[fo], e, y);
    var h := Halves(L1.cyc[fo], e, y);
    LoopFromStartIsUnique(lnext', cf, h.0);
    SplitAt(L1, fo, e, y, true, |L1.anchor|, e, e + 1, lnext', lface', ring');
    cyc' := L1.cyc[fo := h.1][|L1.anchor| := h.0];
  }
}
