/**
  The half-edge mesh and its topological operations (Mesh.swift).

  The invariant `Inv` is what `check()` audits, stated against a ghost
  `Shape`: the listings of the three global rings, the Onext cycle of every
  vertex, the Lnext cycle of every face, and the set of live half-edges.
  A vertex is the label `Org` of its Onext cycle and a face the label
  `Lface` of its Lnext cycle (see `Labels`); the sentinels 0 are no label.
*/
module Mesh {
  import opened Cycles
  import opened Labels
  import opened MeshUtils
  import opened MeshContext

  datatype Shape = Shape(vring: seq<int>, fring: seq<int>, ering: seq<int>,
                         vcyc: map<int, seq<int>>, fcyc: map<int, seq<int>>, live: set<int>)

  /** Vertices: Onext cycles labelled by Org, anchored at anEdge; never nil. */
  ghost function VLab(m: Mesh, g: Shape): Lab {
    Lab(m.onext, m.org, m.vEdge, g.vring, g.vcyc, g.live, false)
  }

  /** Faces: Lnext cycles labelled by Lface, anchored at anEdge; nil allowed. */
  ghost function FLab(m: Mesh, g: Shape): Lab {
    Lab(m.lnext, m.lface, m.fEdge, g.fring, g.fcyc, g.live, true)
  }

  /** The live half-edges are the two halves of every listed pair but the head pair. */
  ghost predicate LiveIsListed(m: Mesh, g: Shape) {
    forall e :: e in g.live <==> 2 <= e < |m.eNext| && First(e) in g.ering
  }

  /** The head vertex and the head face have no edge. */
  predicate Sentinels(m: Mesh) {
    && |m.vEdge| > 0 && m.vEdge[0] == NIL && |m.fEdge| > 0 && m.fEdge[0] == NIL
  }

  /** The invariant audited by check(). */
  ghost predicate Inv(m: Mesh, g: Shape) {
    && Shaped(m)
    && IsRing(m.vNext, m.vPrev, g.vring)
    && IsRing(m.fNext, m.fPrev, g.fring)
    && IsEdgeRing(m.eNext, g.ering)
    && LiveIsListed(m, g)
    && Valid(VLab(m, g))
    && Valid(FLab(m, g))
    && Algebra(m.onext, m.lnext, g.live)
    && Sentinels(m)
  }

  /** Number of vertices, faces and edge pairs (the heads excluded). */
  function VertexCount(g: Shape): int { |g.vring| - 1 }
  function FaceCount(g: Shape): int { |g.fring| - 1 }
  function EdgeCount(g: Shape): int { |g.ering| - 1 }

  // ---------------------------------------------------------------------------
  // Small facts

  /** A live half-edge has a vertex; its label cycle holds it. */
  lemma LiveOrg(m: Mesh, g: Shape, e: int)
    requires Inv(m, g) && e in g.live
    ensures 0 <= e < |m.org| && Used(VLab(m, g), m.org[e]) && m.org[e] in g.vcyc
    ensures e in g.vcyc[m.org[e]] && m.org[e] != 0 && m.org[e] != NIL
  {
    assert CoverAt(VLab(m, g), e);
  }

  /** A live half-edge with a face: the face's cycle holds it. */
  lemma LiveFace(m: Mesh, g: Shape, e: int)
    requires Inv(m, g) && e in g.live && m.lface[e] != NIL
    ensures 0 <= e < |m.lface| && Used(FLab(m, g), m.lface[e]) && m.lface[e] in g.fcyc
    ensures e in g.fcyc[m.lface[e]] && m.lface[e] != 0
  {
    assert CoverAt(FLab(m, g), e);
  }

  /** A live half-edge's labels are records that exist. */
  lemma LabelsBelow(m: Mesh, g: Shape, e: int)
    requires Inv(m, g) && e in g.live
    ensures 0 <= e < |m.org| && 0 <= m.org[e] < |m.vNext| && m.lface[e] < |m.fNext|
  {
    LiveOrg(m, g, e);
    assert CycleOk(VLab(m, g), m.org[e]);
    if m.lface[e] != NIL {
      LiveFace(m, g, e);
      assert CycleOk(FLab(m, g), m.lface[e]);
    }
  }

  /** Algebra over S with a fresh pair e, e + 1 that loops on itself. */
  lemma AlgebraAddPair(onext: seq<int>, lnext: seq<int>, S: set<int>, e: int)
    requires Algebra(onext, lnext, S) && 0 <= e && e % 2 == 0 && e + 1 < |onext|
    requires e !in S && e + 1 !in S
    requires onext[e] == e && onext[e + 1] == e + 1 && lnext[e] == e + 1 && lnext[e + 1] == e
    ensures Algebra(onext, lnext, S + {e, e + 1})
  {
    var S' := S + {e, e + 1};
    forall x | x in S' ensures EdgeOk(onext, lnext, S', x) {
      if x in S {
        assert EdgeOk(onext, lnext, S, x);
      } else {
        assert Sym(e) == e + 1 && Sym(e + 1) == e;
      }
    }
  }

  /** Algebra over S survives appending two slots to both tables. */
  lemma AlgebraAppend(onext: seq<int>, lnext: seq<int>, S: set<int>, a: seq<int>, b: seq<int>)
    requires Algebra(onext, lnext, S) && |a| == |b| == 2
    ensures Algebra(onext + a, lnext + b, S)
  {
    forall x | x in S ensures EdgeOk(onext + a, lnext + b, S, x) {
      assert EdgeOk(onext, lnext, S, x);
    }
  }

  // ---------------------------------------------------------------------------
  // init

  /** The empty mesh: the three heads, each alone in its ring; the head pair
      links to itself in the edge list. */
  method Init() returns (m: Mesh, ghost g: Shape)
    ensures Inv(m, g)
    ensures VertexCount(g) == 0 && FaceCount(g) == 0 && EdgeCount(g) == 0 && g.live == {}
    ensures m.vNext == [0] && m.fNext == [0] && m.eNext == [0, 1] && Sym(0) == 1
  {
    m := Mesh(vNext := [0], vPrev := [0], vEdge := [NIL], vS := [0.0], vT := [0.0],
              fNext := [0], fPrev := [0], fEdge := [NIL], fInside := [false], fMarked := [false],
              eNext := [0, 1], onext := [NIL, NIL], lnext := [NIL, NIL],
              org := [NIL, NIL], lface := [NIL, NIL], winding := [0, 0]);
    g := Shape([0], [0], [0], map[], map[], {});
    assert Distinct([0]) by {
      assert forall x :: multiset([0])[x] == if x == 0 then 1 else 0;
    }
  }

  // ---------------------------------------------------------------------------
  // makeEdge

  /** Inserting before the head of a listing appends. */
  lemma InsertBeforeHead(r: seq<int>, x: int)
    requires |r| > 0 && r[0] == 0
    ensures 0 in r && IndexOf(r, 0) == 0 && InsertAt(r, IndexOf(r, 0), x) == r + [x]
  {
  }

  lemma OneDistinct(c: seq<int>)
    requires |c| == 1
    ensures Distinct(c)
  {
    assert forall x :: multiset(c)[x] == if x == c[0] then 1 else 0;
  }

  lemma TwoDistinct(c: seq<int>)
    requires |c| == 2 && c[0] != c[1]
    ensures Distinct(c)
  {
    assert c == [c[0]] + [c[1]];
    assert forall x :: multiset(c)[x] == (if x == c[0] then 1 else 0) + (if x == c[1] then 1 else 0);
  }

  /** A one- or two-element loop of a successor table. */
  lemma SmallCycles(succ: seq<int>, e: int)
    requires 0 <= e && e + 1 < |succ|
    ensures succ[e] == e ==> IsCycle(succ, [e])
    ensures succ[e + 1] == e + 1 ==> IsCycle(succ, [e + 1])
    ensures succ[e] == e + 1 && succ[e + 1] == e ==> IsCycle(succ, [e, e + 1])
  {
    OneDistinct([e]);
    OneDistinct([e + 1]);
    TwoDistinct([e, e + 1]);
  }

  /** The two vertices of a fresh pair e, e + 1 whose halves are their own
      Onext loops: one per half, appended to the vertex list. */
  method MakeVertexPair(m: Mesh, e: int, ghost r: seq<int>) returns (m': Mesh, v: int)
    requires Shaped(m) && IsRing(m.vNext, m.vPrev, r)
    requires 0 <= e && e + 1 < |m.onext| && m.onext[e] == e && m.onext[e + 1] == e + 1
    ensures Shaped(m') && v == |m.vNext| && v != 0
    ensures IsRing(m'.vNext, m'.vPrev, r + [v, v + 1])
    ensures m'.vEdge == m.vEdge + [e, e + 1] && m'.org == m.org[e := v][e + 1 := v + 1]
    ensures m' == m.(vNext := m'.vNext, vPrev := m'.vPrev, vEdge := m'.vEdge,
                     vS := m.vS + [0.0, 0.0], vT := m.vT + [0.0, 0.0], org := m'.org)
  {
    SmallCycles(m.onext, e);
    InsertBeforeHead(r, |m.vNext|);
    var m1, v2;
    m1, v := MakeVertex(m, e, 0, [e], r);
    InsertBeforeHead(r + [v], v + 1);
    m', v2 := MakeVertex(m1, e + 1, 0, [e + 1], r + [v]);
    assert r + [v] + [v + 1] == r + [v, v + 1];
    assert m'.org == m.org[e := v][e + 1 := v + 1];
    assert m'.vEdge == m.vEdge + [e, e + 1];
  }

  /** The shape and invariant after a fresh pair e, e + 1 is linked in,
      from its parts. */
  lemma InvAfterPair(m: Mesh, g: Shape, m': Mesh, vr': seq<int>, fr': seq<int>, er': seq<int>,
                     vcyc': map<int, seq<int>>, fcyc': map<int, seq<int>>) returns (g': Shape)
    requires Shaped(m) && IsEdgeRing(m.eNext, g.ering) && LiveIsListed(m, g)
    requires Shaped(m') && |m'.eNext| == |m.eNext| + 2
    requires forall z :: z in er' <==> z in g.ering || z == |m.eNext|
    requires IsEdgeRing(m'.eNext, er')
    requires IsRing(m'.vNext, m'.vPrev, vr') && IsRing(m'.fNext, m'.fPrev, fr')
    requires Valid(Lab(m'.onext, m'.org, m'.vEdge, vr', vcyc', g.live + {|m.eNext|, |m.eNext| + 1}, false))
    requires Valid(Lab(m'.lnext, m'.lface, m'.fEdge, fr', fcyc', g.live + {|m.eNext|, |m.eNext| + 1}, true))
    requires Algebra(m'.onext, m'.lnext, g.live + {|m.eNext|, |m.eNext| + 1}) && Sentinels(m')
    ensures g' == Shape(vr', fr', er', vcyc', fcyc', g.live + {|m.eNext|, |m.eNext| + 1})
    ensures Inv(m', g')
  {
    g' := Shape(vr', fr', er', vcyc', fcyc', g.live + {|m.eNext|, |m.eNext| + 1});
    ListedAfterInsert(m, g, |m.eNext|, |m'.eNext|, er');
    assert VLab(m', g') == Lab(m'.onext, m'.org, m'.vEdge, vr', vcyc', g'.live, false);
    assert FLab(m', g') == Lab(m'.lnext, m'.lface, m'.fEdge, fr', fcyc', g'.live, true);
  }

  /** The shape and invariant after the links and labels change but no pair,
      vertex or face is made or destroyed, from its parts. */
  lemma InvRelabelled(m: Mesh, g: Shape, m': Mesh, vcyc': map<int, seq<int>>, fcyc': map<int, seq<int>>)
    returns (g': Shape)
    requires Shaped(m') && m'.eNext == m.eNext && IsEdgeRing(m.eNext, g.ering) && LiveIsListed(m, g)
    requires IsRing(m'.vNext, m'.vPrev, g.vring) && IsRing(m'.fNext, m'.fPrev, g.fring)
    requires Valid(Lab(m'.onext, m'.org, m'.vEdge, g.vring, vcyc', g.live, false))
    requires Valid(Lab(m'.lnext, m'.lface, m'.fEdge, g.fring, fcyc', g.live, true))
    requires Algebra(m'.onext, m'.lnext, g.live) && Sentinels(m')
    ensures g' == g.(vcyc := vcyc', fcyc := fcyc')
    ensures Inv(m', g')
  {
    g' := g.(vcyc := vcyc', fcyc := fcyc');
    assert VLab(m', g') == Lab(m'.onext, m'.org, m'.vEdge, g.vring, vcyc', g.live, false);
    assert FLab(m', g') == Lab(m'.lnext, m'.lface, m'.fEdge, g.fring, fcyc', g.live, true);
  }

  /** The listing after a fresh pair is linked in holds the old pairs and e. */
  lemma ListedAfterInsert(m: Mesh, g: Shape, e: int, n: int, er: seq<int>)
    requires Shaped(m) && IsEdgeRing(m.eNext, g.ering) && LiveIsListed(m, g)
    requires e == |m.eNext| && n == e + 2
    requires forall z :: z in er <==> z in g.ering || z == e
    ensures forall z :: z in g.live + {e, e + 1} <==> 2 <= z < n && First(z) in er
  {
    forall z ensures z in g.live + {e, e + 1} <==> 2 <= z < n && First(z) in er {
      if z in g.live {
        assert First(z) in g.ering;
      }
      if 2 <= z < n && First(z) in er && z != e && z != e + 1 {
        assert First(z) != e;
        assert First(z) in g.ering;
        assert z < e by {
          var _ := IndexOf(g.ering, First(z));
        }
      }
    }
  }

  /** makeEdge: one fresh pair e, e + 1, two fresh vertices and one fresh
      face; the new face's loop is the two halves. */
  method MakeEdgeOp(m: Mesh, ghost g: Shape) returns (m': Mesh, e: int, ghost g': Shape)
    requires Inv(m, g)
    ensures Inv(m', g')
    ensures e == |m.eNext| && Sym(e) == e + 1 && e !in g.live && e in g'.live
    ensures VertexCount(g') == VertexCount(g) + 2 && FaceCount(g') == FaceCount(g) + 1
    ensures EdgeCount(g') == EdgeCount(g) + 1 && g'.live == g.live + {e, e + 1}
    ensures m'.lnext[e] == Sym(e) && m'.lface[e] == Rface(m', e) != NIL
    ensures m'.onext[e] == e && Dst(m', e) != m'.org[e]
    ensures m'.onext[e + 1] == e + 1 && m'.org[e] == |m.vNext| && |m'.vNext| == |m.vNext| + 2
    ensures m'.winding == m.winding + [0, 0]
    ensures forall z :: 0 <= z < |m.eNext| ==>
      m'.onext[z] == m.onext[z] && m'.lnext[z] == m.lnext[z] && m'.org[z] == m.org[z] &&
      m'.lface[z] == m.lface[z]
  {
    var v, f;
    m', e, v, f := MakeEdgeTables(m, g.vring, g.fring, g.ering);
    g' := MakeEdgeLabels(m, g, m', e, v, f);
  }

  /** The tables after makeEdge: the fresh pair, its two vertices and its
      face appended, everything else as it was. */
  method MakeEdgeTables(m: Mesh, ghost vr: seq<int>, ghost fr: seq<int>, ghost er: seq<int>)
    returns (m': Mesh, e: int, v: int, f: int)
    requires Shaped(m) && Sentinels(m) && IsEdgeRing(m.eNext, er)
    requires IsRing(m.vNext, m.vPrev, vr) && IsRing(m.fNext, m.fPrev, fr)
    ensures e == |m.eNext| && v == |m.vNext| && f == |m.fNext| && Shaped(m') && Sym(e) == e + 1
    ensures m'.onext == m.onext + [e, e + 1] && m'.lnext == m.lnext + [e + 1, e]
    ensures m'.org == (m.org + [NIL, NIL])[e := v][e + 1 := v + 1]
    ensures m'.lface == m.lface + [f, f]
    ensures m'.vEdge == m.vEdge + [e, e + 1] && m'.fEdge == m.fEdge + [e]
    ensures IsRing(m'.vNext, m'.vPrev, vr + [v, v + 1]) && IsRing(m'.fNext, m'.fPrev, fr + [f])
    ensures IsEdgeRing(m'.eNext, er + [e]) && |m'.eNext| == e + 2
    ensures Sentinels(m')
    ensures m'.lnext[e] == Sym(e) && m'.lface[e] == Rface(m', e) != NIL
    ensures m'.onext[e] == e && Dst(m', e) != m'.org[e]
    ensures m'.winding == m.winding + [0, 0] && |m'.vNext| == |m.vNext| + 2
    ensures forall z :: 0 <= z < |m.eNext| ==>
      m'.onext[z] == m.onext[z] && m'.lnext[z] == m.lnext[z] && m'.org[z] == m.org[z] &&
      m'.lface[z] == m.lface[z]
  {
    var m1, m2;
    InsertBeforeHead(er, |m.eNext|);
    m1, e := MakeEdge(m, 0, er);
    m2, v := MakeVertexPair(m1, e, vr);
    SmallCycles(m2.lnext, e);
    InsertBeforeHead(fr, |m.fNext|);
    m', f := MakeFace(m2, e, 0, [e, e + 1], fr);
    assert m'.lface == m.lface + [f, f];
    MakeEdgeFrame(m, m', e, v, f);
  }

  /** What the appended tables of makeEdge say about the fresh pair and the
      old half-edges. */
  lemma MakeEdgeFrame(m: Mesh, m': Mesh, e: int, v: int, f: int)
    requires Shaped(m) && Shaped(m') && e == |m.eNext| && Sym(e) == e + 1 && v != NIL && f != NIL
    requires m'.onext == m.onext + [e, e + 1] && m'.lnext == m.lnext + [e + 1, e]
    requires m'.org == (m.org + [NIL, NIL])[e := v][e + 1 := v + 1]
    requires m'.lface == m.lface + [f, f]
    ensures m'.lnext[e] == Sym(e) && m'.lface[e] == Rface(m', e) != NIL
    ensures m'.onext[e] == e && Dst(m', e) != m'.org[e]
    ensures forall z :: 0 <= z < |m.eNext| ==>
      m'.onext[z] == m.onext[z] && m'.lnext[z] == m.lnext[z] && m'.org[z] == m.org[z] &&
      m'.lface[z] == m.lface[z]
  {
  }

  /** The bookkeeping of makeEdge, stated between the mesh before and after. */
  lemma MakeEdgeLabels(m: Mesh, g: Shape, m': Mesh, e: int, v: int, f: int) returns (g': Shape)
    requires Inv(m, g) && e == |m.eNext| && v == |m.vNext| && f == |m.fNext| && Shaped(m')
    requires m'.onext == m.onext + [e, e + 1] && m'.lnext == m.lnext + [e + 1, e]
    requires m'.org == (m.org + [NIL, NIL])[e := v][e + 1 := v + 1]
    requires m'.lface == m.lface + [f, f]
    requires m'.vEdge == m.vEdge + [e, e + 1] && m'.fEdge == m.fEdge + [e]
    requires IsRing(m'.vNext, m'.vPrev, g.vring + [v, v + 1]) && IsRing(m'.fNext, m'.fPrev, g.fring + [f])
    requires IsEdgeRing(m'.eNext, g.ering + [e]) && |m'.eNext| == e + 2
    requires Sentinels(m')
    ensures Inv(m', g') && g'.live == g.live + {|m.eNext|, |m.eNext| + 1}
    ensures g'.vring == g.vring + [v, v + 1] && g'.fring == g.fring + [f] && g'.ering == g.ering + [e]
  {
    var vr, fr := g.vring + [v, v + 1], g.fring + [f];
    var vcyc', fcyc' := g.vcyc[v := [e]][v + 1 := [e + 1]], g.fcyc[f := [e, e + 1]];
    assert m'.org == m.org + [v, v + 1];
    assert e !in g.live && e + 1 !in g.live;
    MakeEdgeVertices(VLab(m, g), m'.onext, m'.org, m'.vEdge, e, v, vr);
    assert VLab(m, g).(succ := m'.onext, lab := m'.org, anchor := m'.vEdge, ring := vr,
                       cyc := VLab(m, g).cyc[v := [e]][v + 1 := [e + 1]], live := VLab(m, g).live + {e, e + 1})
        == Lab(m'.onext, m'.org, m'.vEdge, vr, vcyc', g.live + {|m.eNext|, |m.eNext| + 1}, false);
    MakeEdgeFace(FLab(m, g), m'.lnext, m'.lface, m'.fEdge, e, f, fr);
    assert FLab(m, g).(succ := m'.lnext, lab := m'.lface, anchor := m'.fEdge, ring := fr,
                       cyc := FLab(m, g).cyc[f := [e, e + 1]], live := FLab(m, g).live + {e, e + 1})
        == Lab(m'.lnext, m'.lface, m'.fEdge, fr, fcyc', g.live + {|m.eNext|, |m.eNext| + 1}, true);
    AlgebraAppend(m.onext, m.lnext, g.live, [e, e + 1], [e + 1, e]);
    AlgebraAddPair(m'.onext, m'.lnext, g.live, |m.eNext|);
    g' := InvAfterPair(m, g, m', vr, fr, g.ering + [e], vcyc', fcyc');
  }

  /** makeEdge on the vertex labels: each half of the fresh pair is its own
      Onext loop with a fresh vertex. */
  lemma MakeEdgeVertices(L: Lab, onext': seq<int>, org': seq<int>, vEdge': seq<int>,
                         e: int, v: int, ring': seq<int>)
    requires Valid(L) && e == |L.succ| && v == |L.anchor| && v != 0
    requires forall z :: z in L.live ==> z < e
    requires onext' == L.succ + [e, e + 1] && org' == L.lab + [v, v + 1]
    requires vEdge' == L.anchor + [e, e + 1]
    requires forall z :: z in ring' <==> z in L.ring || z == v || z == v + 1
    ensures Valid(L.(succ := onext', lab := org', anchor := vEdge', ring := ring',
                     cyc := L.cyc[v := [e]][v + 1 := [e + 1]], live := L.live + {e, e + 1}))
  {
    SmallCycles(onext', e);
    Extend(L, onext', L.lab + [NIL, NIL], L.anchor);
    var L1 := L.(succ := onext', lab := L.lab + [NIL, NIL]);
    LabelFresh(L1, [e], v, L.lab + [v, NIL], L.ring + [v]);
    var L2 := L1.(lab := L.lab + [v, NIL], anchor := L.anchor + [e], ring := L.ring + [v],
                  cyc := L.cyc[v := [e]], live := L.live + Elems([e]));
    LabelFresh(L2, [e + 1], v + 1, org', ring');
    assert L.anchor + [e] + [e + 1] == vEdge';
    assert L.live + Elems([e]) + Elems([e + 1]) == L.live + {e, e + 1};
  }

  /** makeEdge on the face labels: the fresh pair is one Lnext loop with a
      fresh face. */
  lemma MakeEdgeFace(L: Lab, lnext': seq<int>, lface': seq<int>, fEdge': seq<int>,
                     e: int, f: int, ring': seq<int>)
    requires Valid(L) && e == |L.succ| && f == |L.anchor| && f != 0
    requires forall z :: z in L.live ==> z < e
    requires lnext' == L.succ + [e + 1, e] && lface' == L.lab + [f, f]
    requires fEdge' == L.anchor + [e]
    requires forall z :: z in ring' <==> z in L.ring || z == f
    ensures Valid(L.(succ := lnext', lab := lface', anchor := fEdge', ring := ring',
                     cyc := L.cyc[f := [e, e + 1]], live := L.live + {e, e + 1}))
  {
    SmallCycles(lnext', e);
    Extend(L, lnext', L.lab + [NIL, NIL], L.anchor);
    var L1 := L.(succ := lnext', lab := L.lab + [NIL, NIL]);
    LabelFresh(L1, [e, e + 1], f, lface', ring');
    assert Elems([e, e + 1]) == {e, e + 1};
  }

  // ---------------------------------------------------------------------------
  // splice

  /** The neighbourhood of a live half-edge under the edge algebra. */
  lemma LiveNav(m: Mesh, g: Shape, e: int)
    requires Inv(m, g) && e in g.live
    ensures 2 <= e < |m.onext| && 0 <= m.onext[e] < |m.onext| && 0 <= m.lnext[e] < |m.lnext|
    ensures Sym(e) in g.live && m.onext[e] in g.live && m.lnext[e] in g.live
    ensures 0 <= Sym(m.onext[e]) < |m.lnext| && Sym(m.onext[e]) in g.live
    ensures m.lnext[Sym(m.onext[e])] == e
  {
    assert EdgeOk(m.onext, m.lnext, g.live, e);
    assert EdgeOk(m.onext, m.lnext, g.live, m.onext[e]);
  }

  /** Distinct live half-edges have distinct Onext and distinct Lnext. */
  lemma NextInjective(m: Mesh, g: Shape, a: int, b: int)
    requires Inv(m, g) && a in g.live && b in g.live && a != b
    ensures 0 <= a < |m.onext| && 0 <= b < |m.onext|
    ensures m.onext[a] != m.onext[b] && m.lnext[a] != m.lnext[b]
  {
    assert EdgeOk(m.onext, m.lnext, g.live, a) && EdgeOk(m.onext, m.lnext, g.live, b);
  }

  /** A live half-edge is determined by its Lnext: e == e.Lnext.Onext.Sym. */
  lemma LnextInjective(m: Mesh, g: Shape, a: int, b: int)
    requires Inv(m, g) && a in g.live && b in g.live
    requires 0 <= a < |m.lnext| && 0 <= b < |m.lnext| && m.lnext[a] == m.lnext[b]
    ensures a == b
  {
    assert EdgeOk(m.onext, m.lnext, g.live, a) && EdgeOk(m.onext, m.lnext, g.live, b);
  }

  /** The Onext loop of a vertex, read from its anchor. */
  lemma VertexLoop(m: Mesh, g: Shape, v: int)
    requires Inv(m, g) && v in g.vring && v != 0
    ensures v in g.vcyc && 0 <= v < |m.vEdge| && m.vEdge[v] in g.vcyc[v]
    ensures IsCycle(m.onext, g.vcyc[v])
    ensures IsCycle(m.onext, RotateTo(g.vcyc[v], m.vEdge[v]))
    ensures forall z :: z in g.vcyc[v] ==> z in g.live && 0 <= z < |m.org| && m.org[z] == v
  {
    assert CycleOk(VLab(m, g), v);
    RotateToIsCycle(m.onext, g.vcyc[v], m.vEdge[v]);
  }

  /** The Lnext loop of a face, read from its anchor. */
  lemma FaceLoop(m: Mesh, g: Shape, f: int)
    requires Inv(m, g) && f in g.fring && f != 0
    ensures f in g.fcyc && 0 <= f < |m.fEdge| && m.fEdge[f] in g.fcyc[f]
    ensures IsCycle(m.lnext, g.fcyc[f])
    ensures IsCycle(m.lnext, RotateTo(g.fcyc[f], m.fEdge[f]))
    ensures forall z :: z in g.fcyc[f] ==> z in g.live && 0 <= z < |m.lface| && m.lface[z] == f
  {
    assert CycleOk(FLab(m, g), f);
    RotateToIsCycle(m.lnext, g.fcyc[f], m.fEdge[f]);
  }

  /** A half-edge and its Lnext have the same left face, nil included. */
  lemma LnextSameFace(m: Mesh, g: Shape, e: int)
    requires Inv(m, g) && e in g.live
    ensures 0 <= e < |m.lnext| && 0 <= m.lnext[e] < |m.lface| && m.lface[m.lnext[e]] == m.lface[e]
  {
    var L := FLab(m, g);
    LiveNav(m, g, e);
    var d := m.lnext[e];
    if m.lface[d] != NIL {
      // e is the Lnext predecessor of d on d's face loop
      LabelCycle(L, d);
      assert CycleOk(L, m.lface[d]);
      var p := PredOnCycle(m.lnext, g.fcyc[m.lface[d]], d);
      LnextInjective(m, g, p, e);
    } else if m.lface[e] != NIL {
      LabelCycle(L, e);
    }
  }

  /** The faces seen from the half-edges whose Lnext swap a splice makes. */
  lemma SpliceFaceEnds(m: Mesh, g: Shape, eOrg: int, eDst: int)
    requires Inv(m, g) && eOrg in g.live && eDst in g.live && eOrg != eDst
    ensures 0 <= eOrg < |m.onext| && 0 <= eDst < |m.onext|
    ensures 0 <= m.onext[eOrg] < |m.onext| && 0 <= m.onext[eDst] < |m.onext|
    ensures var x := Sym(m.onext[eDst]); var y := Sym(m.onext[eOrg]);
      && x != y && x in g.live && y in g.live && 0 <= x < |m.lnext| && 0 <= y < |m.lnext|
      && m.lnext[x] == eDst && m.lnext[y] == eOrg
      && m.lface[x] == m.lface[eDst] && m.lface[y] == m.lface[eOrg]
  {
    LiveNav(m, g, eOrg);
    LiveNav(m, g, eDst);
    NextInjective(m, g, eOrg, eDst);
    LnextSameFace(m, g, Sym(m.onext[eDst]));
    LnextSameFace(m, g, Sym(m.onext[eOrg]));
  }

  /** tab' is tab with the entries of c set to `to`. */
  ghost predicate Relabelled(tab: seq<int>, tab': seq<int>, c: seq<int>, to: int) {
    |tab'| == |tab| && forall z :: 0 <= z < |tab| ==> tab'[z] == if z in c then to else tab[z]
  }

  /** When labels d and o differ, d is a label in use whose loop k (holding
      the members of cyc[d]) starts at d's anchor: what killing d needs. */
  ghost predicate KillReady(succ: seq<int>, anchor: seq<int>, ring: seq<int>,
                            cyc: map<int, seq<int>>, d: int, o: int, k: seq<int>) {
    d != o ==>
      && d in ring && d != 0 && 0 <= d < |anchor| && IsCycle(succ, k) && k[0] == anchor[d]
      && d in cyc && forall z :: z in k <==> z in cyc[d]
  }

  /** splice(eOrg, eDst): exchanges eOrg.Onext and eDst.Onext. Two distinct
      vertices are joined (eDst's destroyed) or one is split (eDst's part a
      new vertex); likewise two distinct faces are joined or one is split.
      eOrg keeps its origin and its left face. */
  method SpliceOp(m: Mesh, ghost g: Shape, eOrg: int, eDst: int) returns (m': Mesh, ghost g': Shape)
    requires Inv(m, g) && eOrg in g.live && eDst in g.live
    requires eOrg != eDst ==> m.lface[eDst] != NIL
    ensures Inv(m', g') && g'.live == g.live && g'.ering == g.ering && m'.eNext == m.eNext
    ensures eOrg == eDst ==> m' == m && g' == g
    ensures m'.winding == m.winding
    ensures m'.org[eOrg] == m.org[eOrg] && m'.lface[eOrg] == m.lface[eOrg]
    ensures eOrg != eDst ==> m'.onext[eOrg] == m.onext[eDst] && m'.onext[eDst] == m.onext[eOrg]
    ensures forall z :: 0 <= z < |m.onext| && z != eOrg && z != eDst ==> m'.onext[z] == m.onext[z]
    ensures eOrg != eDst ==> (m'.org[eDst] == m'.org[eOrg] <==> m.org[eDst] != m.org[eOrg])
    ensures eOrg != eDst ==> (m'.lface[eDst] == m'.lface[eOrg] <==> m.lface[eDst] != m.lface[eOrg])
    ensures VertexCount(g') == VertexCount(g) +
      (if eOrg == eDst then 0 else if m.org[eDst] == m.org[eOrg] then 1 else -1)
    ensures FaceCount(g') == FaceCount(g) +
      (if eOrg == eDst then 0 else if m.lface[eDst] == m.lface[eOrg] then 1 else -1)
  {
    if eOrg == eDst {
      return m, g;
    }
    SpliceFaceEnds(m, g, eOrg, eDst);
    ghost var kv, kf := SpliceDoomedLoops(m, g, eOrg, eDst);
    ghost var cv, cf := SpliceNewLoops(m, g, eOrg, eDst);
    var m2, vring1, fring1 := SpliceKills(m, eOrg, eDst, kv, kf, g.vring, g.fring);
    SpliceIsSwap(m2, eDst, eOrg);
    var m3 := Splice(m2, eDst, eOrg);
    ghost var vring2, fring2;
    m', vring2, fring2 := SpliceMakes(m3, eOrg, eDst, m.org[eDst] != m.org[eOrg],
                                      m.lface[eDst] != m.lface[eOrg], cv, cf, vring1, fring1);
    g' := SpliceShape(m, g, eOrg, eDst, kv, kf, cv, cf, m2, m', vring2, fring2);
    LabelsBelow(m, g, eOrg);
    SpliceFlip(m.org, m2.org, m'.org, kv, cv, eOrg, eDst, |m.vNext|);
    SpliceFlip(m.lface, m2.lface, m'.lface, kf, cf, eOrg, eDst, |m.fNext|);
  }

  /** A label table through a splice: joining relabels the doomed loop k to
      eOrg's label, splitting relabels eDst's part c to a fresh label n. */
  lemma SpliceFlip(tab: seq<int>, tab2: seq<int>, tab': seq<int>, k: seq<int>, c: seq<int>,
                   eOrg: int, eDst: int, n: int)
    requires 0 <= eOrg < |tab| && 0 <= eDst < |tab|
    requires tab[eDst] != tab[eOrg] ==>
      eDst in k && eOrg !in k && Relabelled(tab, tab2, k, tab[eOrg]) && tab' == tab2
    requires tab[eDst] == tab[eOrg] ==>
      tab2 == tab && eDst in c && eOrg !in c && Relabelled(tab, tab', c, n) && tab[eOrg] != n
    ensures tab'[eOrg] == tab[eOrg]
    ensures tab'[eDst] == tab'[eOrg] <==> tab[eDst] != tab[eOrg]
  {
  }

  /** The loops of the labels a splice of distinct half-edges destroys when it
      joins: eDst's vertex and eDst's face, each read from its anchor. */
  lemma SpliceDoomedLoops(m: Mesh, g: Shape, eOrg: int, eDst: int) returns (kv: seq<int>, kf: seq<int>)
    requires Inv(m, g) && eOrg in g.live && eDst in g.live && eOrg != eDst && m.lface[eDst] != NIL
    ensures 0 <= eOrg < |m.onext| && 0 <= eDst < |m.onext|
    ensures KillReady(m.onext, m.vEdge, g.vring, g.vcyc, m.org[eDst], m.org[eOrg], kv)
    ensures KillReady(m.lnext, m.fEdge, g.fring, g.fcyc, m.lface[eDst], m.lface[eOrg], kf)
    ensures m.org[eDst] != m.org[eOrg] ==> eDst in kv && eOrg !in kv
    ensures m.lface[eDst] != m.lface[eOrg] ==> eDst in kf && eOrg !in kf
  {
    LiveOrg(m, g, eOrg);
    LiveOrg(m, g, eDst);
    LiveFace(m, g, eDst);
    kv, kf := [], [];
    var vo, vd := m.org[eOrg], m.org[eDst];
    var fo, fd := m.lface[eOrg], m.lface[eDst];
    if vd != vo {
      VertexLoop(m, g, vd);
      kv := RotateTo(g.vcyc[vd], m.vEdge[vd]);
    }
    if fd != fo {
      FaceLoop(m, g, fd);
      kf := RotateTo(g.fcyc[fd], m.fEdge[fd]);
    }
  }

  /** The loops that become new records when the splice splits: eDst's part
      of the common vertex and of the common face. */
  lemma SpliceNewLoops(m: Mesh, g: Shape, eOrg: int, eDst: int) returns (cv: seq<int>, cf: seq<int>)
    requires Inv(m, g) && eOrg in g.live && eDst in g.live && eOrg != eDst && m.lface[eDst] != NIL
    ensures 0 <= eOrg < |m.onext| && 0 <= eDst < |m.onext|
    ensures 0 <= m.onext[eOrg] < |m.onext| && 0 <= m.onext[eDst] < |m.onext|
    ensures var x := Sym(m.onext[eDst]); var y := Sym(m.onext[eOrg]);
      0 <= x < |m.lnext| && 0 <= y < |m.lnext|
    ensures m.org[eDst] == m.org[eOrg] ==>
      && var v := m.org[eOrg];
      && v in g.vring && v in g.vcyc && eOrg in g.vcyc[v] && eDst in g.vcyc[v]
      && cv == Halves(g.vcyc[v], eDst, eOrg).0
      && IsCycle(SwapSucc(m.onext, eDst, eOrg), cv) && cv[0] == eDst && eOrg !in cv
    ensures m.lface[eDst] == m.lface[eOrg] ==>
      && var f := m.lface[eOrg]; var x := Sym(m.onext[eDst]); var y := Sym(m.onext[eOrg]);
      && f in g.fring && f in g.fcyc && x != y && x in g.fcyc[f] && y in g.fcyc[f]
      && eDst in Halves(g.fcyc[f], x, y).1
      && (forall z :: z in cf <==> z in Halves(g.fcyc[f], x, y).1)
      && IsCycle(SwapSucc(m.lnext, x, y), cf) && cf[0] == eDst && eOrg !in cf
  {
    LiveOrg(m, g, eOrg);
    LiveOrg(m, g, eDst);
    LiveFace(m, g, eDst);
    SpliceFaceEnds(m, g, eOrg, eDst);
    cv, cf := [eDst], [eDst];
    if m.org[eDst] == m.org[eOrg] {
      var v := m.org[eOrg];
      VertexLoop(m, g, v);
      SwapHalves(m.onext, g.vcyc[v], eDst, eOrg);
      cv := Halves(g.vcyc[v], eDst, eOrg).0;
    }
    if m.lface[eDst] == m.lface[eOrg] {
      var f := m.lface[eOrg];
      var x := Sym(m.onext[eDst]);
      var y := Sym(m.onext[eOrg]);
      LiveFace(m, g, x);
      LiveFace(m, g, y);
      FaceLoop(m, g, f);
      SwapHalves(m.lnext, g.fcyc[f], x, y);
      var n := Halves(g.fcyc[f], x, y).1;
      RotateToIsCycle(SwapSucc(m.lnext, x, y), n, eDst);
      cf := RotateTo(n, eDst);
    }
  }

  /** The destructions that precede the splice: eDst's vertex when the two
      origins differ, eDst's face when the two left faces differ. */
  method SpliceKills(m: Mesh, eOrg: int, eDst: int, ghost kv: seq<int>, ghost kf: seq<int>,
                     ghost vr: seq<int>, ghost fr: seq<int>)
    returns (m': Mesh, ghost vring: seq<int>, ghost fring: seq<int>)
    requires Shaped(m) && IsRing(m.vNext, m.vPrev, vr) && IsRing(m.fNext, m.fPrev, fr)
    requires 0 <= eOrg < |m.org| && 0 <= eDst < |m.org|
    requires m.org[eDst] != m.org[eOrg] ==>
      && var vd := m.org[eDst];
      && vd in vr && vd != 0 && 0 <= vd < |m.vEdge| && IsCycle(m.onext, kv) && kv[0] == m.vEdge[vd]
    requires m.lface[eDst] != m.lface[eOrg] ==>
      && var fd := m.lface[eDst];
      && fd in fr && fd != 0 && 0 <= fd < |m.fEdge| && IsCycle(m.lnext, kf) && kf[0] == m.fEdge[fd]
    ensures Shaped(m')
    ensures m' == m.(vNext := m'.vNext, vPrev := m'.vPrev, org := m'.org,
                     fNext := m'.fNext, fPrev := m'.fPrev, lface := m'.lface)
    ensures IsRing(m'.vNext, m'.vPrev, vring) && IsRing(m'.fNext, m'.fPrev, fring)
    ensures m.org[eDst] == m.org[eOrg] ==> m'.org == m.org && vring == vr
    ensures m.org[eDst] != m.org[eOrg] ==>
      && Relabelled(m.org, m'.org, kv, m.org[eOrg])
      && (forall z :: z in vring <==> z in vr && z != m.org[eDst]) && |vring| == |vr| - 1
    ensures m.lface[eDst] == m.lface[eOrg] ==> m'.lface == m.lface && fring == fr
    ensures m.lface[eDst] != m.lface[eOrg] ==>
      && Relabelled(m.lface, m'.lface, kf, m.lface[eOrg])
      && (forall z :: z in fring <==> z in fr && z != m.lface[eDst]) && |fring| == |fr| - 1
  {
    var vo, vd := m.org[eOrg], m.org[eDst];
    var fo, fd := m.lface[eOrg], m.lface[eDst];
    m' := m;
    vring, fring := vr, fr;
    if vd != vo {
      // two vertices become one: eDst's is destroyed
      m' := KillVertex(m, vd, vo, kv, vr);
      RemoveAtContents(vr, IndexOf(vr, vd));
      vring := RemoveAt(vr, IndexOf(vr, vd));
    }
    if fd != fo {
      // two loops become one: eDst's face is destroyed
      m' := KillFace(m', fd, fo, kf, fr);
      RemoveAtContents(fr, IndexOf(fr, fd));
      fring := RemoveAt(fr, IndexOf(fr, fd));
    }
  }

  /** The creations that follow the splice: a vertex for eDst's Onext loop
      and a face for eDst's Lnext loop when the splice split them; the old
      records are re-anchored at eOrg. */
  method SpliceMakes(m: Mesh, eOrg: int, eDst: int, joiningVertices: bool, joiningLoops: bool,
                     ghost cv: seq<int>, ghost cf: seq<int>, ghost vring: seq<int>, ghost fring: seq<int>)
    returns (m': Mesh, ghost vring': seq<int>, ghost fring': seq<int>)
    requires Shaped(m) && IsRing(m.vNext, m.vPrev, vring) && IsRing(m.fNext, m.fPrev, fring)
    requires 0 <= eOrg < |m.org| && 0 <= eDst < |m.org|
    requires !joiningVertices ==>
      m.org[eOrg] in vring && IsCycle(m.onext, cv) && cv[0] == eDst && eOrg !in cv
    requires !joiningLoops ==>
      m.lface[eOrg] in fring && IsCycle(m.lnext, cf) && cf[0] == eDst && eOrg !in cf
    ensures m' == m.(vNext := m'.vNext, vPrev := m'.vPrev, vEdge := m'.vEdge, vS := m'.vS,
                     vT := m'.vT, org := m'.org, fNext := m'.fNext, fPrev := m'.fPrev,
                     fEdge := m'.fEdge, fInside := m'.fInside, fMarked := m'.fMarked,
                     lface := m'.lface)
    ensures Shaped(m')
    ensures IsRing(m'.vNext, m'.vPrev, vring') && IsRing(m'.fNext, m'.fPrev, fring')
    ensures joiningVertices ==> m'.vEdge == m.vEdge && m'.org == m.org && vring' == vring
    ensures !joiningVertices ==>
      && Relabelled(m.org, m'.org, cv, |m.vNext|)
      && m'.vEdge == (m.vEdge + [eDst])[m.org[eOrg] := eOrg]
      && (forall z :: z in vring' <==> z in vring || z == |m.vNext|) && |vring'| == |vring| + 1
    ensures joiningLoops ==> m'.fEdge == m.fEdge && m'.lface == m.lface && fring' == fring
    ensures !joiningLoops ==>
      && Relabelled(m.lface, m'.lface, cf, |m.fNext|)
      && m'.fEdge == (m.fEdge + [eDst])[m.lface[eOrg] := eOrg]
      && (forall z :: z in fring' <==> z in fring || z == |m.fNext|) && |fring'| == |fring| + 1
  {
    m' := m;
    vring', fring' := vring, fring;
    if !joiningVertices {
      // one vertex becomes two: eDst's part is a new vertex
      var vNew;
      m', vNew := MakeVertex(m, eDst, m.org[eOrg], cv, vring);
      m' := m'.(vEdge := m'.vEdge[m'.org[eOrg] := eOrg]);
      vring' := InsertAt(vring, IndexOf(vring, m.org[eOrg]), vNew);
    }
    if !joiningLoops {
      // one loop becomes two: eDst's part is a new face
      var m1 := m';
      var fNew;
      m', fNew := MakeFace(m1, eDst, m.lface[eOrg], cf, fring);
      m' := m'.(fEdge := m'.fEdge[m'.lface[eOrg] := eOrg]);
      fring' := InsertAt(fring, IndexOf(fring, m.lface[eOrg]), fNew);
    }
  }

  /** The shape after a splice of distinct half-edges, assembled from the
      phases: the vertex and face labels are re-established by
      `SpliceVertices` and `SpliceFaces`, the edge algebra by
      `SplicePreservesAlgebra`. */
  lemma SpliceShape(m: Mesh, g: Shape, eOrg: int, eDst: int, kv: seq<int>, kf: seq<int>,
                    cv: seq<int>, cf: seq<int>, m2: Mesh, m': Mesh, vring': seq<int>, fring': seq<int>)
    returns (g': Shape)
    requires Inv(m, g) && eOrg in g.live && eDst in g.live && eOrg != eDst && m.lface[eDst] != NIL
    requires KillReady(m.onext, m.vEdge, g.vring, g.vcyc, m.org[eDst], m.org[eOrg], kv)
    requires KillReady(m.lnext, m.fEdge, g.fring, g.fcyc, m.lface[eDst], m.lface[eOrg], kf)
    requires Shaped(m2) && m2.onext == m.onext && m2.lnext == m.lnext
    requires 0 <= eOrg < |m.onext| && 0 <= eDst < |m.onext|
    requires 0 <= m.onext[eOrg] < |m.onext| && 0 <= m.onext[eDst] < |m.onext|
    requires Shaped(m') && m'.eNext == m.eNext
    requires m'.onext == Splice(m2, eDst, eOrg).onext && m'.lnext == Splice(m2, eDst, eOrg).lnext
    requires IsRing(m'.vNext, m'.vPrev, vring') && IsRing(m'.fNext, m'.fPrev, fring')
    requires m.org[eDst] != m.org[eOrg] ==>
      && Relabelled(m.org, m'.org, kv, m.org[eOrg]) && m'.vEdge == m.vEdge
      && (forall z :: z in vring' <==> z in g.vring && z != m.org[eDst]) && |vring'| == |g.vring| - 1
    requires m.org[eDst] == m.org[eOrg] ==>
      && m.org[eOrg] in g.vcyc && eOrg in g.vcyc[m.org[eOrg]] && eDst in g.vcyc[m.org[eOrg]]
      && cv == Halves(g.vcyc[m.org[eOrg]], eDst, eOrg).0 && eOrg !in cv && eDst in cv
      && Relabelled(m.org, m'.org, cv, |m.vNext|)
      && m'.vEdge == (m.vEdge + [eDst])[m.org[eOrg] := eOrg]
      && (forall z :: z in vring' <==> z in g.vring || z == |m.vNext|) && |vring'| == |g.vring| + 1
    requires var x := Sym(m.onext[eDst]); var y := Sym(m.onext[eOrg]);
      m.lface[eDst] == m.lface[eOrg] ==>
      && m.lface[eOrg] in g.fcyc && x != y && x in g.fcyc[m.lface[eOrg]] && y in g.fcyc[m.lface[eOrg]]
      && (forall z :: z in cf <==> z in Halves(g.fcyc[m.lface[eOrg]], x, y).1)
      && eOrg !in cf && eDst in cf
      && Relabelled(m.lface, m'.lface, cf, |m.fNext|)
      && m'.fEdge == (m.fEdge + [eDst])[m.lface[eOrg] := eOrg]
      && (forall z :: z in fring' <==> z in g.fring || z == |m.fNext|) && |fring'| == |g.fring| + 1
    requires m.lface[eDst] != m.lface[eOrg] ==>
      && Relabelled(m.lface, m'.lface, kf, m.lface[eOrg]) && m'.fEdge == m.fEdge
      && (forall z :: z in fring' <==> z in g.fring && z != m.lface[eDst]) && |fring'| == |g.fring| - 1
    ensures Inv(m', g') && g'.live == g.live && g'.ering == g.ering
    ensures g'.vring == vring' && g'.fring == fring'
  {
    SpliceFaceEnds(m, g, eOrg, eDst);
    SpliceIsSwap(m2, eDst, eOrg);
    SplicePreservesAlgebra(m2, g.live, eDst, eOrg);
    var vcyc' := SpliceShapeV(m, g, eOrg, eDst, kv, cv, m', vring');
    var fcyc' := SpliceShapeF(m, g, eOrg, eDst, Sym(m.onext[eDst]), Sym(m.onext[eOrg]), kf, cf, m', fring');
    g' := Shape(vring', fring', g.ering, vcyc', fcyc', g.live);
    assert Shaped(m');
    assert IsRing(m'.vNext, m'.vPrev, g'.vring);
    assert IsRing(m'.fNext, m'.fPrev, g'.fring);
    assert IsEdgeRing(m'.eNext, g'.ering);
    assert LiveIsListed(m', g');
    assert Valid(VLab(m', g'));
    assert Valid(FLab(m', g'));
    assert Algebra(m'.onext, m'.lnext, g'.live);
    assert Sentinels(m');
  }

  /** `SpliceVertices` on the vertex labels of the mesh. */
  lemma SpliceShapeV(m: Mesh, g: Shape, eOrg: int, eDst: int, kv: seq<int>, cv: seq<int>,
                     m': Mesh, vring': seq<int>) returns (vcyc': map<int, seq<int>>)
    requires Shaped(m) && Valid(VLab(m, g)) && eOrg in g.live && eDst in g.live && eOrg != eDst
    requires |m.vEdge| > 0 && m.vEdge[0] == NIL
    requires 0 <= eOrg < |m.onext| && 0 <= eDst < |m.onext|
    requires m'.onext == SwapSucc(m.onext, eDst, eOrg)
    requires KillReady(m.onext, m.vEdge, g.vring, g.vcyc, m.org[eDst], m.org[eOrg], kv)
    requires m.org[eDst] != m.org[eOrg] ==>
      && Relabelled(m.org, m'.org, kv, m.org[eOrg]) && m'.vEdge == m.vEdge
      && (forall z :: z in vring' <==> z in g.vring && z != m.org[eDst])
    requires m.org[eDst] == m.org[eOrg] ==>
      && m.org[eOrg] in g.vcyc && eOrg in g.vcyc[m.org[eOrg]] && eDst in g.vcyc[m.org[eOrg]]
      && cv == Halves(g.vcyc[m.org[eOrg]], eDst, eOrg).0
      && Relabelled(m.org, m'.org, cv, |m.vNext|)
      && m'.vEdge == (m.vEdge + [eDst])[m.org[eOrg] := eOrg]
      && (forall z :: z in vring' <==> z in g.vring || z == |m.vNext|)
    ensures Valid(Lab(m'.onext, m'.org, m'.vEdge, vring', vcyc', g.live, false))
    ensures |m'.vEdge| > 0 && m'.vEdge[0] == NIL
  {
    var L := VLab(m, g);
    assert CoverAt(L, eOrg) && CoverAt(L, eDst);
    vcyc' := SpliceVertices(L, eOrg, eDst, m'.onext, m'.org, m'.vEdge, vring');
  }

  /** `SpliceFaces` on the face labels of the mesh, with x and y the
      half-edges whose Lnext are eDst and eOrg. */
  lemma SpliceShapeF(m: Mesh, g: Shape, eOrg: int, eDst: int, x: int, y: int, kf: seq<int>,
                     cf: seq<int>, m': Mesh, fring': seq<int>) returns (fcyc': map<int, seq<int>>)
    requires Shaped(m) && Valid(FLab(m, g)) && eOrg != eDst && x != y && x in g.live && y in g.live
    requires |m.fEdge| > 0 && m.fEdge[0] == NIL
    requires 0 <= eOrg < |m.lnext| && 0 <= eDst < |m.lnext|
    requires 0 <= x < |m.lnext| && 0 <= y < |m.lnext| && m.lnext[x] == eDst && m.lnext[y] == eOrg
    requires m.lface[x] == m.lface[eDst] && m.lface[y] == m.lface[eOrg] && m.lface[eDst] != NIL
    requires m'.lnext == SwapSucc(m.lnext, x, y)
    requires KillReady(m.lnext, m.fEdge, g.fring, g.fcyc, m.lface[eDst], m.lface[eOrg], kf)
    requires m.lface[eDst] != m.lface[eOrg] ==>
      && Relabelled(m.lface, m'.lface, kf, m.lface[eOrg]) && m'.fEdge == m.fEdge
      && (forall z :: z in fring' <==> z in g.fring && z != m.lface[eDst])
    requires m.lface[eDst] == m.lface[eOrg] ==>
      && m.lface[eOrg] in g.fcyc && x in g.fcyc[m.lface[eOrg]] && y in g.fcyc[m.lface[eOrg]]
      && (forall z :: z in cf <==> z in Halves(g.fcyc[m.lface[eOrg]], x, y).1)
      && Relabelled(m.lface, m'.lface, cf, |m.fNext|)
      && m'.fEdge == (m.fEdge + [eDst])[m.lface[eOrg] := eOrg]
      && (forall z :: z in fring' <==> z in g.fring || z == |m.fNext|)
    ensures Valid(Lab(m'.lnext, m'.lface, m'.fEdge, fring', fcyc', g.live, true))
    ensures |m'.fEdge| > 0 && m'.fEdge[0] == NIL
  {
    var L := FLab(m, g);
    assert CoverAt(L, x);
    if m.lface[y] != NIL {
      assert CoverAt(L, y);
    }
    fcyc' := SpliceFaces(L, eOrg, eDst, x, y, m'.lnext, m'.lface, m'.fEdge, fring');
  }

  /** splice on the vertex labels: a swap of the Onext successors of eDst and
      eOrg joins their two vertices, eDst's retired, or splits their common
      vertex, eDst's part taking the fresh vertex |anchor|. */
  lemma SpliceVertices(L: Lab, eOrg: int, eDst: int, succ': seq<int>, lab': seq<int>,
                       anchor': seq<int>, ring': seq<int>) returns (cyc': map<int, seq<int>>)
    requires Valid(L) && eOrg != eDst && 0 <= eOrg < |L.lab| && 0 <= eDst < |L.lab|
    requires Used(L, L.lab[eOrg]) && Used(L, L.lab[eDst])
    requires L.lab[eOrg] in L.cyc && L.lab[eDst] in L.cyc
    requires eOrg in L.cyc[L.lab[eOrg]] && eDst in L.cyc[L.lab[eDst]]
    requires 0 <= eOrg < |L.succ| && 0 <= eDst < |L.succ| && succ' == SwapSucc(L.succ, eDst, eOrg)
    requires |lab'| == |L.lab|
    requires L.lab[eOrg] != L.lab[eDst] ==>
      && (forall z :: 0 <= z < |L.lab| ==>
            lab'[z] == if z in L.cyc[L.lab[eDst]] then L.lab[eOrg] else L.lab[z])
      && anchor' == L.anchor
      && (forall z :: z in ring' <==> z in L.ring && z != L.lab[eDst])
    requires L.lab[eOrg] == L.lab[eDst] ==>
      && (forall z :: 0 <= z < |L.lab| ==>
            lab'[z] == if z in Halves(L.cyc[L.lab[eOrg]], eDst, eOrg).0 then |L.anchor| else L.lab[z])
      && anchor' == (L.anchor + [eDst])[L.lab[eOrg] := eOrg]
      && (forall z :: z in ring' <==> z in L.ring || z == |L.anchor|)
    ensures Valid(L.(succ := succ', lab := lab', anchor := anchor', ring := ring', cyc := cyc'))
  {
    if L.lab[eOrg] != L.lab[eDst] {
      SwapSymmetric(L.succ, eDst, eOrg);
      cyc' := JoinStep(L, L.lab[eOrg], L.lab[eDst], eOrg, eDst, succ', lab', ring');
    } else {
      cyc' := SplitStep(L, L.lab[eOrg], eDst, eOrg, true, eDst, eOrg, succ', lab', ring');
    }
  }

  /** `Join` keeping the anchor of the surviving label. */
  lemma JoinStep(L: Lab, u: int, v: int, x: int, y: int, succ': seq<int>, lab': seq<int>,
                 ring': seq<int>) returns (cyc': map<int, seq<int>>)
    requires Valid(L) && Used(L, u) && Used(L, v) && u != v
    requires u in L.cyc && v in L.cyc && x in L.cyc[u] && y in L.cyc[v]
    requires 0 <= x < |L.succ| && 0 <= y < |L.succ| && succ' == SwapSucc(L.succ, x, y)
    requires |lab'| == |L.lab|
    requires forall z :: 0 <= z < |L.lab| ==> lab'[z] == if z in L.cyc[v] then u else L.lab[z]
    requires forall z :: z in ring' <==> z in L.ring && z != v
    ensures Valid(L.(succ := succ', lab := lab', ring := ring', cyc := cyc'))
  {
    assert CycleOk(L, u);
    Join(L, u, v, x, y, L.anchor[u], succ', lab', ring');
    var cx := RotateTo(L.cyc[u], x);
    var cy := RotateTo(L.cyc[v], y);
    cyc' := L.cyc[u := [x] + cy[1..] + [y] + cx[1..]];
    assert L.anchor[u := L.anchor[u]] == L.anchor;
  }

  /** `SplitAt` with the fresh label |anchor|. */
  lemma SplitStep(L: Lab, v: int, x: int, y: int, newGetsFirst: bool, aw: int, av: int,
                  succ': seq<int>, lab': seq<int>, ring': seq<int>) returns (cyc': map<int, seq<int>>)
    requires Valid(L) && Used(L, v) && v in L.cyc && x in L.cyc[v] && y in L.cyc[v] && x != y
    requires 0 <= x < |L.succ| && 0 <= y < |L.succ| && succ' == SwapSucc(L.succ, x, y)
    requires var h := Halves(L.cyc[v], x, y);
      var n := if newGetsFirst then h.0 else h.1;
      var k := if newGetsFirst then h.1 else h.0;
      && aw in n && av in k
      && |lab'| == |L.lab|
      && forall z :: 0 <= z < |L.lab| ==> lab'[z] == if z in n then |L.anchor| else L.lab[z]
    requires forall z :: z in ring' <==> z in L.ring || z == |L.anchor|
    ensures Valid(L.(succ := succ', lab := lab', anchor := (L.anchor + [aw])[v := av], ring := ring',
                     cyc := cyc'))
  {
    assert CycleOk(L, v);
    SplitAt(L, v, x, y, newGetsFirst, |L.anchor|, aw, av, succ', lab', ring');
    var h := Halves(L.cyc[v], x, y);
    var n := if newGetsFirst then h.0 else h.1;
    var k := if newGetsFirst then h.1 else h.0;
    cyc' := L.cyc[v := k][|L.anchor| := n];
  }

  /** splice on the face labels, with x = eDst.Onext.Sym and y = eOrg.Onext.Sym
      (the half-edges whose Lnext are eDst and eOrg): the swap of their Lnext
      successors joins eDst's face into eOrg's (or into nil), or splits their
      common face, eDst's part taking the fresh face |anchor|. */
  lemma SpliceFaces(L: Lab, eOrg: int, eDst: int, x: int, y: int, succ': seq<int>, lab': seq<int>,
                    anchor': seq<int>, ring': seq<int>) returns (cyc': map<int, seq<int>>)
    requires Valid(L) && L.nilOk && x != y && x in L.live && y in L.live
    requires 0 <= x < |L.succ| && 0 <= y < |L.succ| && L.succ[x] == eDst && L.succ[y] == eOrg
    requires succ' == SwapSucc(L.succ, x, y) && |lab'| == |L.lab|
    requires L.lab[x] != NIL && Used(L, L.lab[x]) && L.lab[x] in L.cyc && x in L.cyc[L.lab[x]]
    requires L.lab[y] != NIL ==> Used(L, L.lab[y]) && L.lab[y] in L.cyc && y in L.cyc[L.lab[y]]
    requires L.lab[y] != L.lab[x] ==>
      && (forall z :: 0 <= z < |L.lab| ==>
            lab'[z] == if z in L.cyc[L.lab[x]] then L.lab[y] else L.lab[z])
      && anchor' == L.anchor
      && (forall z :: z in ring' <==> z in L.ring && z != L.lab[x])
    requires L.lab[y] == L.lab[x] ==>
      && (forall z :: 0 <= z < |L.lab| ==>
            lab'[z] == if z in Halves(L.cyc[L.lab[x]], x, y).1 then |L.anchor| else L.lab[z])
      && anchor' == (L.anchor + [eDst])[L.lab[x] := eOrg]
      && (forall z :: z in ring' <==> z in L.ring || z == |L.anchor|)
    ensures Valid(L.(succ := succ', lab := lab', anchor := anchor', ring := ring', cyc := cyc'))
  {
    var fo := L.lab[y];
    var fd := L.lab[x];
    if fo == fd {
      assert CycleOk(L, fd);
      SwapHalves(L.succ, L.cyc[fd], x, y);
      cyc' := SplitStep(L, fd, x, y, false, eDst, eOrg, succ', lab', ring');
    } else if fo != NIL {
      SwapSymmetric(L.succ, x, y);
      cyc' := JoinStep(L, fo, fd, y, x, succ', lab', ring');
    } else {
      cyc' := KillNilStep(L, fd, x, y, succ', lab', ring');
    }
  }

  /** A face joined into nil: its cycle is relabelled nil, then the swap of
      two nil-labelled successors. */
  lemma KillNilStep(L: Lab, v: int, x: int, y: int, succ': seq<int>, lab': seq<int>, ring': seq<int>)
    returns (cyc': map<int, seq<int>>)
    requires Valid(L) && L.nilOk && Used(L, v) && v in L.cyc && x in L.cyc[v]
    requires y in L.live && 0 <= y < |L.lab| && L.lab[y] == NIL
    requires 0 <= x < |L.succ| && 0 <= y < |L.succ| && succ' == SwapSucc(L.succ, x, y)
    requires |lab'| == |L.lab|
    requires forall z :: 0 <= z < |L.lab| ==> lab'[z] == if z in L.cyc[v] then NIL else L.lab[z]
    requires forall z :: z in ring' <==> z in L.ring && z != v
    ensures Valid(L.(succ := succ', lab := lab', ring := ring', cyc := cyc'))
  {
    assert CycleOk(L, v);
    Kill(L, v, NIL, false, lab', ring');
    var L1 := L.(lab := lab', ring := ring');
    SwapNil(L1, x, y, succ');
    cyc' := L.cyc;
  }
}
