/** The clean-up after the sweep that removes degenerate faces
    (removeDegenerateFaces, Sweep.swift): a face bounded by only two edges
    is dissolved by deleting one of them, after its windings have been
    folded into the neighbouring edge around the origin. */
module DegenerateFaces {
  import opened Labels
  import opened MeshUtils
  import opened MeshContext
  import opened MO = Mesh
  import Cycles
  import MeshOps
  import MeshDelete
  import TessMesh

  /** e and its left successor close a face between them. */
  predicate IsDigon(m: Mesh, e: int) {
    0 <= e < |m.lnext| && 0 <= m.lnext[e] < |m.lnext| && m.lnext[m.lnext[e]] == e
  }

  /** One step of removeDegenerateFaces, on face f. When f's anchor edge e
      closes a two-edge face, e's windings move to e.Onext and e is deleted,
      which removes face f: one face fewer, and no remaining half-edge has f
      on its left. Every remaining half-edge keeps its origin and steps over
      e's pair in its Onext loop. Every other face is left alone. The
      windings the remaining edges see change only at e.Onext's pair, and
      there by e's own. */
  method DropDigon(m: Mesh, ghost g: Shape, f: int) returns (m': Mesh, ghost g': Shape)
    requires TessMesh.Valid(m, g) && TessMesh.AllFaced(m, g.live) && f in g.fring && f != 0
    requires 0 <= f < |m.fEdge| && 0 <= m.fEdge[f] < |m.lnext| && m.lnext[m.fEdge[f]] != m.fEdge[f]
    ensures TessMesh.Valid(m', g') && TessMesh.AllFaced(m', g'.live)
    ensures var e := m.fEdge[f];
      && (!IsDigon(m, e) ==> m' == m && g' == g)
      && (IsDigon(m, e) ==> g'.live == g.live - {e, Sym(e)} && EdgeCount(g') == EdgeCount(g) - 1)
    ensures var e := m.fEdge[f];
      IsDigon(m, e) ==> 0 <= e < |m.onext| && forall z :: z in g'.live ==>
        && 0 <= z < |m.winding| && 0 <= z < |m'.winding| && 0 <= Sym(e) < |m.winding|
        && m'.winding[z] == m.winding[z] + Moved(m, e, z)
    ensures var e := m.fEdge[f];
      IsDigon(m, e) ==> FaceCount(g') == FaceCount(g) - 1 && forall z :: z in g'.live ==>
        && 0 <= z < |m.onext| && 0 <= z < |m'.lface|
        && m'.lface[z] != f && m'.org[z] == m.org[z] && m'.onext[z] == MeshDelete.SkipPair(m.onext, e, Sym(e), z)
  {
    var e := m.fEdge[f];
    if !IsDigon(m, e) {
      return m, g;
    }
    AnchorLive(m, g, f);
    m', g' := DeleteDigon(m, g, e);
    DigonCases(m, g, e);
  }

  /** The winding a remaining half-edge z gains when e's pair is folded into
      e.Onext's. */
  function Moved(m: Mesh, e: int, z: int): int
    requires 0 <= e < |m.onext| && 0 <= Sym(e) < |m.winding| && 0 <= e < |m.winding|
  {
    if z == m.onext[e] then m.winding[e] else if z == Sym(m.onext[e]) then m.winding[Sym(e)] else 0
  }

  /** A face's anchor edge is live and has that face on its left. */
  lemma AnchorLive(m: Mesh, g: Shape, f: int)
    requires TessMesh.Valid(m, g) && f in g.fring && f != 0 && 0 <= f < |m.fEdge|
    ensures m.fEdge[f] in g.live && 0 <= m.fEdge[f] < |m.lface| && m.lface[m.fEdge[f]] == f
  {
    FaceLoop(m, g, f);
  }

  /** Folding e's windings into e.Onext's and deleting e. */
  method DeleteDigon(m: Mesh, ghost g: Shape, e: int) returns (m': Mesh, ghost g': Shape)
    requires TessMesh.Valid(m, g) && TessMesh.AllFaced(m, g.live) && e in g.live
    ensures TessMesh.Valid(m', g') && TessMesh.AllFaced(m', g'.live)
    ensures g'.live == g.live - {e, Sym(e)} && EdgeCount(g') == EdgeCount(g) - 1
    ensures 0 <= e < |m.onext| && forall z :: z in g'.live ==>
      && 0 <= z < |m.winding| && 0 <= z < |m'.winding| && 0 <= Sym(e) < |m.winding|
      && m'.winding[z] == m.winding[z] + Moved(m, e, z)
    ensures 0 <= e < |m.onext| && 0 <= Sym(e) < |m.onext| && Shaped(m)
    ensures FaceCount(g') == FaceCount(g) - (if MeshDelete.DstAlone(m, e) then 1 else 0)
      + (if m.lface[e] != Rface(m, e) then -1 else if m.onext[e] == e then 0 else 1)
    ensures forall z :: z in g'.live ==>
      && 0 <= z < |m.onext| && m'.onext[z] == MeshDelete.SkipPair(m.onext, e, Sym(e), z) && m'.org[z] == m.org[z]
      && (m.lface[e] != Rface(m, e) ==>
            m'.lface[z] == if m.lface[z] == m.lface[e] then Rface(m, e) else m.lface[z])
      && (m.lface[e] == Rface(m, e) ==>
            m'.lface[z] == m.lface[z] || (m.lface[z] == m.lface[e] && m'.lface[z] == |m.fEdge|))
  {
    DigonSides(m, g, e);
    var m1 := AddWinding(m, m.onext[e], e);
    Rewound(m, g, m1);
    m', g' := DeleteFaced(m1, g, e);
    WindingsMoved(m, e, m1, m'.winding, g.live, g'.live);
  }

  /** delete(e) on a mesh whose half-edges all have faces on both sides. */
  method DeleteFaced(m: Mesh, ghost g: Shape, e: int) returns (m': Mesh, ghost g': Shape)
    requires TessMesh.Valid(m, g) && TessMesh.AllFaced(m, g.live) && e in g.live
    ensures TessMesh.Valid(m', g') && TessMesh.AllFaced(m', g'.live)
    ensures g'.live == g.live - {e, Sym(e)} && EdgeCount(g') == EdgeCount(g) - 1 && m'.winding == m.winding
    ensures 0 <= e < |m.onext| && 0 <= Sym(e) < |m.onext| && Shaped(m)
    ensures FaceCount(g') == FaceCount(g) - (if MeshDelete.DstAlone(m, e) then 1 else 0)
      + (if m.lface[e] != Rface(m, e) then -1 else if m.onext[e] == e then 0 else 1)
    ensures forall z :: z in g'.live ==>
      && 0 <= z < |m.onext| && m'.onext[z] == MeshDelete.SkipPair(m.onext, e, Sym(e), z) && m'.org[z] == m.org[z]
      && (m.lface[e] != Rface(m, e) ==>
            m'.lface[z] == if m.lface[z] == m.lface[e] then Rface(m, e) else m.lface[z])
      && (m.lface[e] == Rface(m, e) ==>
            m'.lface[z] == m.lface[z] || (m.lface[z] == m.lface[e] && m'.lface[z] == |m.fEdge|))
  {
    DigonSides(m, g, e);
    m', g' := MeshDelete.Delete(m, e, g);
    StillFaced(m', g');
  }

  /** What delete needs of e, from the invariant. */
  lemma DigonSides(m: Mesh, g: Shape, e: int)
    requires TessMesh.Valid(m, g) && TessMesh.AllFaced(m, g.live) && e in g.live
    ensures Shaped(m) && 0 <= e < |m.onext| && 0 <= Sym(e) < |m.onext| && 0 <= m.onext[e] < |m.onext|
    ensures m.lface[e] != NIL && Rface(m, e) != NIL
    ensures forall z :: z in g.live ==> 0 <= z < |m.winding|
  {
    LiveNav(m, g, e);
  }

  /** A two-edge face e, e.Lnext seen from delete: either the faces on e's
      two sides differ and e.Dst keeps another edge, or the face is the
      isolated pair e, e.Sym, alone at both its vertices and the only
      half-edges with that face on their left. */
  lemma DigonCases(m: Mesh, g: Shape, e: int)
    requires TessMesh.Valid(m, g) && TessMesh.AllFaced(m, g.live) && e in g.live
    requires IsDigon(m, e) && m.lnext[e] != e
    ensures Shaped(m) && 0 <= e < |m.onext| && 0 <= Sym(e) < |m.onext|
    ensures m.lface[e] != Rface(m, e) ==> !MeshDelete.DstAlone(m, e)
    ensures m.lface[e] == Rface(m, e) ==> MeshDelete.DstAlone(m, e) && m.onext[e] == e
    ensures m.lface[e] == Rface(m, e) ==>
      forall z :: z in g.live && z != e && z != Sym(e) ==> 0 <= z < |m.lface| && m.lface[z] != m.lface[e]
  {
    LiveNav(m, g, e);
    var a := m.lnext[e];
    MeshOps.LnextOnext(m, g.live, e);
    LnextSameFace(m, g, e);
    NextInjective(m, g, a, e);
    if m.lface[e] != Rface(m, e) {
      if a != Sym(e) {
        NextInjective(m, g, a, Sym(e));
      }
    } else {
      DigonLoop(m, g, e);
      SymFacts(e);
      assert a == Sym(e);
      MeshOps.LnextOnext(m, g.live, Sym(e));
      SymFacts(Sym(e));
    }
  }

  /** The only half-edges on a two-edge face are its two edges. */
  lemma DigonLoop(m: Mesh, g: Shape, e: int)
    requires TessMesh.Valid(m, g) && TessMesh.AllFaced(m, g.live) && e in g.live
    requires IsDigon(m, e) && m.lnext[e] != e
    ensures forall z :: z in g.live ==> 0 <= z < |m.lface| && (m.lface[z] == m.lface[e] ==> z == e || z == m.lnext[e])
  {
    LiveFace(m, g, e);
    var f := m.lface[e];
    FaceLoop(m, g, f);
    Cycles.TwoCycle(m.lnext, g.fcyc[f], e);
    forall z | z in g.live
      ensures 0 <= z < |m.lface| && (m.lface[z] == f ==> z in g.fcyc[f])
    {
      LiveFace(m, g, z);
    }
  }

  /** New windings keep the invariant. */
  lemma Rewound(m: Mesh, g: Shape, m1: Mesh)
    requires TessMesh.Valid(m, g) && TessMesh.AllFaced(m, g.live)
    requires m1 == m.(winding := m1.winding) && |m1.winding| == |m.winding|
    ensures TessMesh.Valid(m1, g) && TessMesh.AllFaced(m1, g.live)
  {
    TessMesh.InvWinding(m, g, m1.winding);
  }

  /** After any delete every remaining half-edge still has a face on both
      sides. */
  lemma StillFaced(m: Mesh, g: Shape)
    requires TessMesh.Valid(m, g) && forall z :: z in g.live ==> 0 <= z < |m.lface| && m.lface[z] != NIL
    ensures TessMesh.AllFaced(m, g.live)
  {
    forall z | z in g.live
      ensures 0 <= z < |m.lface| && 0 <= Sym(z) < |m.lface|
      ensures 0 < m.lface[z] < |m.fInside| && 0 < m.lface[Sym(z)] < |m.fInside|
    {
      LiveNav(m, g, z);
      TessMesh.FaceBelow(m, g, z);
      TessMesh.FaceBelow(m, g, Sym(z));
    }
  }

  /** The windings after addWinding(e.Onext, e), seen from the edges that
      remain once e's pair is gone. */
  lemma WindingsMoved(m: Mesh, e: int, m1: Mesh, w: seq<int>, live: set<int>, live': set<int>)
    requires Shaped(m) && 0 <= e < |m.onext| && 0 <= Sym(e) < |m.onext| && 0 <= m.onext[e] < |m.onext|
    requires m1 == AddWinding(m, m.onext[e], e) && w == m1.winding
    requires (forall z :: z in live ==> 0 <= z < |m.winding|) && live' == live - {e, Sym(e)}
    ensures forall z :: z in live' ==> 0 <= z < |w| && w[z] == m.winding[z] + Moved(m, e, z)
  {
  }
}
