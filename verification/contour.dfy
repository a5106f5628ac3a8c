// The contour intake of addContour (Tess.swift): one closed loop of fresh
// half-edges and fresh vertices, built from makeEdge, splice and splitEdge.

module Contour {
  import opened Cycles
  import opened Labels
  import opened MeshUtils
  import opened MeshContext
  import opened MO = Mesh
  import MeshOps
  import Tess
  import TessMesh
  import ContourFacts
  import opened ContourLoop

  /** A live half-edge's origin is a vertex of the ring, never the head. */
  lemma VertexBelow(m: Mesh, g: Shape, z: int)
    requires TessMesh.Valid(m, g) && z in g.live
    ensures 0 <= z < |m.org| && 0 < m.org[z] < |m.vNext|
  {
    LiveOrg(m, g, z);
    var k := IndexOf(g.vring, m.org[z]);
    assert g.vring[k] == m.org[z];
  }

  /** The contour's first edge: makeEdge, then splice(e, e.sym) turns the
      fresh pair into a one-edge loop at one new vertex, with a new face on
      each side. */
  method StartContour(m: Mesh, ghost g: Shape) returns (m': Mesh, ghost g': Shape, e: int)
    requires TessMesh.Valid(m, g)
    ensures TessMesh.Valid(m', g') && Shaped(m) && Shaped(m')
    ensures e == |m.eNext| && Sym(e) == e + 1 && g'.live == g.live + {e, e + 1}
    ensures |m'.eNext| == |m.eNext| + 2 && m'.winding == m.winding + [0, 0]
    ensures m'.lnext[e] == e && m'.lface[e] != m'.lface[Sym(e)] && m'.lface[e] != NIL
    ensures m'.org[e] == |m.vNext| && |m.vNext| < |m'.vNext|
    ensures VertexCount(g') == VertexCount(g) + 1 && FaceCount(g') == FaceCount(g) + 2
    ensures EdgeCount(g') == EdgeCount(g) + 1
  {
    var m1;
    ghost var g1;
    m1, e, g1 := MakeEdgeOp(m, g);
    m', g' := CloseFirst(m1, g1, e);
  }

  /** splice(e, e.sym) on a fresh pair e: its two vertices become one and
      its one face becomes two, one on each side. */
  method CloseFirst(m1: Mesh, ghost g1: Shape, e: int) returns (m': Mesh, ghost g': Shape)
    requires Inv(m1, g1) && e in g1.live && Sym(e) == e + 1
    requires Shaped(m1) && 0 <= e && e + 1 < |m1.eNext|
    requires m1.lface[e] == Rface(m1, e) != NIL && Dst(m1, e) != m1.org[e]
    requires m1.onext[e + 1] == e + 1
    ensures Shaped(m') && m'.eNext == m1.eNext && Inv(m', g') && g'.live == g1.live
    ensures m'.winding == m1.winding && m'.org[e] == m1.org[e] && m1.org[e] < |m'.vNext|
    ensures m'.lnext[e] == e && m'.lface[e] != m'.lface[Sym(e)] && m'.lface[e] != NIL
    ensures VertexCount(g') == VertexCount(g1) - 1 && FaceCount(g') == FaceCount(g1) + 1
    ensures EdgeCount(g') == EdgeCount(g1)
  {
    SymFacts(e);
    m', g' := SpliceOp(m1, g1, e, Sym(e));
    assert m'.onext[e] == Sym(e) && Sym(Sym(e)) == e;
    LoopFacts(m', g', e);
  }

  /** Reading a live half-edge's origin and the edge that Onext leads back from. */
  lemma LoopFacts(m: Mesh, g: Shape, e: int)
    requires Inv(m, g) && e in g.live
    ensures Shaped(m) && 0 <= e < |m.onext| && 0 < m.org[e] < |m.vNext|
    ensures 0 <= Sym(m.onext[e]) < |m.lnext| && m.lnext[Sym(m.onext[e])] == e
  {
    LiveNav(m, g, e);
    VertexBelow(m, g, e);
  }

  /** One later point: splitEdge(e) puts a fresh vertex after the loop's last
      half-edge e, and e.Lnext, the new half-edge, becomes the loop's last. */
  method ExtendContour(ghost m: Mesh, ghost g: Shape, ghost pos0: map<int, Vector3>, ghost added: seq<Vector3>,
                       mc: Mesh, ghost gc: Shape, loop: seq<int>, pos: map<int, Vector3>, p: Vector3)
    returns (mc': Mesh, ghost gc': Shape, loop': seq<int>, pos': map<int, Vector3>)
    requires TessMesh.Valid(mc, gc) && LiveIsListed(m, g) && ContourState(m, g, pos0, added, mc, gc, loop, pos)
    requires |loop| < |added| && p == added[|loop|]
    ensures TessMesh.Valid(mc', gc') && ContourState(m, g, pos0, added, mc', gc', loop', pos')
    ensures |loop'| == |loop| + 1 && loop'[..|loop|] == loop
  {
    LastLive(m, g, pos0, added, mc, gc, loop, pos);
    var last := loop[|loop| - 1];
    var mc1, e;
    ghost var gc1;
    mc1, e, gc1 := SplitLoopEdge(mc, gc, last);
    pos' := pos[mc1.org[e] := p];
    mc', gc' := MarkWinding(mc1, gc1, e);
    loop' := loop + [e];
    ExtendState(m, g, pos0, added, mc, gc, loop, pos, mc1, gc1, e, mc', pos');
  }

  /** splitEdge(e), read as addContour reads it. */
  method SplitLoopEdge(mc: Mesh, ghost gc: Shape, e: int) returns (mc1: Mesh, eNew: int, ghost gc1: Shape)
    requires TessMesh.Valid(mc, gc) && e in gc.live
    ensures TessMesh.Valid(mc1, gc1) && ContourFacts.SplitFacts(mc, gc, e, mc1, gc1, eNew)
    ensures eNew in gc1.live
  {
    mc1, eNew, gc1 := MeshOps.SplitEdge(mc, gc, e);
  }

  /** e.winding = 1 and e.sym.winding = −1 on a live half-edge e. */
  method MarkWinding(m: Mesh, ghost g: Shape, e: int) returns (m': Mesh, ghost g': Shape)
    requires TessMesh.Valid(m, g) && e in g.live
    ensures 0 <= e < |m.winding| && 0 <= Sym(e) < |m.winding| && 0 < m.org[e] < |m.vNext|
    ensures m' == m.(winding := m.winding[e := 1][Sym(e) := -1]) && TessMesh.Valid(m', g') && g' == g
  {
    LoopFacts(m, g, e);
    LiveNav(m, g, e);
    var w := m.winding[e := 1][Sym(e) := -1];
    TessMesh.InvWinding(m, g, w);
    m', g' := m.(winding := w), g;
  }

  /** The listing half of the invariant, read off TessMesh.Valid. */
  lemma ValidListed(m: Mesh, g: Shape)
    requires TessMesh.Valid(m, g)
    ensures LiveIsListed(m, g)
  {
  }

  /** The first point: makeEdge and splice(e, e.sym) make the one-edge
      loop, whose origin is placed at p and whose windings are marked. */
  method BeginContour(m: Mesh, ghost g: Shape, pos0: map<int, Vector3>, ghost added: seq<Vector3>, p: Vector3)
    returns (mc: Mesh, ghost gc: Shape, loop: seq<int>, pos: map<int, Vector3>)
    requires TessMesh.Valid(m, g) && LiveIsListed(m, g) && 0 < |added| && p == added[0]
    ensures TessMesh.Valid(mc, gc) && ContourState(m, g, pos0, added, mc, gc, loop, pos) && |loop| == 1
  {
    var e;
    mc, gc, e := StartContour(m, g);
    ghost var m1 := mc;
    pos := pos0[mc.org[e] := p];
    mc, gc := MarkWinding(mc, gc, e);
    StartState(m, g, pos0, added, m1, gc, e, mc, pos);
    loop := [e];
  }

  /** addContour: the points go in as one closed loop of fresh half-edges
      around two fresh faces, one fresh vertex per point, in input order or
      reversed when a forced orientation disagrees with the signed area.
      Every half-edge of the loop gets winding 1 and its Sym −1. */
  method AddContour(m: Mesh, ghost g: Shape, vs: seq<Vector3>, orientation: Tess.ContourOrientation,
                    pos: map<int, Vector3>)
    returns (m': Mesh, ghost g': Shape, loop: seq<int>, pos': map<int, Vector3>)
    requires TessMesh.Valid(m, g)
    ensures TessMesh.Valid(m', g') && |loop| == |vs|
    ensures |vs| == 0 ==> m' == m && g' == g && pos' == pos
    ensures |vs| > 0 ==>
      ContourState(m, g, pos, Tess.Added(vs, Tess.Reverses(orientation, 0.5 * Tess.Shoelace(vs))),
                   m', g', loop, pos')
  {
    var reverse := ContourReverse(vs, orientation);
    if |vs| == 0 {
      return m, g, [], pos;
    }
    m', g', loop, pos' := LayContour(m, g, pos, vs, reverse);
  }

  /** Whether addContour reverses the points: only a forced orientation
      looks at the signed area. */
  method ContourReverse(vs: seq<Vector3>, orientation: Tess.ContourOrientation) returns (reverse: bool)
    ensures reverse == Tess.Reverses(orientation, 0.5 * Tess.Shoelace(vs))
    ensures orientation == Tess.Original ==> !reverse
  {
    reverse := false;
    if orientation != Tess.Original {
      var area := Tess.SignedArea(vs);
      reverse := Tess.Reverses(orientation, area);
    }
  }

  /** addContour's loop over the points, the i-th taken from index n−1−i
      when reversing and from index i otherwise. */
  method LayContour(m: Mesh, ghost g: Shape, pos: map<int, Vector3>, vs: seq<Vector3>, reverse: bool)
    returns (m': Mesh, ghost g': Shape, loop: seq<int>, pos': map<int, Vector3>)
    requires TessMesh.Valid(m, g) && 0 < |vs|
    ensures TessMesh.Valid(m', g') && |loop| == |vs|
    ensures ContourState(m, g, pos, Tess.Added(vs, reverse), m', g', loop, pos')
  {
    ghost var added := Tess.Added(vs, reverse);
    ValidListed(m, g);
    var mc;
    ghost var gc;
    mc, gc, loop, pos' := BeginContour(m, g, pos, added, vs[if reverse then |vs| - 1 else 0]);
    var i := 1;
    while i < |vs|
      invariant 1 <= i <= |vs| && |loop| == i
      invariant TessMesh.Valid(mc, gc) && ContourState(m, g, pos, added, mc, gc, loop, pos')
    {
      var p := vs[if reverse then |vs| - 1 - i else i];
      mc, gc, loop, pos' := ExtendContour(m, g, pos, added, mc, gc, loop, pos', p);
      i := i + 1;
    }
    m', g' := mc, gc;
  }

  /** An Lnext cycle through a live half-edge with a face is exactly that
      face's boundary: a half-edge is on the cycle if and only if it is live
      and has that face on its left. */
  lemma {:induction false} CycleIsFace(m: Mesh, g: Shape, loop: seq<int>)
    requires Inv(m, g) && IsCycle(m.lnext, loop) && loop[0] in g.live
    requires 0 <= loop[0] < |m.lface| && m.lface[loop[0]] != NIL
    ensures forall z :: 0 <= z < |m.lface| ==> (z in loop <==> z in g.live && m.lface[z] == m.lface[loop[0]])
  {
    var F := m.lface[loop[0]];
    LiveFace(m, g, loop[0]);
    FaceLoop(m, g, F);
    CyclesMeet(m.lnext, loop, g.fcyc[F], loop[0]);
    forall z | 0 <= z < |m.lface| && z in g.live && m.lface[z] == F ensures z in loop {
      LiveFace(m, g, z);
    }
  }

  /** After addContour the loop is one whole face: its left face has no
      other half-edge. */
  lemma ContourIsFace(m: Mesh, g: Shape, pos0: map<int, Vector3>, added: seq<Vector3>,
                      mc: Mesh, gc: Shape, loop: seq<int>, pos: map<int, Vector3>)
    requires TessMesh.Valid(mc, gc) && ContourState(m, g, pos0, added, mc, gc, loop, pos)
    ensures 0 < |loop| && 0 <= loop[0] < |mc.lface|
    ensures forall z :: 0 <= z < |mc.lface| ==> (z in loop <==> z in gc.live && mc.lface[z] == mc.lface[loop[0]])
  {
    assert ContourFacts.OnLoop(m, g, mc, gc, loop[0], loop[0], added[0], pos);
    CycleIsFace(mc, gc, loop);
  }
}
