// The facts addContour (Tess.swift) keeps while it lays down a contour:
// the loop of fresh half-edges so far, and what one splitEdge step does.

module ContourFacts {
  import opened Cycles
  import opened Labels
  import opened MeshUtils
  import opened MeshContext
  import opened MO = Mesh

  /** One half-edge x of the contour's loop, whose first half-edge is e0:
      fresh, on the loop's two faces, from a fresh vertex placed at p, and
      carrying winding 1 with −1 on its Sym. */
  ghost predicate OnLoop(m: Mesh, g: Shape, mc: Mesh, gc: Shape, x: int, e0: int, p: Vector3,
                         pos: map<int, Vector3>) {
    && Shaped(mc) && x in gc.live && Sym(x) in gc.live && x !in g.live && Sym(x) !in g.live
    && |m.eNext| <= x < |mc.eNext| && |m.eNext| <= Sym(x) < |mc.eNext|
    && 0 <= e0 < |mc.lface| && 0 <= Sym(e0) < |mc.lface|
    && mc.lface[x] == mc.lface[e0] && mc.lface[Sym(x)] == mc.lface[Sym(e0)]
    && |m.vNext| <= mc.org[x] < |mc.vNext| && mc.org[x] in pos && pos[mc.org[x]] == p
    && mc.winding[x] == 1 && mc.winding[Sym(x)] == -1
  }

  /** addContour after the first |loop| points of `added`: the loop is one
      Lnext cycle with its own face on each side, one fresh vertex per point,
      and the rest of the mesh and of the coordinates as they were. */
  ghost predicate StateFacts(m: Mesh, g: Shape, pos0: map<int, Vector3>, added: seq<Vector3>,
                             mc: Mesh, gc: Shape, loop: seq<int>, pos: map<int, Vector3>) {
    && Shaped(m) && Shaped(mc) && |m.eNext| <= |mc.eNext| && |m.vNext| <= |mc.vNext|
    && 0 < |loop| <= |added| && IsCycle(mc.lnext, loop)
    && (forall j :: 0 <= j < |loop| ==> OnLoop(m, g, mc, gc, loop[j], loop[0], added[j], pos))
    && mc.lface[loop[0]] != mc.lface[Sym(loop[0])] && mc.lface[loop[0]] != NIL
    && (forall j, k :: 0 <= j < k < |loop| ==> mc.org[loop[j]] != mc.org[loop[k]])
    && (forall z :: 0 <= z < |m.eNext| ==> mc.winding[z] == m.winding[z])
    && (forall v :: v in pos0 && v < |m.vNext| ==> v in pos && pos[v] == pos0[v])
    && g.live <= gc.live
    && EdgeCount(gc) == EdgeCount(g) + |loop| && VertexCount(gc) == VertexCount(g) + |loop|
    && FaceCount(gc) == FaceCount(g) + 2
  }

  /** What splitEdge(e) promises about eNew = e.Lnext: it is the
      second half of a fresh pair, from a fresh vertex, on e's two faces,
      and nothing else addContour reads changes. */
  ghost predicate SplitFacts(mc: Mesh, gc: Shape, e: int, mc1: Mesh, gc1: Shape, eNew: int) {
    && Shaped(mc) && Shaped(mc1) && |mc1.eNext| == |mc.eNext| + 2
    && eNew == |mc.eNext| + 1 && Sym(eNew) == eNew - 1
    && gc1.live == gc.live + {|mc.eNext|, |mc.eNext| + 1}
    && VertexCount(gc1) == VertexCount(gc) + 1 && FaceCount(gc1) == FaceCount(gc)
    && EdgeCount(gc1) == EdgeCount(gc) + 1
    && 0 <= e < |mc.eNext| && 0 <= Sym(e) < |mc.eNext|
    && mc1.lnext[e] == eNew && mc1.org[eNew] == |mc.vNext|
    && mc1.lface[eNew] == mc.lface[e] && Rface(mc1, eNew) == Rface(mc, e)
    && (forall z :: 0 <= z < |mc.eNext| && z != Sym(e) ==> mc1.org[z] == mc.org[z])
    && (forall z :: 0 <= z < |mc.eNext| ==> mc1.lface[z] == mc.lface[z] && mc1.winding[z] == mc.winding[z])
    && (mc.lnext[e] != Sym(e) ==> mc1.lnext[eNew] == mc.lnext[e])
    && (forall z :: 0 <= z < |mc.eNext| && z != e && mc.lnext[z] != Sym(e) ==> mc1.lnext[z] == mc.lnext[z])
  }
}
