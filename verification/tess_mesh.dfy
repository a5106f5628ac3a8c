// The mesh-level passes of the tessellator that are built from the mesh
// operations: the boundary extraction of setWindingNumber (Tess.swift) and
// the deletion of like-sided edges.

module TessMesh {
  import opened Cycles
  import opened Labels
  import opened MeshUtils
  import opened MeshContext
  import opened MO = Mesh
  import MeshOps
  import MeshDelete
  import Tess

  // ---------------------------------------------------------------------------
  // Faces and their inside flags

  /** Every live half-edge has a face on both sides: no face was zapped. */
  predicate AllFaced(m: Mesh, S: set<int>) {
    forall z :: z in S ==>
      && 0 <= z < |m.lface| && 0 <= Sym(z) < |m.lface|
      && 0 < m.lface[z] < |m.fInside| && 0 < m.lface[Sym(z)] < |m.fInside|
  }

  /** The left face of z is marked inside. */
  predicate Inside(m: Mesh, z: int) {
    0 <= z < |m.lface| && 0 <= m.lface[z] < |m.fInside| && m.fInside[m.lface[z]]
  }

  /** z separates an interior region from an exterior one. */
  predicate IsBoundary(m: Mesh, z: int) {
    Inside(m, z) != Inside(m, Sym(z))
  }

  /** The mesh invariant Mesh.Inv, as one fact: a caller outside module Mesh
      proves or uses it whole rather than conjunct by conjunct. */
  ghost predicate Valid(m: Mesh, g: Shape) {
    match g
    case Shape(_, _, _, _, _, _) => Inv(m, g)
  }

  /** A live half-edge's face is a face of the ring, never the head. */
  lemma FaceBelow(m: Mesh, g: Shape, z: int)
    requires Inv(m, g) && z in g.live && m.lface[z] != NIL
    ensures 0 < m.lface[z] < |m.fInside|
  {
    LiveFace(m, g, z);
    var k := IndexOf(g.fring, m.lface[z]);
    assert g.fring[k] == m.lface[z];
  }

  /** Writing windings keeps the invariant: it does not mention them. */
  lemma InvWinding(m: Mesh, g: Shape, w: seq<int>)
    requires Inv(m, g) && |w| == |m.winding|
    ensures Inv(m.(winding := w), g)
  {
    var m' := m.(winding := w);
    assert VLab(m', g) == VLab(m, g);
    assert FLab(m', g) == FLab(m, g);
  }

  /** What the winding setWindingNumber writes without deleting means on the
      mesh: value or −value on an edge between an inside and an outside face,
      by which side is inside, and 0 when both sides agree; read from the
      other half it is negated. KeepBoundary keeps exactly the edges where it
      is not 0 (for value ≠ 0) and writes the same number on them. */
  lemma CrossingMeaning(m: Mesh, e: int, value: int)
    requires Shaped(m) && 0 <= e < |m.lface|
    requires 0 <= m.lface[e] < |m.fInside| && 0 <= Rface(m, e) < |m.fInside|
    ensures 0 <= Sym(e) < |m.lface| && Sym(Sym(e)) == e
    ensures IsBoundary(m, e) ==> Tess.Crossing(m, e, value) == if Inside(m, e) then value else -value
    ensures !IsBoundary(m, e) ==> Tess.Crossing(m, e, value) == 0
    ensures Tess.Crossing(m, Sym(e), value) == -Tess.Crossing(m, e, value)
  {
  }

  // ---------------------------------------------------------------------------
  // delete of an edge with alike sides

  /** delete(e) when e's two faces are both inside or both outside: every
      remaining half-edge keeps the inside flag of its left face. */
  method DeleteAlike(m: Mesh, ghost g: Shape, e: int) returns (m': Mesh, ghost g': Shape)
    requires Inv(m, g) && AllFaced(m, g.live) && e in g.live && !IsBoundary(m, e)
    ensures Inv(m', g') && AllFaced(m', g'.live) && g'.live == g.live - {e, Sym(e)}
    ensures First(e) in g.ering && g'.ering == RemoveAt(g.ering, IndexOf(g.ering, First(e)))
    ensures |m'.eNext| == |m.eNext| && m'.winding == m.winding
    ensures forall z :: z in g'.live ==> Inside(m', z) == Inside(m, z)
  {
    m', g' := MeshDelete.Delete(m, e, g);
    forall z | z in g'.live
      ensures 0 <= z < |m'.lface| && 0 <= Sym(z) < |m'.lface|
      ensures 0 < m'.lface[z] < |m'.fInside| && Inside(m', z) == Inside(m, z)
    {
      AliveSide(m, g, e, m', g', z);
    }
    forall z | z in g'.live
      ensures 0 <= z < |m'.lface| && 0 <= Sym(z) < |m'.lface|
      ensures 0 < m'.lface[Sym(z)] < |m'.fInside|
    {
      LiveNav(m', g', z);
      AliveSide(m, g, e, m', g', Sym(z));
    }
  }

  /** One remaining half-edge after the delete: its new face, from delete's
      relabelling, carries the flag its old face had. */
  lemma AliveSide(m: Mesh, g: Shape, e: int, m': Mesh, g': Shape, z: int)
    requires Inv(m, g) && AllFaced(m, g.live) && e in g.live && !IsBoundary(m, e)
    requires Inv(m', g') && g'.live == g.live - {e, Sym(e)} && z in g'.live
    requires 0 <= e < |m.onext| && 0 <= Sym(e) < |m.onext|
    requires forall z :: z in g'.live ==>
      && 0 <= z < |m.onext|
      && (m.lface[e] != Rface(m, e) ==>
            m'.lface[z] == if m.lface[z] == m.lface[e] then Rface(m, e) else m.lface[z])
      && (m.lface[e] == Rface(m, e) ==>
            m'.lface[z] == m.lface[z] || (m.lface[z] == m.lface[e] && m'.lface[z] == |m.fEdge|))
    requires |m'.fInside| >= |m.fInside| && m'.fInside[..|m.fInside|] == m.fInside
    requires |m'.fInside| > |m.fInside| ==> m'.fInside[|m.fInside|] == m.fInside[m.lface[e]]
    ensures 0 <= z < |m'.lface| && 0 < m'.lface[z] < |m'.fInside| && Inside(m', z) == Inside(m, z)
  {
    assert m'.fInside[..|m.fInside|][m.lface[z]] == m.fInside[m.lface[z]];
    assert m'.fInside[..|m.fInside|][Rface(m, e)] == m.fInside[Rface(m, e)];
    FaceBelow(m', g', z);
  }

  // ---------------------------------------------------------------------------
  // setWindingNumber(value, keepOnlyBoundary: true)

  /** Taking x out of a listing where it sits between a and b. */
  lemma RemoveBetween(a: seq<int>, x: int, b: seq<int>)
    requires Distinct(a + [x] + b)
    ensures x in a + [x] + b && RemoveAt(a + [x] + b, IndexOf(a + [x] + b, x)) == a + b
  {
    var r := a + [x] + b;
    assert r[|a|] == x;
    var k := IndexOf(r, x);
    if k != |a| {
      DistinctApart(r, k, |a|);
    }
    assert r[..k] == a && r[k + 1..] == b;
  }

  /** The state of the walk after the listed pairs before position i: the
      boundary ones are kept, in order, and hold their windings; the others
      are gone; the pairs from i on are untouched. */
  ghost predicate BoundaryWalk(m: Mesh, g: Shape, value: int, i: nat, kept: seq<int>, mc: Mesh, gc: Shape) {
    && 1 <= i <= |g.ering|
    && AllFaced(mc, gc.live) && |mc.eNext| == |m.eNext| && |mc.winding| == |m.winding|
    && gc.ering == [0] + kept + g.ering[i..]
    && (forall z :: z in kept ==> z in g.ering[1..i] && IsBoundary(m, z))
    && (forall j :: 1 <= j < i && IsBoundary(m, g.ering[j]) ==> g.ering[j] in kept)
    && (forall z :: z in gc.live ==> z in g.live && Inside(mc, z) == Inside(m, z))
    && (forall z :: z in gc.live ==>
          0 <= z < |mc.winding| &&
          mc.winding[z] == if z in kept then (if Inside(m, z) then value else -value) else m.winding[z])
  }

  /** setWindingNumber(value, true), as the boundary-contour output calls it:
      walking the edge list, a pair whose two faces differ in their inside
      flag gets the winding on its listed half that makes the winding number
      `value` inside and 0 outside; every other pair is deleted. */
  method KeepBoundary(m: Mesh, ghost g: Shape, value: int) returns (m': Mesh, ghost g': Shape)
    requires Inv(m, g) && AllFaced(m, g.live)
    ensures Inv(m', g') && AllFaced(m', g'.live)
    ensures forall z :: z in g'.live <==> z in g.live && IsBoundary(m, z)
    ensures forall z :: z in g'.live ==> Inside(m', z) == Inside(m, z)
    ensures forall z :: z in g'.live ==>
      && 0 <= z < |m.winding| && 0 <= z < |m'.winding|
      && m'.winding[z] == if z % 2 == 0 then (if Inside(m, z) then value else -value) else m.winding[z]
  {
    ghost var er := g.ering;
    ghost var kept: seq<int> := [];
    ghost var i: nat := 1;
    m', g' := m, g;
    WalkStart(m, g, value);
    InvParts(m, g);
    Tess.ListedNotHead(m.eNext, er);
    var e := m.eNext[0];
    while e != 0
      invariant Inv(m', g') && BoundaryWalk(m, g, value, i, kept, m', g')
      invariant e == if i < |er| then er[i] else 0
      decreases |er| - i
    {
      if i == |er| {
        assert false;
      }
      InvParts(m', g');
      SeqAt(kept, er, g'.ering, i);
      StepFacts(m', g'.ering, 1 + |kept|);
      LiveListedAt(m', g', e);
      var next := m'.eNext[e];
      m', g', kept := BoundaryStep(m, g, value, i, kept, m', g', e);
      e := next;
      i := i + 1;
    }
    assert i == |er|;
    InvParts(m', g');
    BoundaryEnd(m, g, value, kept, m', g');
  }

  lemma InvParts(m: Mesh, g: Shape)
    requires Inv(m, g)
    ensures IsEdgeRing(m.eNext, g.ering) && LiveIsListed(m, g)
  {
  }

  lemma WalkStart(m: Mesh, g: Shape, value: int)
    requires Inv(m, g) && AllFaced(m, g.live)
    ensures BoundaryWalk(m, g, value, 1, [], m, g)
    ensures 0 < |m.eNext| && m.eNext[0] == if 1 < |g.ering| then g.ering[1] else 0
  {
    EdgeRingAt(m.eNext, g.ering, 0);
    assert g.ering == [0] + g.ering[1..];
  }

  /** The pair at position k of a listing: its range, parity and successor. */
  lemma StepFacts(mc: Mesh, r: seq<int>, k: nat)
    requires IsEdgeRing(mc.eNext, r) && 1 <= k < |r|
    ensures 2 <= r[k] && r[k] + 1 < |mc.eNext| && r[k] % 2 == 0 && r[k] in r
    ensures mc.eNext[r[k]] == if k + 1 < |r| then r[k + 1] else 0
  {
    EdgeRingAt(mc.eNext, r, k);
    DistinctApart(r, 0, k);
  }

  /** A pair still listed in the current ring is live. */
  lemma LiveListedAt(mc: Mesh, gc: Shape, e: int)
    requires LiveIsListed(mc, gc) && 2 <= e && e + 1 < |mc.eNext| && e % 2 == 0 && e in gc.ering
    ensures e in gc.live && Sym(e) in gc.live
  {
    assert First(e) == e && Sym(e) == e + 1 && First(e + 1) == e;
  }

  /** Position i of r, seen in a listing that shares r's tail from i. */
  lemma SeqAt(kept: seq<int>, r: seq<int>, gr: seq<int>, i: nat)
    requires 1 <= i < |r| && gr == [0] + kept + r[i..]
    ensures gr == [0] + kept + [r[i]] + r[i + 1..] && |gr| == 1 + |kept| + |r| - i
    ensures gr[1 + |kept|] == r[i] && (i + 1 < |r| ==> gr[2 + |kept|] == r[i + 1])
  {
    assert r[i..] == [r[i]] + r[i + 1..];
  }

  /** One pair of the walk: its winding is set if it is a boundary edge, and
      it is deleted otherwise. */
  method BoundaryStep(ghost m: Mesh, ghost g: Shape, value: int, ghost i: nat, ghost kept: seq<int>,
                      mc: Mesh, ghost gc: Shape, e: int) returns (mc': Mesh, ghost gc': Shape, ghost kept': seq<int>)
    requires Inv(mc, gc) && BoundaryWalk(m, g, value, i, kept, mc, gc)
    requires i < |g.ering| && e == g.ering[i]
    requires gc.ering == [0] + kept + [e] + g.ering[i + 1..]
    requires e in gc.live && Sym(e) in gc.live && e % 2 == 0 && Distinct(g.ering) && Distinct(gc.ering)
    ensures Inv(mc', gc') && BoundaryWalk(m, g, value, i + 1, kept', mc', gc')
  {
    var lInside := mc.fInside[mc.lface[e]];
    var rInside := mc.fInside[mc.lface[Sym(e)]];
    if rInside != lInside {
      mc', gc', kept' := KeepPair(m, g, value, i, kept, mc, gc, e);
    } else {
      mc', gc', kept' := DropPair(m, g, value, i, kept, mc, gc, e);
    }
  }

  /** A boundary pair, one side inside and the other outside, gets the
      winding on its listed half. */
  method KeepPair(ghost m: Mesh, ghost g: Shape, value: int, ghost i: nat, ghost kept: seq<int>,
                  mc: Mesh, ghost gc: Shape, e: int) returns (mc': Mesh, ghost gc': Shape, ghost kept': seq<int>)
    requires Inv(mc, gc) && BoundaryWalk(m, g, value, i, kept, mc, gc)
    requires i < |g.ering| && e == g.ering[i]
    requires e in gc.live && Sym(e) in gc.live && e % 2 == 0 && Distinct(g.ering)
    requires IsBoundary(mc, e)
    ensures Inv(mc', gc') && BoundaryWalk(m, g, value, i + 1, kept', mc', gc')
  {
    var w := mc.winding[e := if mc.fInside[mc.lface[e]] then value else -value];
    InvWinding(mc, gc, w);
    mc', gc', kept' := mc.(winding := w), gc, kept + [e];
    KeepWalk(m, g, value, i, kept, mc, gc, e, w);
  }

  /** A pair with alike sides is deleted. */
  method DropPair(ghost m: Mesh, ghost g: Shape, value: int, ghost i: nat, ghost kept: seq<int>,
                  mc: Mesh, ghost gc: Shape, e: int) returns (mc': Mesh, ghost gc': Shape, ghost kept': seq<int>)
    requires Inv(mc, gc) && BoundaryWalk(m, g, value, i, kept, mc, gc)
    requires i < |g.ering| && e == g.ering[i]
    requires gc.ering == [0] + kept + [e] + g.ering[i + 1..]
    requires e in gc.live && Sym(e) in gc.live && Distinct(gc.ering)
    requires !IsBoundary(mc, e)
    ensures Inv(mc', gc') && BoundaryWalk(m, g, value, i + 1, kept', mc', gc')
  {
    mc', gc' := DeleteAlike(mc, gc, e);
    kept' := kept;
    RemoveBetween([0] + kept, e, g.ering[i + 1..]);
    DropWalk(m, g, value, i, kept, mc, gc, e, mc', gc');
  }

  /** The walk after keeping a boundary pair. */
  lemma KeepWalk(m: Mesh, g: Shape, value: int, i: nat, kept: seq<int>, mc: Mesh, gc: Shape, e: int, w: seq<int>)
    requires BoundaryWalk(m, g, value, i, kept, mc, gc) && i < |g.ering| && e == g.ering[i]
    requires e in gc.live && Sym(e) in gc.live && e % 2 == 0 && Distinct(g.ering)
    requires IsBoundary(mc, e) && 0 <= e < |mc.winding|
    requires w == mc.winding[e := if Inside(mc, e) then value else -value]
    ensures BoundaryWalk(m, g, value, i + 1, kept + [e], mc.(winding := w), gc)
  {
    var mc' := mc.(winding := w);
    assert gc.ering == [0] + (kept + [e]) + g.ering[i + 1..] by {
      assert g.ering[i..] == [e] + g.ering[i + 1..];
    }
    assert IsBoundary(m, e);
    forall z | z in kept + [e] ensures z in g.ering[1..i + 1] {
      if z != e {
        assert z in g.ering[1..i];
      }
    }
    forall z | z in gc.live
      ensures 0 <= z < |w| && 0 <= z < |m.winding| && w[z] == if z in kept + [e] then (if Inside(m, z) then value else -value) else m.winding[z]
    {
      if z != e {
        assert z in kept + [e] <==> z in kept;
      }
    }
  }

  /** The walk after deleting a pair with alike sides. */
  lemma DropWalk(m: Mesh, g: Shape, value: int, i: nat, kept: seq<int>, mc: Mesh, gc: Shape, e: int,
                 mc': Mesh, gc': Shape)
    requires BoundaryWalk(m, g, value, i, kept, mc, gc) && i < |g.ering| && e == g.ering[i]
    requires e in gc.live && Sym(e) in gc.live && !IsBoundary(mc, e)
    requires AllFaced(mc', gc'.live) && gc'.live == gc.live - {e, Sym(e)}
    requires gc'.ering == [0] + kept + g.ering[i + 1..]
    requires |mc'.eNext| == |mc.eNext| && mc'.winding == mc.winding
    requires forall z :: z in gc'.live ==> Inside(mc', z) == Inside(mc, z)
    ensures BoundaryWalk(m, g, value, i + 1, kept, mc', gc')
  {
    assert !IsBoundary(m, e);
    forall j | 1 <= j < i + 1 && IsBoundary(m, g.ering[j]) ensures g.ering[j] in kept {
    }
  }

  /** The walk's end state is the promised one. */
  lemma BoundaryEnd(m: Mesh, g: Shape, value: int, kept: seq<int>, mc: Mesh, gc: Shape)
    requires IsEdgeRing(m.eNext, g.ering) && LiveIsListed(m, g) && LiveIsListed(mc, gc)
    requires BoundaryWalk(m, g, value, |g.ering|, kept, mc, gc)
    ensures forall z :: z in gc.live <==> z in g.live && IsBoundary(m, z)
    ensures forall z :: z in gc.live ==>
      && 0 <= z < |m.winding| && 0 <= z < |mc.winding|
      && mc.winding[z] == if z % 2 == 0 then (if Inside(m, z) then value else -value) else m.winding[z]
  {
    assert gc.ering == [0] + kept;
    forall z | z in gc.live
      ensures z in g.live && IsBoundary(m, z)
      ensures 0 <= z < |m.winding| && (z in kept <==> z % 2 == 0)
    {
      SymFacts(z);
      assert First(z) in gc.ering;
      assert First(z) != 0;
      assert First(z) in kept;
      assert IsBoundary(m, First(z));
      ListedParity(m, g, kept, z);
    }
    forall z | z in g.live && IsBoundary(m, z)
      ensures z in gc.live
    {
      SymFacts(z);
      var j := IndexOf(g.ering, First(z));
      assert j != 0;
      assert IsBoundary(m, g.ering[j]);
    }
  }

  /** Only even halves are listed, so z is in the kept list exactly when it
      is the listed half of its pair. */
  lemma ListedParity(m: Mesh, g: Shape, kept: seq<int>, z: int)
    requires IsEdgeRing(m.eNext, g.ering) && 0 <= z && First(z) in kept
    requires forall y :: y in kept ==> y in g.ering[1..]
    ensures z in kept <==> z % 2 == 0
  {
    SymFacts(z);
    if z in kept {
      var k := IndexOf(g.ering[1..], z);
      EdgeRingAt(m.eNext, g.ering, k + 1);
    }
  }
}
