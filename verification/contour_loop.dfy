// The loop of fresh half-edges that addContour (Tess.swift) lays down, and
// how one splitEdge step grows it by a half-edge.

module ContourLoop {
  import opened Cycles
  import opened Labels
  import opened MeshUtils
  import opened MeshContext
  import opened MO = Mesh
  import opened ContourFacts

  /** addContour after the first |loop| points of `added`, as
      ContourFacts.StateFacts states it; written here so that each use
      checks it as one fact. */
  ghost predicate ContourState(m: Mesh, g: Shape, pos0: map<int, Vector3>, added: seq<Vector3>,
                               mc: Mesh, gc: Shape, loop: seq<int>, pos: map<int, Vector3>) {
    StateFacts(m, g, pos0, added, mc, gc, loop, pos)
  }

  /** What splitEdge(e) promises about eNew = e.Lnext, as
      ContourFacts.SplitFacts states it, checked as one fact. */
  ghost predicate EdgeSplit(mc: Mesh, gc: Shape, e: int, mc1: Mesh, gc1: Shape, eNew: int) {
    SplitFacts(mc, gc, e, mc1, gc1, eNew)
  }

  /** The state after the first point. */
  lemma StartState(m: Mesh, g: Shape, pos0: map<int, Vector3>, added: seq<Vector3>,
                   m1: Mesh, g1: Shape, e: int, mc: Mesh, pos: map<int, Vector3>)
    requires LiveIsListed(m, g) && Shaped(m) && Shaped(m1) && 0 < |added|
    requires e == |m.eNext| && Sym(e) == e + 1 && g1.live == g.live + {e, e + 1}
    requires |m1.eNext| == |m.eNext| + 2 && m1.winding == m.winding + [0, 0]
    requires m1.lnext[e] == e && m1.lface[e] != m1.lface[Sym(e)] && m1.lface[e] != NIL
    requires m1.org[e] == |m.vNext| && |m.vNext| < |m1.vNext|
    requires VertexCount(g1) == VertexCount(g) + 1 && FaceCount(g1) == FaceCount(g) + 2
    requires EdgeCount(g1) == EdgeCount(g) + 1
    requires mc == m1.(winding := m1.winding[e := 1][Sym(e) := -1])
    requires pos == pos0[m1.org[e] := added[0]]
    ensures StateFacts(m, g, pos0, added, mc, g1, [e], pos)
  {
    OneDistinct([e]);
    assert IsCycle(mc.lnext, [e]);
    assert OnLoop(m, g, mc, g1, e, e, added[0], pos);
  }

  /** A cycle grown by one element after its last. */
  lemma GrowCycle(succ: seq<int>, succ': seq<int>, c: seq<int>, x: int)
    requires IsCycle(succ, c) && x !in c && 0 <= x < |succ'| && |succ| <= |succ'|
    requires forall i :: 0 <= i < |c| - 1 ==> succ'[c[i]] == succ[c[i]]
    requires succ'[c[|c| - 1]] == x && succ'[x] == c[0]
    ensures IsCycle(succ', c + [x])
  {
    var c' := c + [x];
    assert multiset(c)[x] == 0;
    assert Distinct(c') by {
      forall y ensures multiset(c')[y] <= 1 {
        assert multiset(c')[y] == multiset(c)[y] + multiset{x}[y];
      }
    }
    forall i | 0 <= i < |c'| - 1 ensures succ'[c'[i]] == c'[i + 1] {
      if i < |c| - 1 {
        assert c'[i] == c[i] && c'[i + 1] == c[i + 1];
      }
    }
  }

  /** The loop's last half-edge is live. */
  lemma LastLive(m: Mesh, g: Shape, pos0: map<int, Vector3>, added: seq<Vector3>,
                 mc: Mesh, gc: Shape, loop: seq<int>, pos: map<int, Vector3>)
    requires ContourState(m, g, pos0, added, mc, gc, loop, pos)
    ensures 0 < |loop| <= |added| && loop[|loop| - 1] in gc.live
  {
    assert OnLoop(m, g, mc, gc, loop[|loop| - 1], loop[0], added[|loop| - 1], pos);
  }

  /** The loop's half-edges, against its last one e: none is e.Sym or runs
      into e.Sym, since e.Sym lies on the other face. */
  lemma LoopApart(m: Mesh, g: Shape, pos0: map<int, Vector3>, added: seq<Vector3>,
                  mc: Mesh, gc: Shape, loop: seq<int>, pos: map<int, Vector3>)
    requires ContourState(m, g, pos0, added, mc, gc, loop, pos)
    ensures 0 <= loop[|loop| - 1] < |mc.eNext| && mc.lnext[loop[|loop| - 1]] == loop[0]
    ensures forall j :: 0 <= j < |loop| ==>
      && |m.eNext| <= loop[j] < |mc.eNext|
      && loop[j] != Sym(loop[|loop| - 1]) && mc.lnext[loop[j]] != Sym(loop[|loop| - 1])
    ensures mc.lface[loop[|loop| - 1]] == mc.lface[loop[0]]
    ensures Rface(mc, loop[|loop| - 1]) == mc.lface[Sym(loop[0])]
  {
    var k := |loop|;
    var e := loop[k - 1];
    assert OnLoop(m, g, mc, gc, e, loop[0], added[k - 1], pos);
    forall j | 0 <= j < k
      ensures |m.eNext| <= loop[j] < |mc.eNext| && loop[j] != Sym(e) && mc.lnext[loop[j]] != Sym(e)
    {
      assert OnLoop(m, g, mc, gc, loop[j], loop[0], added[j], pos);
      SuccInCycle(mc.lnext, loop, loop[j]);
      var n := IndexOf(loop, mc.lnext[loop[j]]);
      assert OnLoop(m, g, mc, gc, loop[n], loop[0], added[n], pos);
    }
  }

  /** A half-edge already on the loop stays on it across splitEdge and the
      winding marks: none of what OnLoop reads changes for it. */
  lemma KeepOnLoop(m: Mesh, g: Shape, mc: Mesh, gc: Shape, mc1: Mesh, gc1: Shape, mc': Mesh,
                   e: int, eNew: int, x: int, e0: int, p: Vector3, q: Vector3,
                   pos: map<int, Vector3>, pos': map<int, Vector3>)
    requires OnLoop(m, g, mc, gc, x, e0, p, pos) && EdgeSplit(mc, gc, e, mc1, gc1, eNew)
    requires |mc.vNext| < |mc1.vNext|
    requires x != Sym(e) && e0 < |mc.eNext| && Sym(e0) < |mc.eNext|
    requires mc' == mc1.(winding := mc1.winding[eNew := 1][Sym(eNew) := -1])
    requires pos' == pos[|mc.vNext| := q]
    ensures OnLoop(m, g, mc', gc1, x, e0, p, pos')
  {
  }

  /** The fresh half-edge joins the loop. */
  lemma NewOnLoop(m: Mesh, g: Shape, mc: Mesh, gc: Shape, mc1: Mesh, gc1: Shape, mc': Mesh,
                  e: int, eNew: int, e0: int, p: Vector3, pos: map<int, Vector3>, pos': map<int, Vector3>)
    requires LiveIsListed(m, g) && |m.eNext| <= |mc.eNext| && |m.vNext| <= |mc.vNext|
    requires EdgeSplit(mc, gc, e, mc1, gc1, eNew) && |mc.vNext| < |mc1.vNext|
    requires 0 <= e0 < |mc.eNext| && 0 <= Sym(e0) < |mc.eNext|
    requires mc.lface[e] == mc.lface[e0] && Rface(mc, e) == mc.lface[Sym(e0)]
    requires mc' == mc1.(winding := mc1.winding[eNew := 1][Sym(eNew) := -1])
    requires pos' == pos[mc1.org[eNew] := p]
    ensures OnLoop(m, g, mc', gc1, eNew, e0, p, pos')
  {
    assert eNew !in g.live && Sym(eNew) !in g.live;
  }

  /** The loop grown by the fresh half-edge is one Lnext cycle. */
  lemma LoopGrows(m: Mesh, g: Shape, pos0: map<int, Vector3>, added: seq<Vector3>,
                  mc: Mesh, gc: Shape, loop: seq<int>, pos: map<int, Vector3>,
                  mc1: Mesh, gc1: Shape, eNew: int, mc': Mesh)
    requires ContourState(m, g, pos0, added, mc, gc, loop, pos)
    requires EdgeSplit(mc, gc, loop[|loop| - 1], mc1, gc1, eNew)
    requires mc' == mc1.(winding := mc1.winding[eNew := 1][Sym(eNew) := -1])
    ensures IsCycle(mc'.lnext, loop + [eNew])
  {
    var k := |loop|;
    var e := loop[k - 1];
    LoopApart(m, g, pos0, added, mc, gc, loop, pos);
    forall i | 0 <= i < k - 1 ensures mc'.lnext[loop[i]] == mc.lnext[loop[i]] {
      DistinctApart(loop, i, k - 1);
    }
    assert eNew !in loop by {
      forall j | 0 <= j < k ensures loop[j] != eNew {
      }
    }
    GrowCycle(mc.lnext, mc'.lnext, loop, eNew);
  }

  /** The state after one later point, from splitEdge's contract. */
  lemma ExtendState(m: Mesh, g: Shape, pos0: map<int, Vector3>, added: seq<Vector3>,
                    mc: Mesh, gc: Shape, loop: seq<int>, pos: map<int, Vector3>,
                    mc1: Mesh, gc1: Shape, eNew: int, mc': Mesh, pos': map<int, Vector3>)
    requires LiveIsListed(m, g) && ContourState(m, g, pos0, added, mc, gc, loop, pos) && |loop| < |added|
    requires EdgeSplit(mc, gc, loop[|loop| - 1], mc1, gc1, eNew) && |mc.vNext| < |mc1.vNext|
    requires mc' == mc1.(winding := mc1.winding[eNew := 1][Sym(eNew) := -1])
    requires pos' == pos[mc1.org[eNew] := added[|loop|]]
    ensures StateFacts(m, g, pos0, added, mc', gc1, loop + [eNew], pos')
  {
    LoopApart(m, g, pos0, added, mc, gc, loop, pos);
    LoopGrows(m, g, pos0, added, mc, gc, loop, pos, mc1, gc1, eNew, mc');
    LoopOnLoop(m, g, pos0, added, mc, gc, loop, pos, mc1, gc1, eNew, mc', pos');
    LoopOrgsApart(m, g, pos0, added, mc, gc, loop, pos, mc1, gc1, eNew, mc');
  }

  /** Every half-edge of the longer loop sits on it as the state says. */
  lemma LoopOnLoop(m: Mesh, g: Shape, pos0: map<int, Vector3>, added: seq<Vector3>,
                   mc: Mesh, gc: Shape, loop: seq<int>, pos: map<int, Vector3>,
                   mc1: Mesh, gc1: Shape, eNew: int, mc': Mesh, pos': map<int, Vector3>)
    requires LiveIsListed(m, g) && ContourState(m, g, pos0, added, mc, gc, loop, pos) && |loop| < |added|
    requires EdgeSplit(mc, gc, loop[|loop| - 1], mc1, gc1, eNew) && |mc.vNext| < |mc1.vNext|
    requires mc' == mc1.(winding := mc1.winding[eNew := 1][Sym(eNew) := -1])
    requires pos' == pos[mc1.org[eNew] := added[|loop|]]
    ensures forall j :: 0 <= j < |loop| + 1 ==>
      OnLoop(m, g, mc', gc1, (loop + [eNew])[j], (loop + [eNew])[0], added[j], pos')
  {
    var k := |loop|;
    var e := loop[k - 1];
    var loop' := loop + [eNew];
    LoopApart(m, g, pos0, added, mc, gc, loop, pos);
    forall j | 0 <= j < k + 1 ensures OnLoop(m, g, mc', gc1, loop'[j], loop'[0], added[j], pos') {
      if j < k {
        KeepAt(m, g, pos0, added, mc, gc, loop, pos, mc1, gc1, eNew, mc', pos', j);
      } else {
        NewOnLoop(m, g, mc, gc, mc1, gc1, mc', e, eNew, loop[0], added[k], pos, pos');
      }
    }
  }

  /** One old half-edge of the loop stays on it. */
  lemma KeepAt(m: Mesh, g: Shape, pos0: map<int, Vector3>, added: seq<Vector3>,
               mc: Mesh, gc: Shape, loop: seq<int>, pos: map<int, Vector3>,
               mc1: Mesh, gc1: Shape, eNew: int, mc': Mesh, pos': map<int, Vector3>, j: int)
    requires LiveIsListed(m, g) && ContourState(m, g, pos0, added, mc, gc, loop, pos) && |loop| < |added|
    requires EdgeSplit(mc, gc, loop[|loop| - 1], mc1, gc1, eNew) && |mc.vNext| < |mc1.vNext|
    requires mc' == mc1.(winding := mc1.winding[eNew := 1][Sym(eNew) := -1])
    requires pos' == pos[mc1.org[eNew] := added[|loop|]]
    requires 0 <= j < |loop|
    ensures OnLoop(m, g, mc', gc1, loop[j], loop[0], added[j], pos')
  {
    var k := |loop|;
    LoopApart(m, g, pos0, added, mc, gc, loop, pos);
    assert OnLoop(m, g, mc, gc, loop[j], loop[0], added[j], pos);
    KeepOnLoop(m, g, mc, gc, mc1, gc1, mc', loop[k - 1], eNew, loop[j], loop[0], added[j], added[k], pos, pos');
  }

  /** The origins along the longer loop are still pairwise apart. */
  lemma LoopOrgsApart(m: Mesh, g: Shape, pos0: map<int, Vector3>, added: seq<Vector3>,
                      mc: Mesh, gc: Shape, loop: seq<int>, pos: map<int, Vector3>,
                      mc1: Mesh, gc1: Shape, eNew: int, mc': Mesh)
    requires LiveIsListed(m, g) && ContourState(m, g, pos0, added, mc, gc, loop, pos) && |loop| < |added|
    requires EdgeSplit(mc, gc, loop[|loop| - 1], mc1, gc1, eNew) && |mc.vNext| < |mc1.vNext|
    requires mc' == mc1.(winding := mc1.winding[eNew := 1][Sym(eNew) := -1])
    ensures forall j, i :: 0 <= j < i < |loop| + 1 ==> mc'.org[(loop + [eNew])[j]] != mc'.org[(loop + [eNew])[i]]
  {
    var k := |loop|;
    var loop' := loop + [eNew];
    forall j, i | 0 <= j < i < k + 1 ensures mc'.org[loop'[j]] != mc'.org[loop'[i]] {
      assert OnLoop(m, g, mc, gc, loop[j], loop[0], added[j], pos);
      if i < k {
        assert OnLoop(m, g, mc, gc, loop[i], loop[0], added[i], pos);
      }
    }
  }
}
