/**
  Mesh.delete (Mesh.swift): removing one edge pair.

  The source works in two halves. First eDel leaves its origin's Onext loop
  (the origin is killed if eDel was its only edge); when eDel.Lface and
  eDel.Rface differ the left face is killed into the right one, otherwise
  the face splits and the loop through eDel takes a new face. Between the
  halves the mesh satisfies `MidInv`: the invariant with eDel no longer
  counted in the vertex loops. Then eDel.Sym leaves its origin the same way,
  which also cuts the pair out of its face loop, and the pair is unlisted.
*/
module MeshDelete {
  import opened Cycles
  import opened Labels
  import opened MeshUtils
  import opened MeshContext
  import opened MO = Mesh
  import MeshOps

  // ---------------------------------------------------------------------------
  // Small facts

  /** Under the edge algebra Onext and Lnext are one-to-one on S. */
  lemma AlgebraInjective(onext: seq<int>, lnext: seq<int>, S: set<int>, a: int, b: int)
    requires Algebra(onext, lnext, S) && a in S && b in S && a != b
    ensures 0 <= a < |onext| && 0 <= b < |onext|
    ensures onext[a] != onext[b] && lnext[a] != lnext[b]
  {
    assert EdgeOk(onext, lnext, S, a) && EdgeOk(onext, lnext, S, b);
  }

  /** A cycle through a fixed point is that point alone. */
  lemma FixedCycle(succ: seq<int>, c: seq<int>, x: int)
    requires IsCycle(succ, c) && x in c && 0 <= x < |succ| && succ[x] == x
    ensures Elems(c) == {x}
  {
    OneDistinct([x]);
    assert forall z :: z in [x] <==> z == x;
    CyclesMeet(succ, c, [x], x);
  }

  /** The pair e, e.Sym, each its own Onext and each other's Lnext, can leave
      S without breaking the edge algebra on the rest. */
  lemma AlgebraWithout(onext: seq<int>, lnext: seq<int>, S: set<int>, e: int)
    requires Algebra(onext, lnext, S) && e in S && 0 <= e && Sym(e) in S
    requires 0 <= e < |onext| && 0 <= Sym(e) < |onext| && onext[e] == e && onext[Sym(e)] == Sym(e)
    ensures Algebra(onext, lnext, S - {e, Sym(e)})
  {
    var s := Sym(e);
    var T := S - {e, s};
    SymFacts(e);
    assert EdgeOk(onext, lnext, S, e) && EdgeOk(onext, lnext, S, s);
    assert lnext[s] == e && lnext[e] == s;
    forall z | z in T ensures EdgeOk(onext, lnext, T, z) {
      assert EdgeOk(onext, lnext, S, z);
      SymFacts(z);
      AlgebraInjective(onext, lnext, S, z, e);
      AlgebraInjective(onext, lnext, S, z, s);
    }
  }

  // ---------------------------------------------------------------------------
  // The first half: eDel leaves its origin

  /** What the first half's steps need: the faces on both sides exist, and
      the loops the context walks are given (the doomed left face's when the
      faces differ, the loop through eDel after the splice when they agree). */
  ghost predicate OriginReady(m: Mesh, e: int, kf: seq<int>, cm: seq<int>, vr: seq<int>, fr: seq<int>) {
    && Shaped(m) && IsRing(m.vNext, m.vPrev, vr) && IsRing(m.fNext, m.fPrev, fr)
    && 0 <= e < |m.eNext| && 0 <= Sym(e) < |m.eNext|
    && 0 <= m.onext[e] < |m.eNext| && 0 <= Sym(m.onext[e]) < |m.eNext|
    && 0 <= Oprev(m, e) < |m.eNext| && m.onext[Oprev(m, e)] == e
    && m.lnext[Sym(m.onext[e])] == e
    && 0 <= m.org[e] < |m.vEdge|
    && m.lface[e] in fr && m.lface[e] != 0 && 0 <= m.lface[e] < |m.fEdge|
    && Rface(m, e) in fr && Rface(m, e) != 0 && 0 <= Rface(m, e) < |m.fEdge|
    && (m.lface[e] != Rface(m, e) ==>
          m.onext[e] != e && IsCycle(m.lnext, kf) && kf[0] == m.fEdge[m.lface[e]] && Sym(e) !in kf)
    && (m.onext[e] == e ==> m.org[e] in vr && m.org[e] != 0 && m.vEdge[m.org[e]] == e)
    && (m.onext[e] != e && m.lface[e] == Rface(m, e) ==>
          IsCycle(SwapSucc(m.lnext, Sym(m.onext[e]), Sym(e)), cm) && cm[0] == e)
  }

  /** The tables after the first half, case by case: faces joined; eDel
      alone at its origin; one face split. */
  ghost predicate OriginTables(m: Mesh, e: int, kf: seq<int>, cm: seq<int>, vr: seq<int>, fr: seq<int>,
                               mA: Mesh, vrA: seq<int>, frA: seq<int>)
    requires OriginReady(m, e, kf, cm, vr, fr)
  {
    var a := Oprev(m, e);
    && Shaped(mA) && IsRing(mA.vNext, mA.vPrev, vrA) && IsRing(mA.fNext, mA.fPrev, frA)
    && (m.lface[e] != Rface(m, e) ==>
          && mA == m.(fNext := mA.fNext, fPrev := mA.fPrev, lface := mA.lface,
                      fEdge := m.fEdge[Rface(m, e) := a], vEdge := m.vEdge[m.org[e] := m.onext[e]],
                      onext := SwapSucc(m.onext, e, a),
                      lnext := SwapSucc(m.lnext, Sym(m.onext[e]), Sym(e)))
          && Relabelled(m.lface, mA.lface, kf, Rface(m, e))
          && vrA == vr && frA == RemoveAt(fr, IndexOf(fr, m.lface[e])))
    && (m.onext[e] == e ==>
          && mA == m.(vNext := mA.vNext, vPrev := mA.vPrev, org := mA.org)
          && Relabelled(m.org, mA.org, [e], NIL)
          && vrA == RemoveAt(vr, IndexOf(vr, m.org[e])) && frA == fr)
    && (m.onext[e] != e && m.lface[e] == Rface(m, e) ==>
          && mA == m.(fNext := mA.fNext, fPrev := mA.fPrev, fEdge := m.fEdge[Rface(m, e) := a] + [e],
                      fInside := m.fInside + [m.fInside[m.lface[e]]], fMarked := m.fMarked + [false],
                      lface := mA.lface, vEdge := m.vEdge[m.org[e] := m.onext[e]],
                      onext := SwapSucc(m.onext, e, a),
                      lnext := SwapSucc(m.lnext, Sym(m.onext[e]), Sym(e)))
          && Relabelled(m.lface, mA.lface, cm, |m.fNext|)
          && vrA == vr && frA == InsertAt(fr, IndexOf(fr, m.lface[e]), |m.fNext|))
  }

  /** The first half of delete, step by step as the source takes it. */
  method DelOrigin(m: Mesh, e: int, ghost kf: seq<int>, ghost cm: seq<int>, ghost vr: seq<int>,
                   ghost fr: seq<int>) returns (mA: Mesh, ghost vrA: seq<int>, ghost frA: seq<int>)
    requires OriginReady(m, e, kf, cm, vr, fr)
    ensures OriginTables(m, e, kf, cm, vr, fr, mA, vrA, frA)
  {
    var joiningLoops := false;
    var m1 := m;
    frA := fr;
    vrA := vr;
    if m.lface[e] != Rface(m, e) {
      // joining two loops into one: the left face is removed
      joiningLoops := true;
      m1 := KillFace(m, m.lface[e], Rface(m, e), kf, fr);
      frA := RemoveAt(fr, IndexOf(fr, m.lface[e]));
    }
    if m1.onext[e] == e {
      MeshOps.SelfLoop(m1.onext, e);
      mA := KillVertex(m1, m1.org[e], NIL, [e], vr);
      vrA := RemoveAt(vr, IndexOf(vr, m.org[e]));
    } else {
      mA, frA := OriginSplice(m1, e, joiningLoops, cm, frA);
    }
  }

  /** The first half when eDel has other edges at its origin: the right face
      and the origin are re-anchored, eDel is spliced away from eDel.Oprev,
      and unless two loops were joined the loop now through eDel takes a new
      face, linked in before eDel.Lface. */
  method OriginSplice(m1: Mesh, e: int, joiningLoops: bool, ghost cm: seq<int>, ghost fr: seq<int>)
    returns (mA: Mesh, ghost frA: seq<int>)
    requires Shaped(m1) && IsRing(m1.fNext, m1.fPrev, fr)
    requires 0 <= e < |m1.eNext| && 0 <= Sym(e) < |m1.eNext|
    requires 0 <= m1.onext[e] < |m1.eNext| && 0 <= Sym(m1.onext[e]) < |m1.eNext|
    requires 0 <= Oprev(m1, e) < |m1.eNext| && m1.onext[Oprev(m1, e)] == e
    requires m1.lnext[Sym(m1.onext[e])] == e
    requires 0 <= m1.org[e] < |m1.vEdge| && 0 <= Rface(m1, e) < |m1.fEdge|
    requires !joiningLoops ==> m1.lface[e] in fr && 0 <= m1.lface[e] < |m1.fEdge|
    requires !joiningLoops ==> IsCycle(SwapSucc(m1.lnext, Sym(m1.onext[e]), Sym(e)), cm) && cm[0] == e
    ensures Shaped(mA) && IsRing(mA.fNext, mA.fPrev, frA)
    ensures joiningLoops ==> (frA == fr &&
      mA == m1.(fEdge := m1.fEdge[Rface(m1, e) := Oprev(m1, e)],
                vEdge := m1.vEdge[m1.org[e] := m1.onext[e]],
                onext := SwapSucc(m1.onext, e, Oprev(m1, e)),
                lnext := SwapSucc(m1.lnext, Sym(m1.onext[e]), Sym(e))))
    ensures !joiningLoops ==>
      && mA == m1.(fNext := mA.fNext, fPrev := mA.fPrev,
                   fEdge := m1.fEdge[Rface(m1, e) := Oprev(m1, e)] + [e],
                   fInside := m1.fInside + [m1.fInside[m1.lface[e]]], fMarked := m1.fMarked + [false],
                   lface := mA.lface, vEdge := m1.vEdge[m1.org[e] := m1.onext[e]],
                   onext := SwapSucc(m1.onext, e, Oprev(m1, e)),
                   lnext := SwapSucc(m1.lnext, Sym(m1.onext[e]), Sym(e)))
      && Relabelled(m1.lface, mA.lface, cm, |m1.fNext|)
      && frA == InsertAt(fr, IndexOf(fr, m1.lface[e]), |m1.fNext|)
  {
    var a := Oprev(m1, e);
    var m2 := m1.(fEdge := m1.fEdge[Rface(m1, e) := a]);
    m2 := m2.(vEdge := m2.vEdge[m2.org[e] := m2.onext[e]]);
    SpliceIsSwap(m2, e, a);
    var m3 := Splice(m2, e, a);
    frA := fr;
    if !joiningLoops {
      // splitting one loop into two: the loop through eDel takes a new face
      var fNew;
      mA, fNew := MakeFace(m3, e, m3.lface[e], cm, fr);
      frA := InsertAt(fr, IndexOf(fr, m1.lface[e]), |m1.fNext|);
    } else {
      mA := m3;
    }
  }

  // ---------------------------------------------------------------------------
  // Label steps

  /** An update before an append is an update of the old part. */
  lemma UpdateAppend(s: seq<int>, b: int, i: int, x: int)
    requires 0 <= i < |s|
    ensures (s + [b])[i := x] == s[i := x] + [b]
  {
  }

  /** Unlisting x from a ring without repetitions removes exactly x. */
  lemma RingMinus(r: seq<int>, x: int)
    requires Distinct(r) && x in r
    ensures forall z :: z in RemoveAt(r, IndexOf(r, x)) <==> z in r && z != x
  {
    RemoveAtContents(r, IndexOf(r, x));
  }

  /** t leaves the Onext loop of its origin (on the vertex labels): when t
      was alone there its vertex is relabelled nil and unlisted; otherwise
      the vertex is re-anchored at t.Onext and the swap of the successors of
      t and a = t.Oprev leaves t on a loop of its own. Either way t is no
      longer live. */
  lemma VertexCut(L: Lab, t: int, a: int, succ': seq<int>, lab': seq<int>, anchor': seq<int>,
                  ring': seq<int>) returns (cyc': map<int, seq<int>>)
    requires Valid(L) && !L.nilOk && t in L.live && a in L.live
    requires 0 <= t < |L.succ| && 0 <= a < |L.succ| && L.succ[a] == t
    requires L.succ[t] == t ==>
      && succ' == L.succ && anchor' == L.anchor && Relabelled(L.lab, lab', [t], NIL)
      && forall z :: z in ring' <==> z in L.ring && z != L.lab[t]
    requires L.succ[t] != t ==>
      && succ' == SwapSucc(L.succ, t, a) && lab' == L.lab && ring' == L.ring
      && 0 <= L.lab[t] < |L.anchor| && anchor' == L.anchor[L.lab[t] := L.succ[t]]
    ensures Valid(L.(succ := succ', lab := lab', anchor := anchor', ring := ring', cyc := cyc',
                     live := L.live - {t}))
  {
    assert CoverAt(L, t);
    var v := L.lab[t];
    assert CycleOk(L, v);
    if L.succ[t] == t {
      FixedCycle(L.succ, L.cyc[v], t);
      assert forall z :: z in [t] <==> z in L.cyc[v];
      Kill(L, v, NIL, true, lab', ring');
      cyc' := L.cyc;
    } else {
      SuccInCycle(L.succ, L.cyc[v], t);
      Reanchor(L, v, L.succ[t]);
      LabelCycle(L, a);
      cyc' := MoveOut(L.(anchor := anchor'), v, a, t);
      SwapSymmetric(L.succ, a, t);
    }
  }

  /** The faces when eDel's two faces differ (on the face labels): the swap
      at p = eDel.Lprev, on eDel.Lface, and s = eDel.Sym, on eDel.Rface,
      joins the loops; eDel.Lface's half-edges are relabelled eDel.Rface,
      which is re-anchored at a = s.Lnext. */
  lemma OriginJoin(L: Lab, p: int, s: int, a: int, lab': seq<int>, ring': seq<int>)
    returns (cyc': map<int, seq<int>>)
    requires Valid(L) && p in L.live && s in L.live && 0 <= p < |L.lab| && 0 <= s < |L.lab|
    requires L.lab[p] != NIL && L.lab[s] != NIL && L.lab[p] != L.lab[s] && L.lab[p] in L.cyc
    requires 0 <= p < |L.succ| && 0 <= s < |L.succ| && L.succ[s] == a
    requires 0 <= L.lab[s] < |L.anchor| && |lab'| == |L.lab|
    requires forall z :: 0 <= z < |L.lab| ==> lab'[z] == if z in L.cyc[L.lab[p]] then L.lab[s] else L.lab[z]
    requires forall z :: z in ring' <==> z in L.ring && z != L.lab[p]
    ensures Valid(L.(succ := SwapSucc(L.succ, p, s), lab := lab', anchor := L.anchor[L.lab[s] := a],
                     ring := ring', cyc := cyc'))
  {
    var u := L.lab[s];
    var v := L.lab[p];
    assert CoverAt(L, p) && CoverAt(L, s);
    LabelCycle(L, s);
    assert CoverAt(L, a);
    SwapSymmetric(L.succ, p, s);
    Join(L, u, v, s, p, a, SwapSucc(L.succ, s, p), lab', ring');
    var cx := RotateTo(L.cyc[u], s);
    var cy := RotateTo(L.cyc[v], p);
    cyc' := L.cyc[u := [s] + cy[1..] + [p] + cx[1..]];
  }

  /** The faces when eDel has one face on both sides (on the face labels):
      the swap at p = eDel.Lprev and s = eDel.Sym splits the loop; the half
      through s (which holds eDel = p.Lnext) takes the fresh face |anchor|,
      anchored at eDel, and the old face is re-anchored at a = s.Lnext. */
  lemma OriginSplit(L: Lab, v: int, p: int, s: int, e: int, a: int, lab': seq<int>, ring': seq<int>)
    returns (cyc': map<int, seq<int>>)
    requires Valid(L) && p in L.live && s in L.live && p != s && 0 <= p < |L.lab| && 0 <= s < |L.lab|
    requires v != NIL && L.lab[p] == v && L.lab[s] == v && v in L.cyc && p in L.cyc[v] && s in L.cyc[v]
    requires 0 <= p < |L.succ| && 0 <= s < |L.succ| && L.succ[s] == a && L.succ[p] == e
    requires |L.anchor| != 0 && |lab'| == |L.lab|
    requires forall z :: 0 <= z < |L.lab| ==> lab'[z] == if z in Halves(L.cyc[v], p, s).1 then |L.anchor| else L.lab[z]
    requires forall z :: z in ring' <==> z in L.ring || z == |L.anchor|
    ensures Valid(L.(succ := SwapSucc(L.succ, p, s), lab := lab', anchor := (L.anchor + [e])[v := a],
                     ring := ring', cyc := cyc'))
  {
    assert CoverAt(L, p) && CycleOk(L, v);
    SwapHalves(L.succ, L.cyc[v], p, s);
    SplitAt(L, v, p, s, false, |L.anchor|, e, a, SwapSucc(L.succ, p, s), lab', ring');
    var h := Halves(L.cyc[v], p, s);
    cyc' := L.cyc[v := h.0][|L.anchor| := h.1];
  }

  // ---------------------------------------------------------------------------
  // Between the halves

  /** The invariant between the two halves of delete: `Inv`, except that e
      no longer counts among the vertex loops' half-edges. */
  ghost predicate MidInv(m: Mesh, g: Shape, e: int) {
    && Shaped(m)
    && IsRing(m.vNext, m.vPrev, g.vring)
    && IsRing(m.fNext, m.fPrev, g.fring)
    && IsEdgeRing(m.eNext, g.ering)
    && LiveIsListed(m, g)
    && Valid(VLab(m, g).(live := g.live - {e}))
    && Valid(FLab(m, g))
    && Algebra(m.onext, m.lnext, g.live)
    && Sentinels(m)
  }

  /** The neighbourhood of eDel that the first half reads: a = eDel.Oprev
      lies on eDel.Rface and p = eDel.Lprev on eDel.Lface. */
  lemma OriginFacts(m: Mesh, g: Shape, e: int)
    requires Inv(m, g) && e in g.live && m.lface[e] != NIL && Rface(m, e) != NIL
    ensures 0 <= e < |m.eNext| && 0 <= Sym(e) < |m.eNext| && Sym(e) in g.live
    ensures 0 <= m.onext[e] < |m.eNext| && 0 <= Sym(m.onext[e]) < |m.eNext| && Sym(m.onext[e]) in g.live
    ensures 0 <= Oprev(m, e) < |m.eNext| && m.onext[Oprev(m, e)] == e && Oprev(m, e) in g.live
    ensures m.lnext[Sym(m.onext[e])] == e && m.lnext[Sym(e)] == Oprev(m, e)
    ensures 0 <= m.org[e] < |m.vEdge| && m.org[e] != 0 && m.org[e] in g.vring
    ensures m.lface[e] in g.fring && m.lface[e] != 0 && 0 <= m.lface[e] < |m.fEdge| && m.lface[e] in g.fcyc
    ensures Rface(m, e) in g.fring && Rface(m, e) != 0 && 0 <= Rface(m, e) < |m.fEdge| && Rface(m, e) in g.fcyc
    ensures m.lface[Sym(m.onext[e])] == m.lface[e] && Sym(m.onext[e]) in g.fcyc[m.lface[e]]
    ensures Sym(e) in g.fcyc[Rface(m, e)]
    ensures m.onext[e] == e ==> m.lface[e] == Rface(m, e)
  {
    var s := Sym(e);
    LiveNav(m, g, e);
    NavigationInverses(m, g.live, e);
    LiveOrg(m, g, e);
    assert CycleOk(VLab(m, g), m.org[e]);
    LiveFace(m, g, e);
    LiveFace(m, g, s);
    assert CycleOk(FLab(m, g), m.lface[e]) && CycleOk(FLab(m, g), m.lface[s]);
    var p := Sym(m.onext[e]);
    LnextSameFace(m, g, p);
    LiveFace(m, g, p);
    LnextSameFace(m, g, s);
  }

  /** The loops the first half's context walks: the doomed left face's loop
      kf read from its anchor, and the loop cm through eDel after the splice,
      which holds the half of the split face through eDel.Sym. */
  lemma OriginLoops(m: Mesh, g: Shape, e: int) returns (kf: seq<int>, cm: seq<int>)
    requires Inv(m, g) && e in g.live && m.lface[e] != NIL && Rface(m, e) != NIL
    ensures OriginReady(m, e, kf, cm, g.vring, g.fring)
    ensures m.lface[e] in g.fcyc
    ensures m.lface[e] != Rface(m, e) ==> forall z :: z in kf <==> z in g.fcyc[m.lface[e]]
    ensures m.lface[e] != Rface(m, e) ==> e in kf
    ensures m.lface[e] != Rface(m, e) ==> forall z :: z in g.live ==> (z in kf <==> m.lface[z] == m.lface[e])
    ensures m.onext[e] != e && m.lface[e] == Rface(m, e) ==>
      && Sym(m.onext[e]) != Sym(e) && Sym(m.onext[e]) in g.fcyc[m.lface[e]] && Sym(e) in g.fcyc[m.lface[e]]
      && forall z :: z in cm <==> z in Halves(g.fcyc[m.lface[e]], Sym(m.onext[e]), Sym(e)).1
  {
    OriginFacts(m, g, e);
    var fl := m.lface[e];
    var p := Sym(m.onext[e]);
    var s := Sym(e);
    FaceLoop(m, g, fl);
    kf := RotateTo(g.fcyc[fl], m.fEdge[fl]);
    forall z | z in g.live ensures z in kf <==> m.lface[z] == fl {
      assert CoverAt(FLab(m, g), z);
    }
    cm := [];
    if m.onext[e] == e {
      var v := m.org[e];
      VertexLoop(m, g, v);
      LiveOrg(m, g, e);
      FixedCycle(m.onext, g.vcyc[v], e);
    } else if fl == Rface(m, e) {
      assert p != s;
      SwapHalves(m.lnext, g.fcyc[fl], p, s);
      var h := Halves(g.fcyc[fl], p, s);
      RotateToIsCycle(SwapSucc(m.lnext, p, s), h.1, e);
      cm := RotateTo(h.1, e);
    }
  }

  /** The vertex labels after the first half: eDel has left its origin. */
  lemma OriginVertexSide(m: Mesh, g: Shape, e: int, kf: seq<int>, cm: seq<int>, mA: Mesh, vrA: seq<int>,
                         frA: seq<int>) returns (vcyc: map<int, seq<int>>)
    requires OriginReady(m, e, kf, cm, g.vring, g.fring) && OriginTables(m, e, kf, cm, g.vring, g.fring, mA, vrA, frA)
    requires Valid(VLab(m, g)) && e in g.live && Oprev(m, e) in g.live
    ensures Valid(Lab(mA.onext, mA.org, mA.vEdge, vrA, vcyc, g.live - {e}, false))
  {
    if m.onext[e] == e {
      RingMinus(g.vring, m.org[e]);
    }
    vcyc := VertexCut(VLab(m, g), e, Oprev(m, e), mA.onext, mA.org, mA.vEdge, vrA);
  }

  /** The face labels after the first half: faces joined, untouched, or split. */
  lemma OriginFaceSide(m: Mesh, g: Shape, e: int, kf: seq<int>, cm: seq<int>, mA: Mesh, vrA: seq<int>,
                       frA: seq<int>) returns (fcyc: map<int, seq<int>>)
    requires OriginReady(m, e, kf, cm, g.vring, g.fring) && OriginTables(m, e, kf, cm, g.vring, g.fring, mA, vrA, frA)
    requires Valid(FLab(m, g)) && e in g.live && Sym(e) in g.live && Sym(m.onext[e]) in g.live
    requires m.lface[e] in g.fcyc && Sym(m.onext[e]) in g.fcyc[m.lface[e]]
    requires m.lface[Sym(m.onext[e])] == m.lface[e]
    requires m.lface[e] != Rface(m, e) ==> forall z :: z in kf <==> z in g.fcyc[m.lface[e]]
    requires m.onext[e] != e && m.lface[e] == Rface(m, e) ==>
      && Sym(m.onext[e]) != Sym(e) && Sym(m.onext[e]) in g.fcyc[m.lface[e]] && Sym(e) in g.fcyc[m.lface[e]]
      && forall z :: z in cm <==> z in Halves(g.fcyc[m.lface[e]], Sym(m.onext[e]), Sym(e)).1
    ensures Valid(Lab(mA.lnext, mA.lface, mA.fEdge, frA, fcyc, g.live, true))
  {
    var p := Sym(m.onext[e]);
    var a := Oprev(m, e);
    if m.lface[e] != Rface(m, e) {
      fcyc := OriginJoinSide(m, g, e, kf, mA.lnext, mA.lface, mA.fEdge, frA);
    } else if m.onext[e] != e {
      fcyc := OriginSplitSide(m, g, e, cm, mA.lnext, mA.lface, mA.fEdge, frA);
    } else {
      fcyc := g.fcyc;
    }
  }

  /** `OriginJoin` on the face labels of the mesh. */
  lemma OriginJoinSide(m: Mesh, g: Shape, e: int, kf: seq<int>, lnext': seq<int>, lface': seq<int>,
                       fEdge': seq<int>, frA: seq<int>) returns (fcyc: map<int, seq<int>>)
    requires Shaped(m) && Valid(FLab(m, g)) && Distinct(g.fring)
    requires 0 <= e < |m.eNext| && 0 <= Sym(e) < |m.eNext| && e in g.live && Sym(e) in g.live
    requires 0 <= m.onext[e] < |m.eNext| && 0 <= Sym(m.onext[e]) < |m.eNext| && Sym(m.onext[e]) in g.live
    requires m.lface[e] != Rface(m, e) && m.lface[e] != NIL && Rface(m, e) != NIL
    requires m.lface[e] in g.fring && m.lface[e] in g.fcyc && 0 <= Rface(m, e) < |m.fEdge|
    requires m.lface[Sym(m.onext[e])] == m.lface[e]
    requires lnext' == SwapSucc(m.lnext, Sym(m.onext[e]), Sym(e))
    requires fEdge' == m.fEdge[Rface(m, e) := Oprev(m, e)]
    requires Relabelled(m.lface, lface', kf, Rface(m, e))
    requires frA == RemoveAt(g.fring, IndexOf(g.fring, m.lface[e]))
    requires forall z :: z in kf <==> z in g.fcyc[m.lface[e]]
    ensures Valid(Lab(lnext', lface', fEdge', frA, fcyc, g.live, true))
  {
    RingMinus(g.fring, m.lface[e]);
    fcyc := OriginJoin(FLab(m, g), Sym(m.onext[e]), Sym(e), Oprev(m, e), lface', frA);
  }

  /** `OriginSplit` on the face labels of the mesh. */
  lemma OriginSplitSide(m: Mesh, g: Shape, e: int, cm: seq<int>, lnext': seq<int>, lface': seq<int>,
                        fEdge': seq<int>, frA: seq<int>) returns (fcyc: map<int, seq<int>>)
    requires Shaped(m) && Valid(FLab(m, g))
    requires 0 <= e < |m.eNext| && 0 <= Sym(e) < |m.eNext| && e in g.live && Sym(e) in g.live
    requires 0 <= m.onext[e] < |m.eNext| && 0 <= Sym(m.onext[e]) < |m.eNext| && Sym(m.onext[e]) in g.live
    requires m.lnext[Sym(m.onext[e])] == e
    requires m.lface[e] == Rface(m, e) && m.lface[e] != NIL && m.lface[e] in g.fring && m.lface[e] in g.fcyc
    requires 0 <= m.lface[e] < |m.fEdge| && m.lface[Sym(m.onext[e])] == m.lface[e]
    requires Sym(m.onext[e]) != Sym(e) && Sym(m.onext[e]) in g.fcyc[m.lface[e]] && Sym(e) in g.fcyc[m.lface[e]]
    requires forall z :: z in cm <==> z in Halves(g.fcyc[m.lface[e]], Sym(m.onext[e]), Sym(e)).1
    requires lnext' == SwapSucc(m.lnext, Sym(m.onext[e]), Sym(e))
    requires fEdge' == m.fEdge[Rface(m, e) := Oprev(m, e)] + [e]
    requires Relabelled(m.lface, lface', cm, |m.fNext|)
    requires frA == InsertAt(g.fring, IndexOf(g.fring, m.lface[e]), |m.fNext|)
    ensures Valid(Lab(lnext', lface', fEdge', frA, fcyc, g.live, true))
  {
    var L := FLab(m, g);
    var a := Oprev(m, e);
    var f := m.lface[e];
    assert |L.anchor| == |m.fNext| && L.lab[Sym(m.onext[e])] == f && L.lab[Sym(e)] == f;
    fcyc := OriginSplit(L, f, Sym(m.onext[e]), Sym(e), e, a, lface', frA);
    UpdateAppend(m.fEdge, e, f, a);
    assert L.(succ := SwapSucc(L.succ, Sym(m.onext[e]), Sym(e)), lab := lface', anchor := (L.anchor + [e])[f := a],
              ring := frA, cyc := fcyc) == Lab(lnext', lface', fEdge', frA, fcyc, g.live, true);
  }

  /** The first half splices eDel with eDel.Oprev, which keeps the edge algebra. */
  lemma OriginAlgebra(m: Mesh, S: set<int>, e: int, mA: Mesh)
    requires Shaped(m) && 0 <= e < |m.onext| && Algebra(m.onext, m.lnext, S) && e in S && Oprev(m, e) in S
    requires 0 <= m.onext[e] < |m.onext| && 0 <= Sym(e) < |m.onext|
    requires 0 <= Oprev(m, e) < |m.onext| && m.onext[Oprev(m, e)] == e
    requires 0 <= Sym(m.onext[e]) < |m.lnext| && m.lnext[Sym(m.onext[e])] == e
    requires m.onext[e] == e ==> mA.onext == m.onext && mA.lnext == m.lnext
    requires m.onext[e] != e ==>
      && mA.onext == SwapSucc(m.onext, e, Oprev(m, e))
      && mA.lnext == SwapSucc(m.lnext, Sym(m.onext[e]), Sym(e))
    ensures Algebra(mA.onext, mA.lnext, S)
  {
    if m.onext[e] != e {
      SpliceIsSwap(m, e, Oprev(m, e));
      SplicePreservesAlgebra(m, S, e, Oprev(m, e));
    }
  }

  /** The mesh after the first half satisfies the invariant between halves. */
  lemma OriginShape(m: Mesh, g: Shape, e: int, kf: seq<int>, cm: seq<int>, mA: Mesh, vrA: seq<int>,
                    frA: seq<int>) returns (gA: Shape)
    requires Inv(m, g) && e in g.live && m.lface[e] != NIL && Rface(m, e) != NIL
    requires OriginReady(m, e, kf, cm, g.vring, g.fring) && OriginTables(m, e, kf, cm, g.vring, g.fring, mA, vrA, frA)
    requires m.lface[e] in g.fcyc
    requires m.lface[e] != Rface(m, e) ==> forall z :: z in kf <==> z in g.fcyc[m.lface[e]]
    requires m.onext[e] != e && m.lface[e] == Rface(m, e) ==>
      && Sym(m.onext[e]) != Sym(e) && Sym(m.onext[e]) in g.fcyc[m.lface[e]] && Sym(e) in g.fcyc[m.lface[e]]
      && forall z :: z in cm <==> z in Halves(g.fcyc[m.lface[e]], Sym(m.onext[e]), Sym(e)).1
    ensures MidInv(mA, gA, e)
    ensures gA == Shape(vrA, frA, g.ering, gA.vcyc, gA.fcyc, g.live)
  {
    OriginFacts(m, g, e);
    var vcyc := OriginVertexSide(m, g, e, kf, cm, mA, vrA, frA);
    var fcyc := OriginFaceSide(m, g, e, kf, cm, mA, vrA, frA);
    OriginAlgebra(m, g.live, e, mA);
    gA := Shape(vrA, frA, g.ering, vcyc, fcyc, g.live);
    OriginFrame(m, g, e, kf, cm, mA, vrA, frA, gA);
    MidInvIntro(mA, gA, e);
  }

  /** The edge list, the live set and the sentinels survive the first half. */
  lemma OriginFrame(m: Mesh, g: Shape, e: int, kf: seq<int>, cm: seq<int>, mA: Mesh, vrA: seq<int>,
                    frA: seq<int>, gA: Shape)
    requires OriginReady(m, e, kf, cm, g.vring, g.fring) && OriginTables(m, e, kf, cm, g.vring, g.fring, mA, vrA, frA)
    requires LiveIsListed(m, g) && IsEdgeRing(m.eNext, g.ering) && Sentinels(m) && m.org[e] != 0
    requires gA.ering == g.ering && gA.live == g.live
    ensures LiveIsListed(mA, gA) && IsEdgeRing(mA.eNext, gA.ering) && Sentinels(mA)
  {
    assert mA.eNext == m.eNext;
  }

  /** MidInv from its parts, with the labellings written out. */
  lemma MidInvIntro(mA: Mesh, gA: Shape, e: int)
    requires Shaped(mA) && IsRing(mA.vNext, mA.vPrev, gA.vring) && IsRing(mA.fNext, mA.fPrev, gA.fring)
    requires IsEdgeRing(mA.eNext, gA.ering) && LiveIsListed(mA, gA) && Sentinels(mA)
    requires Valid(Lab(mA.onext, mA.org, mA.vEdge, gA.vring, gA.vcyc, gA.live - {e}, false))
    requires Valid(Lab(mA.lnext, mA.lface, mA.fEdge, gA.fring, gA.fcyc, gA.live, true))
    requires Algebra(mA.onext, mA.lnext, gA.live)
    ensures MidInv(mA, gA, e)
  {
    assert VLab(mA, gA).(live := gA.live - {e}) == Lab(mA.onext, mA.org, mA.vEdge, gA.vring, gA.vcyc, gA.live - {e}, false);
    assert FLab(mA, gA) == Lab(mA.lnext, mA.lface, mA.fEdge, gA.fring, gA.fcyc, gA.live, true);
  }

  /** What the first half leaves for the second: eDel alone at its origin,
      on a face. */
  lemma OriginAfter(m: Mesh, e: int, kf: seq<int>, cm: seq<int>, vr: seq<int>, fr: seq<int>,
                    mA: Mesh, vrA: seq<int>, frA: seq<int>)
    requires OriginReady(m, e, kf, cm, vr, fr) && OriginTables(m, e, kf, cm, vr, fr, mA, vrA, frA)
    requires m.lface[e] != Rface(m, e) ==> e in kf
    ensures 0 <= e < |mA.onext| && mA.onext[e] == e && 0 <= e < |mA.lface| && mA.lface[e] != NIL
  {
  }

  // ---------------------------------------------------------------------------
  // The second half: eDel.Sym leaves its origin

  /** What the second half's steps need, where s = eDel.Sym and a' = s.Oprev:
      when s is alone at its origin, the loop of its face is given. */
  ghost predicate DestReady(m: Mesh, e: int, kd: seq<int>, vr: seq<int>, fr: seq<int>, er: seq<int>) {
    var s := Sym(e);
    && Shaped(m) && IsRing(m.vNext, m.vPrev, vr) && IsRing(m.fNext, m.fPrev, fr) && IsEdgeRing(m.eNext, er)
    && 0 <= e < |m.eNext| && 0 <= s < |m.eNext| && First(e) in er && First(e) != 0
    && 0 <= m.onext[s] < |m.eNext| && 0 <= Sym(m.onext[s]) < |m.eNext|
    && 0 <= Oprev(m, s) < |m.eNext| && m.onext[Oprev(m, s)] == s
    && m.lnext[Sym(m.onext[s])] == s
    && 0 <= m.org[s] < |m.vEdge| && 0 <= m.lface[e] < |m.fEdge|
    && (m.onext[s] == s ==>
          && m.org[s] in vr && m.org[s] != 0 && m.vEdge[m.org[s]] == s
          && m.lface[s] in fr && m.lface[s] != 0 && 0 <= m.lface[s] < |m.fEdge|
          && IsCycle(m.lnext, kd) && kd[0] == m.fEdge[m.lface[s]])
  }

  /** The tables after the second half and the unlisting of the pair: either
      s's vertex and face (the loop e, s) are killed, or s is spliced out of
      its origin's loop. */
  ghost predicate DestTables(m: Mesh, e: int, kd: seq<int>, vr: seq<int>, fr: seq<int>, er: seq<int>,
                             mB: Mesh, vrB: seq<int>, frB: seq<int>)
    requires DestReady(m, e, kd, vr, fr, er)
  {
    var s := Sym(e);
    && Shaped(mB) && IsRing(mB.vNext, mB.vPrev, vrB) && IsRing(mB.fNext, mB.fPrev, frB)
    && IsEdgeRing(mB.eNext, RemoveAt(er, IndexOf(er, First(e))))
    && (m.onext[s] == s ==>
          && mB == m.(vNext := mB.vNext, vPrev := mB.vPrev, fNext := mB.fNext, fPrev := mB.fPrev,
                      org := mB.org, lface := mB.lface, eNext := mB.eNext)
          && Relabelled(m.org, mB.org, [s], NIL) && Relabelled(m.lface, mB.lface, kd, NIL)
          && vrB == RemoveAt(vr, IndexOf(vr, m.org[s])) && frB == RemoveAt(fr, IndexOf(fr, m.lface[s])))
    && (m.onext[s] != s ==>
          && mB == m.(eNext := mB.eNext, fEdge := m.fEdge[m.lface[e] := Oprev(m, s)],
                      vEdge := m.vEdge[m.org[s] := m.onext[s]],
                      onext := SwapSucc(m.onext, s, Oprev(m, s)),
                      lnext := SwapSucc(m.lnext, Sym(m.onext[s]), e))
          && vrB == vr && frB == fr)
  }

  /** The second half, step by step as the source takes it, and killEdge. */
  method DelDest(m: Mesh, e: int, ghost kd: seq<int>, ghost vr: seq<int>, ghost fr: seq<int>,
                 ghost er: seq<int>) returns (mB: Mesh, ghost vrB: seq<int>, ghost frB: seq<int>)
    requires DestReady(m, e, kd, vr, fr, er)
    ensures DestTables(m, e, kd, vr, fr, er, mB, vrB, frB)
  {
    var s := Sym(e);
    SymFacts(e);
    var m1 := m;
    vrB := vr;
    frB := fr;
    if m.onext[s] == s {
      MeshOps.SelfLoop(m.onext, s);
      m1 := KillVertex(m, m.org[s], NIL, [s], vr);
      vrB := RemoveAt(vr, IndexOf(vr, m.org[s]));
      m1 := KillFace(m1, m1.lface[s], NIL, kd, fr);
      frB := RemoveAt(fr, IndexOf(fr, m.lface[s]));
    } else {
      // eDel.Lface and eDel.Dst get half-edges that stay
      var a := Oprev(m, s);
      m1 := m1.(fEdge := m1.fEdge[m1.lface[e] := a]);
      m1 := m1.(vEdge := m1.vEdge[m1.org[s] := m1.onext[s]]);
      SpliceIsSwap(m1, s, a);
      m1 := Splice(m1, s, a);
    }
    mB := KillEdge(m1, e, er);
  }

  /** The neighbourhood of s = eDel.Sym in the middle state: s.Oprev = eDel.Lnext
      lies on eDel.Lface together with s, and s.Lnext is eDel. */
  lemma DestFacts(mA: Mesh, gA: Shape, e: int)
    requires MidInv(mA, gA, e) && e in gA.live && 0 <= e < |mA.onext| && mA.onext[e] == e
    requires mA.lface[e] != NIL
    ensures Sym(e) in gA.live && Sym(e) != e && 0 <= Sym(e) < |mA.eNext| && Sym(Sym(e)) == e
    ensures First(e) in gA.ering && First(e) != 0
    ensures mA.lnext[Sym(e)] == e && mA.lnext[e] == Oprev(mA, Sym(e))
    ensures 0 <= Oprev(mA, Sym(e)) < |mA.eNext| && Oprev(mA, Sym(e)) in gA.live
    ensures mA.onext[Oprev(mA, Sym(e))] == Sym(e)
    ensures 0 <= mA.onext[Sym(e)] < |mA.eNext| && 0 <= Sym(mA.onext[Sym(e)]) < |mA.eNext|
    ensures Sym(mA.onext[Sym(e)]) in gA.live && mA.lnext[Sym(mA.onext[Sym(e)])] == Sym(e)
    ensures 0 <= mA.org[Sym(e)] < |mA.vEdge| && mA.org[Sym(e)] in gA.vring && mA.org[Sym(e)] != 0
    ensures mA.lface[e] in gA.fring && mA.lface[e] != 0 && 0 <= mA.lface[e] < |mA.fEdge|
    ensures mA.lface[e] in gA.fcyc && e in gA.fcyc[mA.lface[e]] && Sym(e) in gA.fcyc[mA.lface[e]]
    ensures mA.lface[Sym(e)] == mA.lface[e] && Sym(mA.onext[Sym(e)]) in gA.fcyc[mA.lface[e]]
    ensures mA.onext[Sym(e)] == Sym(e) ==> mA.vEdge[mA.org[Sym(e)]] == Sym(e) && Oprev(mA, Sym(e)) == Sym(e)
    ensures mA.onext[Sym(e)] != Sym(e) ==>
      && Oprev(mA, Sym(e)) != e && Oprev(mA, Sym(e)) != Sym(e)
      && Sym(mA.onext[Sym(e)]) != e && Sym(mA.onext[Sym(e)]) != Sym(e)
  {
    DestAlgebraFacts(mA, gA.live, e);
    DestVertexFacts(mA, gA, e);
    DestFaceFacts(mA, gA, e);
    assert First(e) in gA.ering;
  }

  /** The edge algebra around s = eDel.Sym once eDel is alone at its origin. */
  lemma DestAlgebraFacts(mA: Mesh, S: set<int>, e: int)
    requires Shaped(mA) && Algebra(mA.onext, mA.lnext, S) && e in S && 0 <= e < |mA.onext| && mA.onext[e] == e
    ensures Sym(e) in S && Sym(e) != e && 0 <= Sym(e) < |mA.eNext| && Sym(Sym(e)) == e
    ensures mA.lnext[Sym(e)] == e && mA.lnext[e] == Oprev(mA, Sym(e))
    ensures 0 <= Oprev(mA, Sym(e)) < |mA.eNext| && Oprev(mA, Sym(e)) in S
    ensures mA.onext[Oprev(mA, Sym(e))] == Sym(e)
    ensures 0 <= mA.onext[Sym(e)] < |mA.eNext| && 0 <= Sym(mA.onext[Sym(e)]) < |mA.eNext|
    ensures Sym(mA.onext[Sym(e)]) in S && mA.lnext[Sym(mA.onext[Sym(e)])] == Sym(e)
    ensures mA.onext[Sym(e)] == Sym(e) ==> Oprev(mA, Sym(e)) == Sym(e)
    ensures mA.onext[Sym(e)] != Sym(e) ==>
      && Oprev(mA, Sym(e)) != e && Oprev(mA, Sym(e)) != Sym(e)
      && Sym(mA.onext[Sym(e)]) != e && Sym(mA.onext[Sym(e)]) != Sym(e)
  {
    var s := Sym(e);
    SymFacts(e);
    assert EdgeOk(mA.onext, mA.lnext, S, e) && EdgeOk(mA.onext, mA.lnext, S, s);
    var a := mA.lnext[e];
    assert EdgeOk(mA.onext, mA.lnext, S, a);
    SymFacts(mA.onext[a]);
    assert EdgeOk(mA.onext, mA.lnext, S, mA.onext[s]);
    if mA.onext[s] != s {
      SymFacts(mA.onext[s]);
      if mA.onext[s] == e {
        AlgebraInjective(mA.onext, mA.lnext, S, e, s);
      }
    }
  }

  /** s's origin in the middle state: a vertex in use, anchored at s when s
      is its only half-edge. */
  lemma DestVertexFacts(mA: Mesh, gA: Shape, e: int)
    requires Shaped(mA) && Valid(VLab(mA, gA).(live := gA.live - {e})) && Sym(e) in gA.live && Sym(e) != e
    requires 0 <= Sym(e) < |mA.onext|
    ensures 0 <= mA.org[Sym(e)] < |mA.vEdge| && mA.org[Sym(e)] in gA.vring && mA.org[Sym(e)] != 0
    ensures mA.onext[Sym(e)] == Sym(e) ==> mA.vEdge[mA.org[Sym(e)]] == Sym(e)
  {
    var s := Sym(e);
    var VL := VLab(mA, gA).(live := gA.live - {e});
    assert CoverAt(VL, s);
    var v := mA.org[s];
    assert CycleOk(VL, v);
    if mA.onext[s] == s {
      FixedCycle(mA.onext, gA.vcyc[v], s);
    }
  }

  /** eDel's face in the middle state is in use and holds s too. */
  lemma DestFaceFacts(mA: Mesh, gA: Shape, e: int)
    requires Shaped(mA) && Valid(FLab(mA, gA)) && Algebra(mA.onext, mA.lnext, gA.live)
    requires e in gA.live && Sym(e) in gA.live && Sym(e) != e && 0 <= Sym(e) < |mA.lnext|
    requires mA.lnext[Sym(e)] == e && 0 <= e < |mA.lface| && mA.lface[e] != NIL
    ensures mA.lface[e] in gA.fring && mA.lface[e] != 0 && 0 <= mA.lface[e] < |mA.fEdge|
    ensures mA.lface[e] in gA.fcyc && e in gA.fcyc[mA.lface[e]] && Sym(e) in gA.fcyc[mA.lface[e]]
    ensures mA.lface[Sym(e)] == mA.lface[e]
    ensures 0 <= mA.onext[Sym(e)] < |mA.onext| && Sym(mA.onext[Sym(e)]) in gA.fcyc[mA.lface[e]]
  {
    var s := Sym(e);
    var FL := FLab(mA, gA);
    var F := mA.lface[e];
    assert CoverAt(FL, e);
    assert CycleOk(FL, F);
    var p := PredOnCycle(mA.lnext, gA.fcyc[F], e);
    if p != s {
      AlgebraInjective(mA.onext, mA.lnext, gA.live, p, s);
    }
    assert EdgeOk(mA.onext, mA.lnext, gA.live, s);
    assert EdgeOk(mA.onext, mA.lnext, gA.live, mA.onext[s]);
    var q := PredOnCycle(mA.lnext, gA.fcyc[F], s);
    if q != Sym(mA.onext[s]) {
      AlgebraInjective(mA.onext, mA.lnext, gA.live, q, Sym(mA.onext[s]));
    }
  }

  /** A cycle through e and s where each is the other's successor is the
      pair alone, read from any of its elements. */
  lemma PairLoop(succ: seq<int>, c: seq<int>, x: int, e: int, s: int) returns (kd: seq<int>)
    requires IsCycle(succ, c) && x in c && e in c && e != s
    requires 0 <= e < |succ| && 0 <= s < |succ| && succ[e] == s && succ[s] == e
    ensures kd == RotateTo(c, x) && IsCycle(succ, kd) && Elems(kd) == {e, s}
  {
    RotateToIsCycle(succ, c, x);
    kd := RotateTo(c, x);
    var pair := [e, s];
    TwoDistinct(pair);
    assert IsCycle(succ, pair);
    CyclesMeet(succ, kd, pair, e);
    forall y ensures y in Elems(kd) <==> y in {e, s} {
      assert y in pair <==> y == e || y == s;
    }
  }

  /** The loop the second half's killFace walks, when s is alone at its
      origin: it is eDel and s. */
  lemma DestLoops(mA: Mesh, gA: Shape, e: int) returns (kd: seq<int>)
    requires MidInv(mA, gA, e) && e in gA.live && 0 <= e < |mA.onext| && mA.onext[e] == e
    requires mA.lface[e] != NIL
    ensures DestReady(mA, e, kd, gA.vring, gA.fring, gA.ering)
    ensures mA.onext[Sym(e)] == Sym(e) ==> Elems(kd) == {e, Sym(e)}
    ensures mA.onext[Sym(e)] == Sym(e) ==> forall z :: z in kd <==> z in gA.fcyc[mA.lface[e]]
  {
    var s := Sym(e);
    DestFacts(mA, gA, e);
    kd := [];
    if mA.onext[s] == s {
      var F := mA.lface[e];
      assert CycleOk(FLab(mA, gA), F);
      kd := PairLoop(mA.lnext, gA.fcyc[F], mA.fEdge[F], e, s);
    }
  }

  /** The vertex labels after the second half: s has left its origin too. */
  lemma DestVertexSide(mA: Mesh, gA: Shape, e: int, mB: Mesh, vrB: seq<int>) returns (vcyc: map<int, seq<int>>)
    requires Shaped(mA) && Valid(VLab(mA, gA).(live := gA.live - {e})) && Distinct(gA.vring)
    requires 0 <= Sym(e) < |mA.onext| && 0 <= Oprev(mA, Sym(e)) < |mA.onext|
    requires Sym(e) in gA.live && Sym(e) != e && Oprev(mA, Sym(e)) in gA.live
    requires mA.onext[Oprev(mA, Sym(e))] == Sym(e) && 0 <= mA.org[Sym(e)] < |mA.vEdge|
    requires mA.onext[Sym(e)] == Sym(e) ==>
      && Oprev(mA, Sym(e)) == Sym(e) && mA.org[Sym(e)] in gA.vring
      && mB.onext == mA.onext && mB.vEdge == mA.vEdge && Relabelled(mA.org, mB.org, [Sym(e)], NIL)
      && vrB == RemoveAt(gA.vring, IndexOf(gA.vring, mA.org[Sym(e)]))
    requires mA.onext[Sym(e)] != Sym(e) ==>
      && Oprev(mA, Sym(e)) != e
      && mB.onext == SwapSucc(mA.onext, Sym(e), Oprev(mA, Sym(e)))
      && mB.vEdge == mA.vEdge[mA.org[Sym(e)] := mA.onext[Sym(e)]]
      && mB.org == mA.org && vrB == gA.vring
    ensures Valid(Lab(mB.onext, mB.org, mB.vEdge, vrB, vcyc, gA.live - {e, Sym(e)}, false))
  {
    var s := Sym(e);
    if mA.onext[s] == s {
      RingMinus(gA.vring, mA.org[s]);
    }
    var VL := VLab(mA, gA).(live := gA.live - {e});
    vcyc := VertexCut(VL, s, Oprev(mA, s), mB.onext, mB.org, mB.vEdge, vrB);
    assert gA.live - {e} - {s} == gA.live - {e, s};
    assert VL.(succ := mB.onext, lab := mB.org, anchor := mB.vEdge, ring := vrB, cyc := vcyc,
               live := gA.live - {e} - {s})
        == Lab(mB.onext, mB.org, mB.vEdge, vrB, vcyc, gA.live - {e, s}, false);
  }

  /** Read from p, a cycle with p -> s -> e continues with e's successor. */
  lemma ThirdOfRotation(succ: seq<int>, c: seq<int>, p: int, s: int, e: int)
    requires IsCycle(succ, c) && p in c && e in c && p != s && p != e && s != e
    requires 0 <= p < |succ| && 0 <= s < |succ| && succ[p] == s && succ[s] == e
    ensures var r := RotateTo(c, p); |r| > 2 && r[1] == s && r[2] == e
    ensures var r := RotateTo(c, p); 0 <= e < |succ| && succ[e] in [p] + r[3..]
  {
    var r := RotateTo(c, p);
    SecondOfRotation(succ, c, p);
    RotateToIsCycle(succ, c, p);
    assert e in [p] + r[2..];
    assert succ[r[1]] == r[2];
    if |r| > 3 {
      assert succ[r[2]] == r[3];
    }
  }

  /** The tables after the second half, field by field. */
  lemma DestUnpack(mA: Mesh, e: int, kd: seq<int>, vr: seq<int>, fr: seq<int>, er: seq<int>,
                   mB: Mesh, vrB: seq<int>, frB: seq<int>)
    requires DestReady(mA, e, kd, vr, fr, er) && DestTables(mA, e, kd, vr, fr, er, mB, vrB, frB)
    ensures mA.onext[Sym(e)] == Sym(e) ==>
      && mB.onext == mA.onext && mB.lnext == mA.lnext && mB.vEdge == mA.vEdge && mB.fEdge == mA.fEdge
      && Relabelled(mA.org, mB.org, [Sym(e)], NIL) && Relabelled(mA.lface, mB.lface, kd, NIL)
      && vrB == RemoveAt(vr, IndexOf(vr, mA.org[Sym(e)])) && frB == RemoveAt(fr, IndexOf(fr, mA.lface[Sym(e)]))
    ensures mA.onext[Sym(e)] != Sym(e) ==>
      && mB.onext == SwapSucc(mA.onext, Sym(e), Oprev(mA, Sym(e)))
      && mB.lnext == SwapSucc(mA.lnext, Sym(mA.onext[Sym(e)]), e)
      && mB.vEdge == mA.vEdge[mA.org[Sym(e)] := mA.onext[Sym(e)]]
      && mB.fEdge == mA.fEdge[mA.lface[e] := Oprev(mA, Sym(e))]
      && mB.org == mA.org && mB.lface == mA.lface && vrB == vr && frB == fr
    ensures mB.winding == mA.winding && mB.vS == mA.vS && mB.vT == mA.vT
    ensures mB.fInside == mA.fInside && mB.fMarked == mA.fMarked
  {
  }

  /** The face labels after the second half: the loop e, s is dropped, either
      with its face or cut out of eDel.Lface, which is re-anchored at a'. */
  lemma DestFaceSide(mA: Mesh, gA: Shape, e: int, kd: seq<int>, mB: Mesh, frB: seq<int>)
    returns (fcyc: map<int, seq<int>>)
    requires Shaped(mA) && Valid(FLab(mA, gA)) && Distinct(gA.fring)
    requires 0 <= e < |mA.onext| && 0 <= Sym(e) < |mA.onext| && Sym(e) != e
    requires mA.lnext[Sym(e)] == e && mA.lnext[e] == Oprev(mA, Sym(e))
    requires mA.lface[e] in gA.fring && mA.lface[e] != 0 && mA.lface[e] in gA.fcyc
    requires 0 <= mA.lface[e] < |mA.fEdge|
    requires e in gA.fcyc[mA.lface[e]] && mA.lface[Sym(e)] == mA.lface[e]
    requires 0 <= mA.onext[Sym(e)] < |mA.onext| && 0 <= Sym(mA.onext[Sym(e)]) < |mA.onext|
    requires mA.lnext[Sym(mA.onext[Sym(e)])] == Sym(e)
    requires mA.onext[Sym(e)] == Sym(e) ==>
      && Elems(kd) == {e, Sym(e)}
      && (forall z :: z in kd <==> z in gA.fcyc[mA.lface[e]])
      && mB.lnext == mA.lnext && mB.fEdge == mA.fEdge && Relabelled(mA.lface, mB.lface, kd, NIL)
      && frB == RemoveAt(gA.fring, IndexOf(gA.fring, mA.lface[Sym(e)]))
    requires mA.onext[Sym(e)] != Sym(e) ==>
      && Sym(mA.onext[Sym(e)]) != e && Sym(mA.onext[Sym(e)]) != Sym(e)
      && Sym(mA.onext[Sym(e)]) in gA.fcyc[mA.lface[e]]
      && mB.lnext == SwapSucc(mA.lnext, Sym(mA.onext[Sym(e)]), e)
      && mB.fEdge == mA.fEdge[mA.lface[e] := Oprev(mA, Sym(e))]
      && mB.lface == mA.lface && frB == gA.fring
    ensures Valid(Lab(mB.lnext, mB.lface, mB.fEdge, frB, fcyc, gA.live - {e, Sym(e)}, true))
  {
    var s := Sym(e);
    var F := mA.lface[e];
    var FL := FLab(mA, gA);
    assert CycleOk(FL, F);
    if mA.onext[s] == s {
      DestFaceKill(FL, F, e, s, kd, mB.lface, frB);
      fcyc := gA.fcyc;
      assert FL.(lab := mB.lface, ring := frB, live := gA.live - {e, s})
          == Lab(mB.lnext, mB.lface, mB.fEdge, frB, fcyc, gA.live - {e, s}, true);
    } else {
      var p := Sym(mA.onext[s]);
      fcyc := DestFaceCut(FL, F, e, s, p, mB.lnext, mB.fEdge);
      assert FL.(succ := mB.lnext, anchor := mB.fEdge, cyc := fcyc, live := gA.live - {e, s})
          == Lab(mB.lnext, mB.lface, mB.fEdge, frB, fcyc, gA.live - {e, s}, true);
    }
  }

  /** s alone at its origin: the face F of the loop e, s is killed. */
  lemma DestFaceKill(L: Lab, F: int, e: int, s: int, kd: seq<int>, lface': seq<int>, fr': seq<int>)
    requires Valid(L) && Used(L, F) && F in L.cyc && Distinct(L.ring) && L.nilOk
    requires Elems(kd) == {e, s}
    requires forall z :: z in kd <==> z in L.cyc[F]
    requires Relabelled(L.lab, lface', kd, NIL) && fr' == RemoveAt(L.ring, IndexOf(L.ring, F))
    ensures Valid(L.(lab := lface', ring := fr', live := L.live - {e, s}))
  {
    RingMinus(L.ring, F);
    Kill(L, F, NIL, true, lface', fr');
    assert Elems(L.cyc[F]) == {e, s};
  }

  /** s not alone at its origin: the loop e, s is cut out of the cycle of F
      after p = s.Lprev, and F is re-anchored at a = e.Lnext. */
  lemma DestFaceCut(L: Lab, F: int, e: int, s: int, p: int, lnext': seq<int>, fEdge': seq<int>)
    returns (fcyc: map<int, seq<int>>)
    requires Valid(L) && Used(L, F) && F in L.cyc && e in L.cyc[F] && p in L.cyc[F]
    requires p != s && p != e && s != e
    requires 0 <= p < |L.succ| && 0 <= s < |L.succ| && 0 <= e < |L.succ|
    requires L.succ[p] == s && L.succ[s] == e
    requires lnext' == SwapSucc(L.succ, p, e) && fEdge' == L.anchor[F := L.succ[e]]
    ensures Valid(L.(succ := lnext', anchor := fEdge', cyc := fcyc, live := L.live - {e, s}))
  {
    assert CycleOk(L, F);
    ThirdOfRotation(L.succ, L.cyc[F], p, s, e);
    fcyc := CutPair(L, F, p, RotateTo(L.cyc[F], p), e, s, lnext', fEdge');
  }

  /** `SplitOff` at p and e, read from p as c = p, s, e, ... */
  lemma CutPair(L: Lab, F: int, p: int, c: seq<int>, e: int, s: int, lnext': seq<int>, fEdge': seq<int>)
    returns (fcyc: map<int, seq<int>>)
    requires Valid(L) && Used(L, F) && F in L.cyc && p in L.cyc[F] && c == RotateTo(L.cyc[F], p)
    requires |c| > 2 && c[1] == s && c[2] == e && 0 <= p < |L.succ| && 0 <= e < |L.succ|
    requires L.succ[e] in [p] + c[3..]
    requires lnext' == SwapSucc(L.succ, p, e) && fEdge' == L.anchor[F := L.succ[e]]
    ensures Valid(L.(succ := lnext', anchor := fEdge', cyc := fcyc, live := L.live - {e, s}))
  {
    SplitOff(L, F, p, 2, false, L.succ[e], lnext');
    fcyc := L.cyc[F := [p] + c[3..]];
    PairElems(c, e, s);
    assert L.(succ := lnext', anchor := L.anchor[F := L.succ[e]], cyc := L.cyc[F := [p] + c[3..]],
              live := L.live - Elems([c[2]] + c[1..2]))
        == L.(succ := lnext', anchor := fEdge', cyc := fcyc, live := L.live - {e, s});
  }

  /** The part a split at positions 0 and 2 drops is the pair c[1], c[2]. */
  lemma PairElems(c: seq<int>, e: int, s: int)
    requires |c| > 2 && c[1] == s && c[2] == e
    ensures Elems([c[2]] + c[1..2]) == {e, s}
  {
    assert [c[2]] + c[1..2] == [e, s];
  }

  /** The edge algebra after the second half, on the live set less the pair. */
  lemma DestAlgebra(mA: Mesh, S: set<int>, e: int, mB: Mesh)
    requires Shaped(mA) && Algebra(mA.onext, mA.lnext, S) && e in S && Sym(e) in S && 0 <= e < |mA.onext|
    requires mA.onext[e] == e && Sym(e) != e && 0 <= Sym(e) < |mA.onext| && Sym(Sym(e)) == e
    requires 0 <= mA.onext[Sym(e)] < |mA.onext| && 0 <= Oprev(mA, Sym(e)) < |mA.onext|
    requires Oprev(mA, Sym(e)) in S && mA.onext[Oprev(mA, Sym(e))] == Sym(e)
    requires 0 <= Sym(mA.onext[Sym(e)]) < |mA.lnext| && mA.lnext[Sym(mA.onext[Sym(e)])] == Sym(e)
    requires mA.lnext[e] == Oprev(mA, Sym(e))
    requires mA.onext[Sym(e)] == Sym(e) ==> mB.onext == mA.onext && mB.lnext == mA.lnext
    requires mA.onext[Sym(e)] != Sym(e) ==>
      && Oprev(mA, Sym(e)) != e
      && mB.onext == SwapSucc(mA.onext, Sym(e), Oprev(mA, Sym(e)))
      && mB.lnext == SwapSucc(mA.lnext, Sym(mA.onext[Sym(e)]), e)
    ensures Algebra(mB.onext, mB.lnext, S - {e, Sym(e)})
  {
    var s := Sym(e);
    var a := Oprev(mA, s);
    if mA.onext[s] != s {
      SpliceIsSwap(mA, s, a);
      SplicePreservesAlgebra(mA, S, s, a);
    }
    AlgebraWithout(mB.onext, mB.lnext, S, e);
  }

  /** Two half-edges share their pair's first half exactly when they are
      equal or mates. */
  lemma SameFirst(z: int, e: int)
    requires 0 <= z && 0 <= e
    ensures First(z) == First(e) <==> z == e || z == Sym(e)
  {
  }

  /** The listing of live half-edges after the pair of e is unlisted, and the
      sentinels. */
  lemma DestFrame(mA: Mesh, gA: Shape, e: int, mB: Mesh, gB: Shape)
    requires Shaped(mA) && LiveIsListed(mA, gA) && IsEdgeRing(mA.eNext, gA.ering) && Sentinels(mA)
    requires 0 <= e && First(e) in gA.ering && |mB.eNext| == |mA.eNext|
    requires 0 <= Sym(e) < |mA.onext| && 0 <= e < |mA.onext|
    requires mA.org[Sym(e)] != 0 && mA.lface[e] != 0
    requires gB.ering == RemoveAt(gA.ering, IndexOf(gA.ering, First(e))) && gB.live == gA.live - {e, Sym(e)}
    requires mA.onext[Sym(e)] == Sym(e) ==> mB.vEdge == mA.vEdge && mB.fEdge == mA.fEdge
    requires mA.onext[Sym(e)] != Sym(e) ==>
      && 0 <= mA.org[Sym(e)] < |mA.vEdge| && 0 <= mA.lface[e] < |mA.fEdge|
      && mB.vEdge == mA.vEdge[mA.org[Sym(e)] := mA.onext[Sym(e)]]
      && mB.fEdge == mA.fEdge[mA.lface[e] := Oprev(mA, Sym(e))]
    ensures LiveIsListed(mB, gB) && Sentinels(mB)
  {
    RemoveAtContents(gA.ering, IndexOf(gA.ering, First(e)));
    forall z ensures z in gB.live <==> 2 <= z < |mB.eNext| && First(z) in gB.ering {
      if 0 <= z {
        SameFirst(z, e);
      }
    }
  }

  /** The invariant from its parts, with the labellings written out. */
  lemma InvIntro(mB: Mesh, gB: Shape)
    requires Shaped(mB) && IsRing(mB.vNext, mB.vPrev, gB.vring) && IsRing(mB.fNext, mB.fPrev, gB.fring)
    requires IsEdgeRing(mB.eNext, gB.ering) && LiveIsListed(mB, gB) && Sentinels(mB)
    requires Valid(Lab(mB.onext, mB.org, mB.vEdge, gB.vring, gB.vcyc, gB.live, false))
    requires Valid(Lab(mB.lnext, mB.lface, mB.fEdge, gB.fring, gB.fcyc, gB.live, true))
    requires Algebra(mB.onext, mB.lnext, gB.live)
    ensures Inv(mB, gB)
  {
    assert VLab(mB, gB) == Lab(mB.onext, mB.org, mB.vEdge, gB.vring, gB.vcyc, gB.live, false);
    assert FLab(mB, gB) == Lab(mB.lnext, mB.lface, mB.fEdge, gB.fring, gB.fcyc, gB.live, true);
  }

  /** The mesh after the second half satisfies the invariant. */
  lemma DestShape(mA: Mesh, gA: Shape, e: int, kd: seq<int>, mB: Mesh, vrB: seq<int>, frB: seq<int>)
    returns (gB: Shape)
    requires MidInv(mA, gA, e) && e in gA.live && 0 <= e < |mA.onext| && mA.onext[e] == e
    requires mA.lface[e] != NIL
    requires DestReady(mA, e, kd, gA.vring, gA.fring, gA.ering)
    requires mA.onext[Sym(e)] == Sym(e) ==>
      Elems(kd) == {e, Sym(e)} && forall z :: z in kd <==> z in gA.fcyc[mA.lface[e]]
    requires DestTables(mA, e, kd, gA.vring, gA.fring, gA.ering, mB, vrB, frB)
    ensures Inv(mB, gB)
    ensures gB.vring == vrB && gB.fring == frB && gB.live == gA.live - {e, Sym(e)}
    ensures gB.ering == RemoveAt(gA.ering, IndexOf(gA.ering, First(e)))
  {
    var s := Sym(e);
    DestFacts(mA, gA, e);
    DestUnpack(mA, e, kd, gA.vring, gA.fring, gA.ering, mB, vrB, frB);
    var vcyc := DestVertexSide(mA, gA, e, mB, vrB);
    var fcyc := DestFaceSide(mA, gA, e, kd, mB, frB);
    DestAlgebra(mA, gA.live, e, mB);
    gB := Shape(vrB, frB, RemoveAt(gA.ering, IndexOf(gA.ering, First(e))), vcyc, fcyc, gA.live - {e, s});
    DestFrame(mA, gA, e, mB, gB);
    InvIntro(mB, gB);
  }

  // ---------------------------------------------------------------------------
  // delete as a whole

  /** The successor of z in `succ` once t is cut out of its cycle (nil
      outside the table). */
  function Skip(succ: seq<int>, t: int, z: int): int {
    if 0 <= z < |succ| && 0 <= t < |succ| then (if succ[z] == t then succ[t] else succ[z]) else NIL
  }

  /** The successor of z once t and then u are cut out. */
  function SkipPair(succ: seq<int>, t: int, u: int, z: int): int {
    var n := Skip(succ, t, z);
    if n == u then Skip(succ, t, u) else n
  }

  /** eDel.Dst has no half-edge but eDel.Sym once eDel is gone: eDel.Sym is
      alone at it, or eDel is a loop edge alone at its vertex. */
  predicate DstAlone(m: Mesh, e: int)
    requires Shaped(m) && 0 <= e < |m.onext| && 0 <= Sym(e) < |m.onext|
  {
    m.onext[Sym(e)] == Sym(e) || (m.onext[Sym(e)] == e && m.onext[e] == Sym(e))
  }

  /** The first half, half-edge by half-edge: eDel is cut out of its origin's
      Onext loop; origins are kept; faces are merged into eDel.Rface or
      split off. */
  lemma OriginLinks(m: Mesh, S: set<int>, e: int, kf: seq<int>, cm: seq<int>, vr: seq<int>, fr: seq<int>,
                    mA: Mesh, vrA: seq<int>, frA: seq<int>)
    requires OriginReady(m, e, kf, cm, vr, fr) && OriginTables(m, e, kf, cm, vr, fr, mA, vrA, frA)
    requires Algebra(m.onext, m.lnext, S) && e in S && Sym(e) in S && Oprev(m, e) in S
    ensures forall z :: z in S && z != e ==>
      && 0 <= z < |mA.onext| && mA.onext[z] == Skip(m.onext, e, z) && mA.org[z] == m.org[z]
    ensures 0 <= Sym(e) < |mA.onext| && (mA.onext[Sym(e)] == Sym(e) <==> DstAlone(m, e))
    ensures m.lface[e] != Rface(m, e) ==> Relabelled(m.lface, mA.lface, kf, Rface(m, e))
    ensures m.lface[e] == Rface(m, e) ==>
      forall z :: 0 <= z < |m.lface| ==> mA.lface[z] == m.lface[z] || (z in cm && mA.lface[z] == |m.fEdge|)
    ensures mA.winding == m.winding && mA.vS == m.vS && mA.vT == m.vT && mA.eNext == m.eNext
    ensures |mA.fInside| == |m.fInside| + (if m.lface[e] == Rface(m, e) && m.onext[e] != e then 1 else 0)
    ensures mA.fInside[..|m.fInside|] == m.fInside
    ensures |mA.fInside| > |m.fInside| ==> mA.fInside[|m.fInside|] == m.fInside[m.lface[e]]
  {
    var s := Sym(e);
    var a := Oprev(m, e);
    SymFacts(e);
    forall z | z in S && z != e
      ensures 0 <= z < |mA.onext| && mA.onext[z] == Skip(m.onext, e, z) && mA.org[z] == m.org[z]
    {
      assert EdgeOk(m.onext, m.lnext, S, z);
      if m.onext[e] == e {
        AlgebraInjective(m.onext, m.lnext, S, z, e);
      } else if z != a {
        AlgebraInjective(m.onext, m.lnext, S, z, a);
      }
    }
    if m.onext[e] != e && s != a {
      AlgebraInjective(m.onext, m.lnext, S, s, a);
    }
    if m.onext[e] == e {
      AlgebraInjective(m.onext, m.lnext, S, s, e);
    }
  }

  /** The second half, half-edge by half-edge: s = eDel.Sym is cut out of its
      origin's Onext loop and nothing else changes for the other half-edges. */
  lemma DestLinks(mA: Mesh, S: set<int>, e: int, kd: seq<int>, vr: seq<int>, fr: seq<int>, er: seq<int>,
                  mB: Mesh, vrB: seq<int>, frB: seq<int>)
    requires DestReady(mA, e, kd, vr, fr, er) && DestTables(mA, e, kd, vr, fr, er, mB, vrB, frB)
    requires Algebra(mA.onext, mA.lnext, S) && Sym(e) in S && Oprev(mA, Sym(e)) in S
    requires mA.onext[Sym(e)] == Sym(e) ==> Elems(kd) == {e, Sym(e)}
    ensures forall z :: z in S && z != e && z != Sym(e) ==>
      && 0 <= z < |mB.onext| && mB.onext[z] == Skip(mA.onext, Sym(e), z)
      && mB.org[z] == mA.org[z] && mB.lface[z] == mA.lface[z]
    ensures mB.winding == mA.winding && mB.vS == mA.vS && mB.vT == mA.vT && mB.fInside == mA.fInside
  {
    var s := Sym(e);
    var a := Oprev(mA, s);
    forall z | z in S && z != e && z != s
      ensures 0 <= z < |mB.onext| && mB.onext[z] == Skip(mA.onext, s, z)
      ensures mB.org[z] == mA.org[z] && mB.lface[z] == mA.lface[z]
    {
      assert EdgeOk(mA.onext, mA.lnext, S, z);
      if mA.onext[s] == s {
        AlgebraInjective(mA.onext, mA.lnext, S, z, s);
        assert z !in kd;
      } else if z != a {
        AlgebraInjective(mA.onext, mA.lnext, S, z, a);
      }
    }
  }

  /** The two halves composed, for the half-edges that stay. */
  lemma DeleteLinks(m: Mesh, mA: Mesh, mB: Mesh, S: set<int>, e: int, kf: seq<int>)
    requires Shaped(m) && Shaped(mA) && 0 <= e < |m.onext| && 0 <= Sym(e) < |m.onext| && Sym(e) != e
    requires Shaped(mB) && |mA.onext| == |m.onext| && |mB.onext| == |m.onext|
    requires forall z :: z in S && z != e ==>
      && 0 <= z < |mA.onext| && mA.onext[z] == Skip(m.onext, e, z) && mA.org[z] == m.org[z]
    requires Sym(e) in S
    requires forall z :: z in S && z != e && z != Sym(e) ==>
      && 0 <= z < |mB.onext| && mB.onext[z] == Skip(mA.onext, Sym(e), z)
      && mB.org[z] == mA.org[z] && mB.lface[z] == mA.lface[z]
    requires m.lface[e] != Rface(m, e) ==> Relabelled(m.lface, mA.lface, kf, Rface(m, e))
    requires m.lface[e] != Rface(m, e) ==> forall z :: z in S ==> (z in kf <==> m.lface[z] == m.lface[e])
    requires m.lface[e] == Rface(m, e) ==> forall z :: z in S ==>
      0 <= z < |m.lface| && (mA.lface[z] == m.lface[z] || (m.lface[z] == m.lface[e] && mA.lface[z] == |m.fEdge|))
    ensures forall z :: z in S - {e, Sym(e)} ==>
      && 0 <= z < |m.onext| && mB.onext[z] == SkipPair(m.onext, e, Sym(e), z) && mB.org[z] == m.org[z]
      && (m.lface[e] != Rface(m, e) ==>
            mB.lface[z] == if m.lface[z] == m.lface[e] then Rface(m, e) else m.lface[z])
      && (m.lface[e] == Rface(m, e) ==>
            mB.lface[z] == m.lface[z] || (m.lface[z] == m.lface[e] && mB.lface[z] == |m.fEdge|))
  {
    var s := Sym(e);
    forall z | z in S - {e, s}
      ensures 0 <= z < |mB.onext| && mB.onext[z] == SkipPair(m.onext, e, s, z)
    {
      assert mA.onext[s] == Skip(m.onext, e, s);
    }
  }

  /** How many vertices and faces the first half removes or adds. */
  lemma OriginCounts(m: Mesh, e: int, kf: seq<int>, cm: seq<int>, vr: seq<int>, fr: seq<int>,
                     mA: Mesh, vrA: seq<int>, frA: seq<int>)
    requires OriginReady(m, e, kf, cm, vr, fr) && OriginTables(m, e, kf, cm, vr, fr, mA, vrA, frA)
    ensures |vrA| == |vr| - (if m.onext[e] == e then 1 else 0)
    ensures |frA| == |fr| + (if m.lface[e] != Rface(m, e) then -1 else if m.onext[e] == e then 0 else 1)
  {
  }

  /** How many vertices and faces the second half removes. */
  lemma DestCounts(m: Mesh, e: int, kd: seq<int>, vr: seq<int>, fr: seq<int>, er: seq<int>,
                   mB: Mesh, vrB: seq<int>, frB: seq<int>)
    requires DestReady(m, e, kd, vr, fr, er) && DestTables(m, e, kd, vr, fr, er, mB, vrB, frB)
    ensures |vrB| == |vr| - (if m.onext[Sym(e)] == Sym(e) then 1 else 0)
    ensures |frB| == |fr| - (if m.onext[Sym(e)] == Sym(e) then 1 else 0)
  {
  }

  /** The first half of delete as one step: e's origin side is detached, and
      e is left alone at its origin. */
  method DeleteOrigin(m: Mesh, e: int, ghost g: Shape) returns (mA: Mesh, ghost gA: Shape, ghost kf: seq<int>)
    requires Inv(m, g) && e in g.live && m.lface[e] != NIL && Rface(m, e) != NIL
    ensures MidInv(mA, gA, e) && gA.live == g.live && gA.ering == g.ering
    ensures 0 <= e < |mA.onext| && mA.onext[e] == e && mA.lface[e] != NIL
    ensures |mA.onext| == |m.onext| && Shaped(m) && Shaped(mA) && Sym(e) in g.live && mA.eNext == m.eNext
    ensures |gA.vring| == |g.vring| - (if m.onext[e] == e then 1 else 0)
    ensures |gA.fring| == |g.fring| + (if m.lface[e] != Rface(m, e) then -1 else if m.onext[e] == e then 0 else 1)
    ensures forall z :: z in g.live && z != e ==>
      && 0 <= z < |mA.onext| && mA.onext[z] == Skip(m.onext, e, z) && mA.org[z] == m.org[z]
    ensures 0 <= Sym(e) < |mA.onext| && (mA.onext[Sym(e)] == Sym(e) <==> DstAlone(m, e))
    ensures m.lface[e] != Rface(m, e) ==> Relabelled(m.lface, mA.lface, kf, Rface(m, e))
    ensures m.lface[e] != Rface(m, e) ==> forall z :: z in g.live ==> (z in kf <==> m.lface[z] == m.lface[e])
    ensures m.lface[e] == Rface(m, e) ==> forall z :: z in g.live ==>
      0 <= z < |m.lface| && (mA.lface[z] == m.lface[z] || (m.lface[z] == m.lface[e] && mA.lface[z] == |m.fEdge|))
    ensures mA.winding == m.winding && mA.vS == m.vS && mA.vT == m.vT
    ensures |mA.fInside| == |m.fInside| + (if m.lface[e] == Rface(m, e) && m.onext[e] != e then 1 else 0)
    ensures mA.fInside[..|m.fInside|] == m.fInside
    ensures |mA.fInside| > |m.fInside| ==> mA.fInside[|m.fInside|] == m.fInside[m.lface[e]]
  {
    OriginFacts(m, g, e);
    kf := [];
    ghost var cm;
    kf, cm := OriginLoops(m, g, e);
    ghost var vrA, frA;
    mA, vrA, frA := DelOrigin(m, e, kf, cm, g.vring, g.fring);
    OriginCounts(m, e, kf, cm, g.vring, g.fring, mA, vrA, frA);
    gA := OriginShape(m, g, e, kf, cm, mA, vrA, frA);
    OriginAfter(m, e, kf, cm, g.vring, g.fring, mA, vrA, frA);
    OriginLinks(m, g.live, e, kf, cm, g.vring, g.fring, mA, vrA, frA);
    if m.onext[e] != e && m.lface[e] == Rface(m, e) {
      OriginCutLabels(m, g, e, cm);
    }
  }

  /** The half-edges moved to the new face all came from e's left face. */
  lemma OriginCutLabels(m: Mesh, g: Shape, e: int, cm: seq<int>)
    requires Inv(m, g) && e in g.live && m.lface[e] != NIL && m.onext[e] != e && m.lface[e] == Rface(m, e)
    requires m.lface[e] in g.fcyc
    requires Sym(m.onext[e]) != Sym(e) && Sym(m.onext[e]) in g.fcyc[m.lface[e]] && Sym(e) in g.fcyc[m.lface[e]]
    requires forall z :: z in cm <==> z in Halves(g.fcyc[m.lface[e]], Sym(m.onext[e]), Sym(e)).1
    ensures forall z :: z in cm ==> 0 <= z < |m.lface| && m.lface[z] == m.lface[e]
  {
    assert CoverAt(FLab(m, g), e);
    CutLabels(FLab(m, g), m.lface[e], Sym(m.onext[e]), Sym(e), cm);
  }

  lemma CutLabels(L: Lab, F: int, x: int, y: int, cm: seq<int>)
    requires CycleOk(L, F) && x in L.cyc[F] && y in L.cyc[F] && x != y
    requires forall z :: z in cm <==> z in Halves(L.cyc[F], x, y).1
    ensures forall z :: z in cm ==> 0 <= z < |L.lab| && L.lab[z] == F
  {
    SwapHalves(L.succ, L.cyc[F], x, y);
  }

  /** The second half of delete as one step: e's destination side is detached
      and the edge pair is freed. */
  method DeleteDest(mA: Mesh, e: int, ghost gA: Shape) returns (mB: Mesh, ghost gB: Shape)
    requires MidInv(mA, gA, e) && e in gA.live && 0 <= e < |mA.onext| && mA.onext[e] == e
    requires mA.lface[e] != NIL
    ensures Inv(mB, gB) && gB.live == gA.live - {e, Sym(e)} && |mB.onext| == |mA.onext|
    ensures 0 <= Sym(e) < |mA.onext|
    ensures |gB.vring| == |gA.vring| - (if mA.onext[Sym(e)] == Sym(e) then 1 else 0)
    ensures |gB.fring| == |gA.fring| - (if mA.onext[Sym(e)] == Sym(e) then 1 else 0)
    ensures First(e) in gA.ering && gB.ering == RemoveAt(gA.ering, IndexOf(gA.ering, First(e)))
    ensures |mB.eNext| == |mA.eNext|
    ensures forall z :: z in gA.live && z != e && z != Sym(e) ==>
      && 0 <= z < |mB.onext| && mB.onext[z] == Skip(mA.onext, Sym(e), z)
      && mB.org[z] == mA.org[z] && mB.lface[z] == mA.lface[z]
    ensures mB.winding == mA.winding && mB.vS == mA.vS && mB.vT == mA.vT && mB.fInside == mA.fInside
  {
    ghost var kd := DestLoops(mA, gA, e);
    DestFacts(mA, gA, e);
    ghost var vrB, frB;
    mB, vrB, frB := DelDest(mA, e, kd, gA.vring, gA.fring, gA.ering);
    DestCounts(mA, e, kd, gA.vring, gA.fring, gA.ering, mB, vrB, frB);
    gB := DestShape(mA, gA, e, kd, mB, vrB, frB);
    DestLinks(mA, gA.live, e, kd, gA.vring, gA.fring, gA.ering, mB, vrB, frB);
  }

  /** Mesh.delete(eDel): the pair of eDel is removed. eDel's origin goes if
      eDel was its only edge, and so does its destination; two different
      faces either side are merged into eDel.Rface, while one face on both
      sides is split in two unless eDel hangs by its origin alone. Every
      other half-edge keeps its origin and steps over eDel and eDel.Sym in
      its Onext loop. */
  method Delete(m: Mesh, e: int, ghost g: Shape) returns (m': Mesh, ghost g': Shape)
    requires Inv(m, g) && e in g.live && m.lface[e] != NIL && Rface(m, e) != NIL
    ensures Inv(m', g') && g'.live == g.live - {e, Sym(e)}
    ensures 0 <= e < |m.onext| && 0 <= Sym(e) < |m.onext|
    ensures First(e) in g.ering && g'.ering == RemoveAt(g.ering, IndexOf(g.ering, First(e)))
    ensures EdgeCount(g') == EdgeCount(g) - 1 && |m'.eNext| == |m.eNext|
    ensures VertexCount(g') == VertexCount(g) - (if m.onext[e] == e then 1 else 0) - (if DstAlone(m, e) then 1 else 0)
    ensures FaceCount(g') == FaceCount(g) - (if DstAlone(m, e) then 1 else 0)
      + (if m.lface[e] != Rface(m, e) then -1 else if m.onext[e] == e then 0 else 1)
    ensures forall z :: z in g'.live ==>
      && 0 <= z < |m.onext| && m'.onext[z] == SkipPair(m.onext, e, Sym(e), z) && m'.org[z] == m.org[z]
      && (m.lface[e] != Rface(m, e) ==>
            m'.lface[z] == if m.lface[z] == m.lface[e] then Rface(m, e) else m.lface[z])
      && (m.lface[e] == Rface(m, e) ==>
            m'.lface[z] == m.lface[z] || (m.lface[z] == m.lface[e] && m'.lface[z] == |m.fEdge|))
    ensures m'.winding == m.winding && m'.vS == m.vS && m'.vT == m.vT
    ensures |m'.fInside| == |m.fInside| + (if m.lface[e] == Rface(m, e) && m.onext[e] != e then 1 else 0)
    ensures m'.fInside[..|m.fInside|] == m.fInside
    ensures |m'.fInside| > |m.fInside| ==> m'.fInside[|m.fInside|] == m.fInside[m.lface[e]]
  {
    var mA;
    ghost var gA, kf;
    mA, gA, kf := DeleteOrigin(m, e, g);
    m', g' := DeleteDest(mA, e, gA);
    DeleteLinks(m, mA, m', g.live, e, kf);
  }
}
