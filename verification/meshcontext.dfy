/**
  Record creation and destruction with the upkeep of the global lists
  (MeshCreationContext.swift). Allocation takes a fresh handle at the end of
  an arena; a destroyed record is unlinked and its slot is never used again.

  The global vertex and face lists are rings in the sense of `Cycles.IsRing`.
  The global edge list threads the first half-edge of each pair through
  `next`, and keeps the `prev` link in the other half: for a first half e,
  `e.next` is the next first half and `e.Sym.next` is the previous one's Sym.
*/
module MeshContext {
  import opened Cycles
  import opened Labels
  import opened MeshUtils

  /** The Sym of a first half: first halves are even, so their mate is the
      next handle. Stating the edge list through `Mate` keeps parity
      reasoning out of the list proofs. */
  function Mate(e: int): int {
    e + 1
  }

  lemma MateIsSym(e: int)
    requires e % 2 == 0
    ensures Sym(e) == Mate(e) && Sym(Mate(e)) == e && First(e) == e && First(Mate(e)) == e
  {
  }

  /** `r` lists the first halves of the edge pairs from the head pair 0, in
      `next` order, and the Sym halves hold the backward links. */
  ghost predicate IsEdgeRing(eNext: seq<int>, r: seq<int>) {
    && |eNext| % 2 == 0
    && |r| > 0 && r[0] == 0
    && Distinct(r)
    && InRange(r, |eNext|)
    && (forall i :: 0 <= i < |r| ==> r[i] % 2 == 0)
    && (forall i {:trigger eNext[r[i]]} :: 0 <= i < |r| - 1 ==> eNext[r[i]] == r[i + 1])
    && (forall i {:trigger eNext[Mate(r[i])]} :: 0 < i < |r| ==> eNext[Mate(r[i])] == Mate(r[i - 1]))
    && eNext[r[|r| - 1]] == 0
    && eNext[1] == Mate(r[|r| - 1])
  }

  /** Reading one element of a listing: range, parity and both links. */
  lemma EdgeRingAt(eNext: seq<int>, r: seq<int>, i: int)
    requires IsEdgeRing(eNext, r) && 0 <= i < |r|
    ensures 0 <= r[i] && Mate(r[i]) < |eNext| && r[i] % 2 == 0
    ensures eNext[r[i]] == if i == |r| - 1 then 0 else r[i + 1]
    ensures eNext[Mate(r[i])] == Mate(if i == 0 then r[|r| - 1] else r[i - 1])
  {
  }

  /** `s` is `eNext` after the list surgery of MakeEdge: the fresh pair
      e = |eNext|, e + 1 goes in just before the first half `at`, whose
      backward link (in its mate) names the mate of the pair before. */
  ghost predicate PairLinkedBefore(eNext: seq<int>, at: int, s: seq<int>)
    requires 0 <= at && Mate(at) < |eNext|
  {
    var e := |eNext|;
    var ePrev := eNext[Mate(at)];
    && |s| == e + 2
    && forall x {:trigger s[x]} :: 0 <= x < |s| ==>
         s[x] == if x == Mate(at) then Mate(e)
                 else if x == e then at
                 else if x == ePrev - 1 then e
                 else if x == Mate(e) then ePrev
                 else eNext[x]
  }

  /** The four assignments of MakeEdge, written with `Sym`, perform
      `PairLinkedBefore`. */
  lemma LinkStepsArePairLinked(eNext: seq<int>, at: int, before: int)
    requires |eNext| % 2 == 0 && 0 <= at && at % 2 == 0 && Mate(at) < |eNext|
    requires 0 <= before && before % 2 == 0 && Mate(before) < |eNext|
    requires eNext[Mate(at)] == Mate(before)
    ensures var e := |eNext|; var ePrev := eNext[Sym(at)];
      PairLinkedBefore(eNext, at,
        (eNext + [NIL, NIL])[Sym(e) := ePrev][Sym(ePrev) := e][e := at][Sym(at) := Sym(e)])
  {
    MateIsSym(at);
    MateIsSym(before);
    MateIsSym(|eNext|);
  }

  lemma LinkPairBeforeIsRing(eNext: seq<int>, r: seq<int>, k: nat, s: seq<int>)
    requires IsEdgeRing(eNext, r) && k < |r| && PairLinkedBefore(eNext, r[k], s)
    ensures IsEdgeRing(s, InsertAt(r, k, |eNext|))
  {
    EdgeRingAt(eNext, r, k);
    InsertAtEven(eNext, r, k);
    var n := |r|;
    var r' := InsertAt(r, k, |eNext|);
    forall i {:trigger s[r'[i]]} | 0 <= i < n ensures s[r'[i]] == r'[i + 1] {
      LinkPairNextAt(eNext, r, k, s, i);
    }
    LinkPairNextAt(eNext, r, k, s, n);
    forall i {:trigger s[Mate(r'[i])]} | 0 < i <= n ensures s[Mate(r'[i])] == Mate(r'[i - 1]) {
      LinkPairPrevAt(eNext, r, k, s, i);
    }
    LinkPairPrevAt(eNext, r, k, s, 0);
  }

  /** The fresh first half keeps the listing even, distinct and in range. */
  lemma InsertAtEven(eNext: seq<int>, r: seq<int>, k: nat)
    requires IsEdgeRing(eNext, r) && k < |r|
    ensures var r' := InsertAt(r, k, |eNext|);
      && Distinct(r') && InRange(r', |eNext| + 2) && r'[0] == 0
      && forall i :: 0 <= i < |r'| ==> r'[i] % 2 == 0
  {
    var e := |eNext|;
    var r' := InsertAt(r, k, e);
    assert e !in r;
    InsertAtDistinct(r, k, e, e + 2);
    var p := if k == 0 then |r| else k;
    forall i | 0 <= i < |r'| ensures r'[i] % 2 == 0 {
      if i < p {
        assert r'[i] == r[i];
      } else if i > p {
        assert r'[i] == r[i - 1];
      }
    }
  }

  /** One forward link after the insertion; past the end it is the head. */
  lemma LinkPairNextAt(eNext: seq<int>, r: seq<int>, k: nat, s: seq<int>, i: nat)
    requires IsEdgeRing(eNext, r) && k < |r| && PairLinkedBefore(eNext, r[k], s)
    requires i <= |r|
    ensures var r' := InsertAt(r, k, |eNext|);
      s[r'[i]] == if i == |r| then 0 else r'[i + 1]
  {
    var n := |r|;
    var e := |eNext|;
    var at := r[k];
    var p := if k == 0 then n else k;
    EdgeRingAt(eNext, r, k);
    EdgeRingAt(eNext, r, p - 1);
    var r' := InsertAt(r, k, e);
    if i == p - 1 {
      assert r'[i] == r[p - 1] && r'[i + 1] == e;
      assert s[r[p - 1]] == e;
    } else if i == p {
      assert r'[i] == e;
      if p < n {
        assert r'[i + 1] == at;
      }
      assert s[e] == at;
    } else {
      var j := if i < p then i else i - 1;
      assert r'[i] == r[j];
      EdgeRingAt(eNext, r, j);
      DistinctApart(r, j, p - 1);
      assert s[r[j]] == eNext[r[j]];
      if j < n - 1 {
        assert r'[i + 1] == r[j + 1];
      }
    }
  }

  /** One backward link after the insertion; at the head it names the last. */
  lemma LinkPairPrevAt(eNext: seq<int>, r: seq<int>, k: nat, s: seq<int>, i: nat)
    requires IsEdgeRing(eNext, r) && k < |r| && PairLinkedBefore(eNext, r[k], s)
    requires i <= |r|
    ensures var r' := InsertAt(r, k, |eNext|);
      s[Mate(r'[i])] == Mate(if i == 0 then r'[|r|] else r'[i - 1])
  {
    var n := |r|;
    var e := |eNext|;
    var at := r[k];
    var p := if k == 0 then n else k;
    EdgeRingAt(eNext, r, k);
    EdgeRingAt(eNext, r, p - 1);
    var r' := InsertAt(r, k, e);
    if i == p {
      assert r'[i] == e && r'[i - 1] == r[p - 1];
      assert s[Mate(e)] == eNext[Mate(at)];
    } else if i == p + 1 || (i == 0 && k == 0) {
      assert r'[i] == at;
      if i == 0 {
        assert r'[n] == e;
      } else {
        assert r'[i - 1] == e;
      }
      assert s[Mate(at)] == Mate(e);
    } else {
      var j := if i < p then i else i - 1;
      assert r'[i] == r[j];
      EdgeRingAt(eNext, r, j);
      DistinctApart(r, j, k);
      assert s[Mate(r[j])] == eNext[Mate(r[j])];
      if i == 0 {
        assert r'[n] == r[n - 1];
      } else {
        assert r'[i - 1] == r[j - 1];
      }
    }
  }

  /** `s` is `eNext` after the list surgery of killEdge: pair d's
      neighbours point at each other. */
  ghost predicate PairUnlinked(eNext: seq<int>, d: int, s: seq<int>)
    requires 0 <= d && Mate(d) < |eNext|
  {
    var eN := eNext[d];
    var ePrev := eNext[Mate(d)];
    && |s| == |eNext|
    && forall x {:trigger s[x]} :: 0 <= x < |s| ==>
         s[x] == if x == ePrev - 1 then eN
                 else if x == Mate(eN) then ePrev
                 else eNext[x]
  }

  /** The two assignments of killEdge, written with `Sym`, perform
      `PairUnlinked`. */
  lemma UnlinkStepsArePairUnlinked(eNext: seq<int>, d: int, before: int)
    requires 0 <= d && d % 2 == 0 && Mate(d) < |eNext|
    requires 0 <= eNext[d] && eNext[d] % 2 == 0 && Mate(eNext[d]) < |eNext|
    requires 0 <= before && before % 2 == 0 && Mate(before) < |eNext|
    requires eNext[Mate(d)] == Mate(before)
    ensures var eN := eNext[d]; var ePrev := eNext[Sym(d)];
      PairUnlinked(eNext, d, eNext[Sym(eN) := ePrev][Sym(ePrev) := eN])
  {
    MateIsSym(d);
    MateIsSym(before);
    MateIsSym(eNext[d]);
  }

  lemma UnlinkPairIsRing(eNext: seq<int>, r: seq<int>, k: nat, s: seq<int>)
    requires IsEdgeRing(eNext, r) && 0 < k < |r|
    requires Mate(r[k]) < |eNext| && PairUnlinked(eNext, r[k], s)
    ensures IsEdgeRing(s, RemoveAt(r, k))
  {
    UnlinkPairFacts(eNext, r, k);
    var n := |r| - 1;
    var r' := RemoveAt(r, k);
    forall i {:trigger s[r'[i]]} | 0 <= i < n - 1 ensures s[r'[i]] == r'[i + 1] {
      UnlinkPairNextAt(eNext, r, k, s, i);
    }
    forall i {:trigger s[Mate(r'[i])]} | 0 < i < n ensures s[Mate(r'[i])] == Mate(r'[i - 1]) {
      UnlinkPairPrevAt(eNext, r, k, s, i);
    }
    UnlinkPairNextAt(eNext, r, k, s, n - 1);
    UnlinkPairPrevAt(eNext, r, k, s, 0);
  }

  lemma UnlinkPairFacts(eNext: seq<int>, r: seq<int>, k: nat)
    requires IsEdgeRing(eNext, r) && 0 < k < |r|
    ensures var r' := RemoveAt(r, k);
      && Distinct(r') && InRange(r', |eNext|) && r'[0] == 0
      && forall i :: 0 <= i < |r'| ==> r'[i] % 2 == 0
  {
    var r' := RemoveAt(r, k);
    RemoveAtContents(r, k);
    forall i | 0 <= i < |r'| ensures 0 <= r'[i] < |eNext| && r'[i] % 2 == 0 {
      if i < k {
        assert r'[i] == r[i];
      } else {
        assert r'[i] == r[i + 1];
      }
    }
  }

  /** One forward link after the unlink; past the end it is the head. */
  lemma UnlinkPairNextAt(eNext: seq<int>, r: seq<int>, k: nat, s: seq<int>, i: nat)
    requires IsEdgeRing(eNext, r) && 0 < k < |r|
    requires Mate(r[k]) < |eNext| && PairUnlinked(eNext, r[k], s)
    requires i < |r| - 1
    ensures var r' := RemoveAt(r, k);
      s[r'[i]] == if i == |r'| - 1 then 0 else r'[i + 1]
  {
    var n := |r|;
    var r' := RemoveAt(r, k);
    EdgeRingAt(eNext, r, k);
    EdgeRingAt(eNext, r, k - 1);
    var j := if i < k then i else i + 1;
    assert r'[i] == r[j];
    EdgeRingAt(eNext, r, j);
    if j == k - 1 {
      // the pair before the removed one now links past it
      if k < n - 1 {
        assert r'[i + 1] == r[k + 1];
      }
    } else {
      DistinctApart(r, j, k - 1);
      assert s[r[j]] == eNext[r[j]];
      if i < |r'| - 1 {
        assert r'[i + 1] == if j + 1 < k then r[j + 1] else r[j + 1];
      }
    }
  }

  /** One backward link after the unlink; at the head it names the last. */
  lemma UnlinkPairPrevAt(eNext: seq<int>, r: seq<int>, k: nat, s: seq<int>, i: nat)
    requires IsEdgeRing(eNext, r) && 0 < k < |r|
    requires Mate(r[k]) < |eNext| && PairUnlinked(eNext, r[k], s)
    requires i < |r| - 1
    ensures var r' := RemoveAt(r, k);
      s[Mate(r'[i])] == Mate(if i == 0 then r'[|r'| - 1] else r'[i - 1])
  {
    var n := |r|;
    var r' := RemoveAt(r, k);
    EdgeRingAt(eNext, r, k);
    EdgeRingAt(eNext, r, k - 1);
    var j := if i < k then i else i + 1;
    assert r'[i] == r[j];
    EdgeRingAt(eNext, r, j);
    var after := if k == n - 1 then 0 else r[k + 1];
    if j == k + 1 || (k == n - 1 && j == 0) {
      // the pair after the removed one now links back past it
      assert r[j] == after;
      if i == 0 {
        assert r'[|r'| - 1] == r[k - 1];
      } else {
        assert r'[i - 1] == r[k - 1];
      }
    } else {
      if k < n - 1 {
        DistinctApart(r, j, k + 1);
      } else {
        DistinctApart(r, j, 0);
      }
      assert s[Mate(r[j])] == eNext[Mate(r[j])];
      if i == 0 {
        assert r'[|r'| - 1] == r[n - 1];
      } else {
        assert r'[i - 1] == r[j - 1];
      }
    }
  }

  /** The four link assignments of makeVertex and makeFace on a list with a
      fresh default slot x are `LinkBefore`. */
  lemma LinkBeforeSteps(next: seq<int>, prev: seq<int>, x: int, at: int)
    requires |next| == |prev| && x == |next| && 0 <= at < |next| && 0 <= prev[at] < |next|
    ensures var n := next + [NIL]; var p := prev + [NIL]; var b := p[at];
      (n[b := x][x := at], p[x := b][at := x]) == LinkBefore(next, prev, x, at)
  {
    var n := next + [NIL];
    var p := prev + [NIL];
    var b := p[at];
    assert n[b := x][x := at] == (next + [at])[b := x];
    assert p[x := b][at := x] == (prev + [b])[at := x];
  }

  // ---------------------------------------------------------------------------
  // The loop walks of makeVertex, makeFace, killVertex and killFace

  /** Walks the cycle of `succ` from `start`, setting `tab` to `to` at each
      element (the `repeat ... while e != eStart` loops). */
  method Relabel(tab: seq<int>, succ: seq<int>, start: int, to: int, ghost c: seq<int>)
    returns (tab': seq<int>)
    requires |tab| == |succ| && IsCycle(succ, c) && c[0] == start
    ensures |tab'| == |tab|
    ensures forall z :: 0 <= z < |tab| ==> tab'[z] == if z in c then to else tab[z]
  {
    tab' := tab;
    var e := start;
    ghost var i := 0;
    while true
      invariant 0 <= i < |c| && e == c[i]
      invariant |tab'| == |tab|
      invariant forall z :: 0 <= z < |tab| ==> tab'[z] == if z in c[..i] then to else tab[z]
      decreases |c| - i
    {
      assert c[..i + 1] == c[..i] + [c[i]];
      tab' := tab'[e := to];
      e := succ[e];
      if e == start {
        if i < |c| - 1 {
          DistinctApart(c, 0, i + 1);
        }
        assert c[..i + 1] == c;
        return;
      }
      i := i + 1;
    }
  }

  // ---------------------------------------------------------------------------
  // Creation

  /** createEdgePair: two fresh half-edge slots forming one pair. */
  method CreateEdgePair(m: Mesh) returns (m': Mesh, e: int, eSym: int)
    requires Shaped(m)
    ensures Shaped(m') && e == |m.eNext| && e % 2 == 0
    ensures e != eSym && Sym(e) == eSym && Sym(eSym) == e && First(e) == First(eSym) == e
    ensures m' == m.(eNext := m.eNext + [NIL, NIL], onext := m.onext + [NIL, NIL],
                     lnext := m.lnext + [NIL, NIL], org := m.org + [NIL, NIL],
                     lface := m.lface + [NIL, NIL], winding := m.winding + [0, 0])
  {
    e := |m.eNext|;
    eSym := e + 1;
    m' := m.(eNext := m.eNext + [NIL, NIL], onext := m.onext + [NIL, NIL],
             lnext := m.lnext + [NIL, NIL], org := m.org + [NIL, NIL],
             lface := m.lface + [NIL, NIL], winding := m.winding + [0, 0]);
  }

  /** MakeEdge(eNext): a fresh pair forming its own loop, linked into the
      edge list just before the first half of eNext's pair. */
  method MakeEdge(m: Mesh, eNext: int, ghost r: seq<int>) returns (m': Mesh, e: int)
    requires Shaped(m) && IsEdgeRing(m.eNext, r) && 0 <= eNext < |m.eNext| && First(eNext) in r
    ensures Shaped(m') && e == |m.eNext| && Sym(e) == e + 1 && Sym(e + 1) == e
    ensures IsEdgeRing(m'.eNext, InsertAt(r, IndexOf(r, First(eNext)), e))
    ensures m'.onext == m.onext + [e, e + 1] && m'.lnext == m.lnext + [e + 1, e]
    ensures m'.org == m.org + [NIL, NIL] && m'.lface == m.lface + [NIL, NIL]
    ensures m'.winding == m.winding + [0, 0]
    ensures m' == m.(eNext := m'.eNext, onext := m'.onext, lnext := m'.lnext, org := m'.org,
                     lface := m'.lface, winding := m'.winding)
  {
    var m1, e0, eSym := CreateEdgePair(m);
    e := e0;
    var at := First(eNext);
    ghost var k := IndexOf(r, at);
    EdgeRingAt(m.eNext, r, k);
    EdgeRingAt(m.eNext, r, if k == 0 then |r| - 1 else k - 1);
    LinkStepsArePairLinked(m.eNext, at, if k == 0 then r[|r| - 1] else r[k - 1]);
    // insert in the circular list before `at`; the prev link is in the Sym half
    var ePrev := m1.eNext[Sym(at)];
    var next := m1.eNext[eSym := ePrev];
    next := next[Sym(ePrev) := e];
    next := next[e := at];
    next := next[Sym(at) := eSym];
    LinkPairBeforeIsRing(m.eNext, r, k, next);
    // each half forms its own Onext loop, is the other's Lnext, and has no
    // origin, face or winding yet; the slots were appended by CreateEdgePair
    m' := m1.(eNext := next,
              onext := m.onext + [e, eSym], lnext := m.lnext + [eSym, e],
              org := m.org + [NIL, NIL], lface := m.lface + [NIL, NIL],
              winding := m.winding + [0, 0]);
  }

  /** makeVertex(eOrig, vNext): a fresh vertex, linked in just before vNext,
      becomes the origin of every half-edge of eOrig's Onext loop. */
  method MakeVertex(m: Mesh, eOrig: int, vNext: int, ghost c: seq<int>, ghost r: seq<int>)
    returns (m': Mesh, vNew: int)
    requires Shaped(m) && IsRing(m.vNext, m.vPrev, r) && vNext in r
    requires IsCycle(m.onext, c) && c[0] == eOrig
    ensures Shaped(m') && vNew == |m.vNext| && vNew != 0
    ensures IsRing(m'.vNext, m'.vPrev, InsertAt(r, IndexOf(r, vNext), vNew))
    ensures m'.vEdge == m.vEdge + [eOrig]
    ensures |m'.org| == |m.org|
    ensures forall z :: 0 <= z < |m.org| ==> m'.org[z] == if z in c then vNew else m.org[z]
    ensures m' == m.(vNext := m'.vNext, vPrev := m'.vPrev, vEdge := m'.vEdge,
                     vS := m.vS + [0.0], vT := m.vT + [0.0], org := m'.org)
  {
    vNew := |m.vNext|;
    ghost var k := IndexOf(r, vNext);
    LinkBeforeIsRing(m.vNext, m.vPrev, r, k);
    // createVertex: a default record
    var next := m.vNext + [NIL];
    var prev := m.vPrev + [NIL];
    var vPrev := prev[vNext];
    prev := prev[vNew := vPrev];
    next := next[vPrev := vNew];
    next := next[vNew := vNext];
    prev := prev[vNext := vNew];
    LinkBeforeSteps(m.vNext, m.vPrev, vNew, vNext);
    var org := Relabel(m.org, m.onext, eOrig, vNew, c);
    m' := m.(vNext := next, vPrev := prev, vEdge := (m.vEdge + [NIL])[vNew := eOrig],
             vS := m.vS + [0.0], vT := m.vT + [0.0], org := org);
    assert m'.vEdge == m.vEdge + [eOrig];
  }

  /** makeFace(eOrig, fNext): a fresh face, linked in just before fNext,
      becomes the left face of every half-edge of eOrig's Lnext loop; it is
      unmarked and copies fNext's `inside`. */
  method MakeFace(m: Mesh, eOrig: int, fNext: int, ghost c: seq<int>, ghost r: seq<int>)
    returns (m': Mesh, fNew: int)
    requires Shaped(m) && IsRing(m.fNext, m.fPrev, r) && fNext in r
    requires IsCycle(m.lnext, c) && c[0] == eOrig
    ensures Shaped(m') && fNew == |m.fNext| && fNew != 0
    ensures IsRing(m'.fNext, m'.fPrev, InsertAt(r, IndexOf(r, fNext), fNew))
    ensures m'.fEdge == m.fEdge + [eOrig]
    ensures 0 <= fNext < |m.fNext| && m'.fInside == m.fInside + [m.fInside[fNext]]
    ensures m'.fMarked == m.fMarked + [false]
    ensures |m'.lface| == |m.lface|
    ensures forall z :: 0 <= z < |m.lface| ==> m'.lface[z] == if z in c then fNew else m.lface[z]
    ensures m' == m.(fNext := m'.fNext, fPrev := m'.fPrev, fEdge := m'.fEdge,
                     fInside := m'.fInside, fMarked := m'.fMarked, lface := m'.lface)
  {
    fNew := |m.fNext|;
    ghost var k := IndexOf(r, fNext);
    LinkBeforeIsRing(m.fNext, m.fPrev, r, k);
    var next := m.fNext + [NIL];
    var prev := m.fPrev + [NIL];
    var fPrev := prev[fNext];
    prev := prev[fNew := fPrev];
    next := next[fPrev := fNew];
    next := next[fNew := fNext];
    prev := prev[fNext := fNew];
    LinkBeforeSteps(m.fNext, m.fPrev, fNew, fNext);
    var lface := Relabel(m.lface, m.lnext, eOrig, fNew, c);
    m' := m.(fNext := next, fPrev := prev, fEdge := (m.fEdge + [NIL])[fNew := eOrig],
             fInside := (m.fInside + [false])[fNew := m.fInside[fNext]],
             fMarked := (m.fMarked + [false])[fNew := false], lface := lface);
    assert m'.fEdge == m.fEdge + [eOrig];
    assert m'.fInside == m.fInside + [m.fInside[fNext]];
  }

  // ---------------------------------------------------------------------------
  // Destruction

  /** killEdge(eDel): eDel's pair leaves the edge list; the order of the
      others is kept. */
  method KillEdge(m: Mesh, eDel: int, ghost r: seq<int>) returns (m': Mesh)
    requires Shaped(m) && IsEdgeRing(m.eNext, r) && 0 <= eDel < |m.eNext|
    requires First(eDel) in r && First(eDel) != 0
    ensures Shaped(m') && m' == m.(eNext := m'.eNext)
    ensures IsEdgeRing(m'.eNext, RemoveAt(r, IndexOf(r, First(eDel))))
  {
    var d := First(eDel);
    ghost var k := IndexOf(r, d);
    EdgeRingAt(m.eNext, r, k);
    EdgeRingAt(m.eNext, r, k - 1);
    EdgeRingAt(m.eNext, r, if k == |r| - 1 then 0 else k + 1);
    UnlinkStepsArePairUnlinked(m.eNext, d, r[k - 1]);
    var eN := m.eNext[d];
    var ePrev := m.eNext[Sym(d)];
    var next := m.eNext[Sym(eN) := ePrev];
    next := next[Sym(ePrev) := eN];
    UnlinkPairIsRing(m.eNext, r, k, next);
    m' := m.(eNext := next);
  }

  /** killVertex(vDel, newOrg): every half-edge of vDel's Onext loop gets
      origin newOrg, and vDel leaves the vertex list. */
  method KillVertex(m: Mesh, vDel: int, newOrg: int, ghost c: seq<int>, ghost r: seq<int>)
    returns (m': Mesh)
    requires Shaped(m) && IsRing(m.vNext, m.vPrev, r) && vDel in r && vDel != 0
    requires 0 <= vDel < |m.vEdge| && IsCycle(m.onext, c) && c[0] == m.vEdge[vDel]
    ensures Shaped(m') && m' == m.(vNext := m'.vNext, vPrev := m'.vPrev, org := m'.org)
    ensures IsRing(m'.vNext, m'.vPrev, RemoveAt(r, IndexOf(r, vDel)))
    ensures |m'.org| == |m.org|
    ensures forall z :: 0 <= z < |m.org| ==> m'.org[z] == if z in c then newOrg else m.org[z]
  {
    var org := Relabel(m.org, m.onext, m.vEdge[vDel], newOrg, c);
    ghost var k := IndexOf(r, vDel);
    UnlinkIsRing(m.vNext, m.vPrev, r, k);
    var vPrev := m.vPrev[vDel];
    var vNext := m.vNext[vDel];
    m' := m.(vNext := m.vNext[vPrev := vNext], vPrev := m.vPrev[vNext := vPrev], org := org);
  }

  /** killFace(fDel, newLFace): every half-edge of fDel's Lnext loop gets
      left face newLFace, and fDel leaves the face list. */
  method KillFace(m: Mesh, fDel: int, newLFace: int, ghost c: seq<int>, ghost r: seq<int>)
    returns (m': Mesh)
    requires Shaped(m) && IsRing(m.fNext, m.fPrev, r) && fDel in r && fDel != 0
    requires 0 <= fDel < |m.fEdge| && IsCycle(m.lnext, c) && c[0] == m.fEdge[fDel]
    ensures Shaped(m') && m' == m.(fNext := m'.fNext, fPrev := m'.fPrev, lface := m'.lface)
    ensures IsRing(m'.fNext, m'.fPrev, RemoveAt(r, IndexOf(r, fDel)))
    ensures |m'.lface| == |m.lface|
    ensures forall z :: 0 <= z < |m.lface| ==> m'.lface[z] == if z in c then newLFace else m.lface[z]
  {
    var lface := Relabel(m.lface, m.lnext, m.fEdge[fDel], newLFace, c);
    ghost var k := IndexOf(r, fDel);
    UnlinkIsRing(m.fNext, m.fPrev, r, k);
    var fPrev := m.fPrev[fDel];
    var fNext := m.fNext[fDel];
    m' := m.(fNext := m.fNext[fPrev := fNext], fPrev := m.fPrev[fNext := fPrev], lface := lface);
  }
}
