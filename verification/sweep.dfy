/**
  The bookkeeping of the sweep (Sweep.swift): the order of the active
  regions, their winding numbers, what happens to a region when it is
  finished, the decisions `checkForIntersect` takes before it touches the
  mesh, the interpolation weights of a new intersection vertex, the merging
  of coincident events and the state the dictionary must be left in.

  The sweep itself (`sweepEvent` and the routines it calls) is not modelled;
  each piece here is stated for the inputs the sweep hands it.
*/
module Sweep {
  import opened Wrappers
  import opened Orders
  import opened Cycles
  import opened Geom
  import opened MeshUtils
  import Labels
  import MO = Mesh
  import D = Dict
  import PQ = PriorityQueue

  // ---------------------------------------------------------------------------
  // The edge order (edgeLeq)

  /** A vertex as the sweep compares it: its handle, compared by identity,
      and its projected position. */
  datatype End = End(id: int, p: Pt)

  /** The upper edge of a region, directed from right (org) to left (dst). */
  datatype Seg = Seg(org: End, dst: End)

  /** e crosses the sweep line at ev: its destination is at or left of the
      event and its origin at or right of it; a destination that is the event
      vertex itself sits at the event's position. */
  predicate Spans(ev: End, e: Seg) {
    && VertLeq(e.dst.p, ev.p) && VertLeq(ev.p, e.org.p)
    && (e.dst.id == ev.id ==> e.dst.p == ev.p)
  }

  /** edgeLeq(reg1, reg2) on the upper edges of the two regions, with the
      current event ev. */
  function EdgeLeq(ev: End, e1: Seg, e2: Seg): bool
    requires Spans(ev, e1) && Spans(ev, e2)
  {
    if e1.dst.id == ev.id then
      if e2.dst.id == ev.id then
        // both edges meet at the event: by slope
        if VertLeq(e1.org.p, e2.org.p) then EdgeSign(e2.dst.p, e1.org.p, e2.org.p) <= 0.0
        else EdgeSign(e1.dst.p, e2.org.p, e1.org.p) >= 0.0
      else EdgeSign(e2.dst.p, ev.p, e2.org.p) <= 0.0
    else if e2.dst.id == ev.id then
      EdgeSign(e1.dst.p, ev.p, e1.org.p) >= 0.0
    else
      EdgeEval(e1.dst.p, ev.p, e1.org.p) >= EdgeEval(e2.dst.p, ev.p, e2.org.p)
  }

  /** The t at which e crosses the sweep line through ev. */
  function Height(ev: End, e: Seg): (h: real)
    requires Spans(ev, e)
    ensures Between(h, e.dst.p.t, e.org.p.t)
    ensures e.dst.p.s < e.org.p.s ==> h == LineT(e.dst.p, e.org.p, ev.p.s)
    ensures e.dst.id == ev.id ==> h == ev.p.t
  {
    EdgeEvalInRange(e.dst.p, ev.p, e.org.p);
    EdgeEvalIsDistance(e.dst.p, ev.p, e.org.p);
    ev.p.t - EdgeEval(e.dst.p, ev.p, e.org.p)
  }

  /** Unless both edges end at the event, edgeLeq puts the edge that crosses
      the sweep line lower first: e1 <= e2 exactly when e1's height at the
      event is at most e2's. */
  lemma EdgeLeqByHeight(ev: End, e1: Seg, e2: Seg)
    requires Spans(ev, e1) && Spans(ev, e2)
    requires e1.dst.id != ev.id || e2.dst.id != ev.id
    ensures EdgeLeq(ev, e1, e2) <==> Height(ev, e1) <= Height(ev, e2)
  {
    EdgeSignScalesEval(e1.dst.p, ev.p, e1.org.p);
    EdgeSignScalesEval(e2.dst.p, ev.p, e2.org.p);
  }

  /** Two edges that both end at the event, with origins strictly right of
      it, are ordered by slope: the lower-sloped edge first. */
  lemma EdgeLeqBySlope(ev: End, e1: Seg, e2: Seg)
    requires Spans(ev, e1) && Spans(ev, e2)
    requires e1.dst.id == ev.id && e2.dst.id == ev.id
    requires ev.p.s < e1.org.p.s && ev.p.s < e2.org.p.s
    ensures EdgeLeq(ev, e1, e2) <==>
      (e1.org.p.t - ev.p.t) * (e2.org.p.s - ev.p.s) <= (e2.org.p.t - ev.p.t) * (e1.org.p.s - ev.p.s)
  {
    var u, a, b := ev.p, e1.org.p, e2.org.p;
    var x1, y1, x2, y2 := a.s - u.s, a.t - u.t, b.s - u.s, b.t - u.t;
    if VertLeq(a, b) {
      SignAsCross(u, a, b);
      assert EdgeSign(u, a, b) == y1 * x2 - y2 * x1;
    } else {
      SignAsCross(u, b, a);
      assert EdgeSign(u, b, a) == y2 * x1 - y1 * x2;
    }
  }

  /** edgeSign(u, v, w), for v and w right of u, is the cross product of
      v − u and w − u up to sign. */
  lemma SignAsCross(u: Pt, v: Pt, w: Pt)
    requires VertLeq(u, v) && VertLeq(v, w) && u.s < v.s
    ensures EdgeSign(u, v, w) == (v.t - u.t) * (w.s - u.s) - (w.t - u.t) * (v.s - u.s)
  {
    var gapL, gapR := v.s - u.s, w.s - v.s;
    calc {
      EdgeSign(u, v, w);
      (v.t - w.t) * gapL + (v.t - u.t) * gapR;
      { assert w.s - u.s == gapL + gapR; }
      (v.t - u.t) * (w.s - u.s) - (w.t - u.t) * (v.s - u.s);
    }
  }

  /** edgeLeq compares every pair of edges crossing the sweep line one way or
      the other, and each edge with itself. */
  lemma EdgeLeqTotal(ev: End, e1: Seg, e2: Seg)
    requires Spans(ev, e1) && Spans(ev, e2)
    ensures EdgeLeq(ev, e1, e2) || EdgeLeq(ev, e2, e1)
    ensures EdgeLeq(ev, e1, e1)
  {
    if e1.dst.id != ev.id || e2.dst.id != ev.id {
      EdgeLeqByHeight(ev, e1, e2);
      EdgeLeqByHeight(ev, e2, e1);
    }
    if e1.dst.id != ev.id {
      EdgeLeqByHeight(ev, e1, e1);
    }
  }

  // ---------------------------------------------------------------------------
  // Winding numbers (computeWinding, addRightEdges)

  /** The winding number of a region and whether it is inside. */
  datatype Band = Band(windingNumber: int, inside: bool)

  /** computeWinding: the winding number is the one of the region above plus
      the winding of the region's upper edge. */
  function ComputeWinding(rule: WindingRule, aboveWinding: int, eUpWinding: int): (b: Band)
    ensures b.inside == IsWindingInside(rule, b.windingNumber)
  {
    var n := aboveWinding + eUpWinding;
    Band(n, IsWindingInside(rule, n))
  }

  function Sum(ws: seq<int>): int {
    if ws == [] then 0 else ws[0] + Sum(ws[1..])
  }

  /** addRightEdges: walking down the new regions below regUp (winding
      number `top`), each takes the winding number of the region above it
      minus the winding of e = eUp.Sym; `symWindings` lists those e. */
  function FanWindings(rule: WindingRule, top: int, symWindings: seq<int>): (bs: seq<Band>)
    ensures |bs| == |symWindings|
    ensures forall i :: 0 <= i < |bs| ==> bs[i].windingNumber == top - Sum(symWindings[..i + 1])
    ensures forall i :: 0 <= i < |bs| ==> bs[i].inside == IsWindingInside(rule, bs[i].windingNumber)
    decreases |symWindings|
  {
    if symWindings == [] then []
    else
      var n := top - symWindings[0];
      var rest := FanWindings(rule, n, symWindings[1..]);
      assert symWindings[..1] == [symWindings[0]];
      assert forall i :: 0 < i <= |rest| ==>
        Sum(symWindings[..i + 1]) == symWindings[0] + Sum(symWindings[1..][..i]) by {
        forall i | 0 < i <= |rest|
          ensures Sum(symWindings[..i + 1]) == symWindings[0] + Sum(symWindings[1..][..i])
        {
          assert symWindings[..i + 1][1..] == symWindings[1..][..i];
        }
      }
      [Band(n, IsWindingInside(rule, n))] + rest
  }

  /** The two recurrences agree: when the windings of the i-th edge pair
      cancel (as every mesh operation keeps them), computeWinding on the i-th
      region of the fan, from the region above it, gives the number
      addRightEdges set; for the last region this is what addRightEdges
      asserts on exit. */
  lemma FanAgreesWithComputeWinding(rule: WindingRule, top: int, symWindings: seq<int>,
                                    upWindings: seq<int>, i: nat)
    requires |upWindings| == |symWindings| && i < |symWindings|
    requires upWindings[i] + symWindings[i] == 0
    ensures var bs := FanWindings(rule, top, symWindings);
      bs[i] == ComputeWinding(rule, if i == 0 then top else bs[i - 1].windingNumber, upWindings[i])
  {
    var bs := FanWindings(rule, top, symWindings);
    var above := if i == 0 then top else bs[i - 1].windingNumber;
    if i > 0 {
      SumSnoc(symWindings[..i], symWindings[i]);
      assert symWindings[..i + 1] == symWindings[..i] + [symWindings[i]];
      assert symWindings[..i] == symWindings[..(i - 1) + 1];
      assert above == top - Sum(symWindings[..i]);
    } else {
      assert symWindings[..1] == [symWindings[0]];
    }
    assert bs[i].windingNumber == above + upWindings[i];
  }

  lemma {:induction false} SumSnoc(ws: seq<int>, w: int)
    ensures Sum(ws + [w]) == Sum(ws) + w
  {
    if ws != [] {
      assert (ws + [w])[1..] == ws[1..] + [w];
      SumSnoc(ws[1..], w);
    }
  }

  // ---------------------------------------------------------------------------
  // checkForIntersect, up to the first change of the mesh

  /** How checkForIntersect's tests come out: three early returns, an
      intersection at one of the right endpoints (handed to
      checkForRightSplice), or a proper crossing at p. */
  datatype IsectOutcome = SameOrigin | NoOverlap | NoCrossing | AtOrigin(p: Pt) | Crossing(p: Pt)

  /** The assertions checkForIntersect opens with, on the upper edge up and
      the lower edge lo of a region at event ev. */
  predicate IsectReady(ev: End, up: Seg, lo: Seg) {
    && Spans(ev, up) && Spans(ev, lo)
    && !VertEq(lo.dst.p, up.dst.p)
    && EdgeSign(up.dst.p, ev.p, up.org.p) <= 0.0
    && EdgeSign(lo.dst.p, ev.p, lo.org.p) >= 0.0
    && up.org.id != ev.id && lo.org.id != ev.id
  }

  function Min(a: real, b: real): real { if a <= b then a else b }
  function Max(a: real, b: real): real { if a >= b then a else b }

  /** The vertLeq-smaller of the two origins. */
  function OrgMin(up: Seg, lo: Seg): Pt {
    if VertLeq(up.org.p, lo.org.p) then up.org.p else lo.org.p
  }

  /** The intersection moved right of the sweep event and left of the
      leftmost origin. */
  function ClampIsect(ev: Pt, isect: Pt, orgMin: Pt): (c: Pt)
    requires VertLeq(ev, orgMin)
    ensures VertLeq(ev, c) && VertLeq(c, orgMin)
    ensures VertLeq(ev, isect) && VertLeq(isect, orgMin) ==> c == isect || VertEq(c, isect)
  {
    var c1 := if VertLeq(isect, ev) then ev else isect;
    if VertLeq(orgMin, c1) then orgMin else c1
  }

  /** checkForIntersect's decisions: which early return it takes, and
      otherwise the clamped intersection point and whether it lies at a
      right endpoint. */
  function CheckForIntersect(ev: End, up: Seg, lo: Seg): (r: IsectOutcome)
    requires IsectReady(ev, up, lo)
    ensures r == SameOrigin <==> up.org.id == lo.org.id
    ensures r == NoOverlap <==>
      up.org.id != lo.org.id && Min(up.org.p.t, up.dst.p.t) > Max(lo.org.p.t, lo.dst.p.t)
    ensures r == NoCrossing <==>
      && up.org.id != lo.org.id && Min(up.org.p.t, up.dst.p.t) <= Max(lo.org.p.t, lo.dst.p.t)
      && if VertLeq(up.org.p, lo.org.p) then EdgeSign(lo.dst.p, up.org.p, lo.org.p) > 0.0
         else EdgeSign(up.dst.p, lo.org.p, up.org.p) < 0.0
    ensures (r.AtOrigin? || r.Crossing?) ==>
      VertLeq(ev.p, r.p) && VertLeq(r.p, OrgMin(up, lo))
    ensures r.AtOrigin? <==> (r.AtOrigin? || r.Crossing?) && (VertEq(r.p, up.org.p) || VertEq(r.p, lo.org.p))
  {
    if up.org.id == lo.org.id then SameOrigin
    else if Min(up.org.p.t, up.dst.p.t) > Max(lo.org.p.t, lo.dst.p.t) then NoOverlap
    else if VertLeq(up.org.p, lo.org.p) && EdgeSign(lo.dst.p, up.org.p, lo.org.p) > 0.0 then NoCrossing
    else if !VertLeq(up.org.p, lo.org.p) && EdgeSign(up.dst.p, lo.org.p, up.org.p) < 0.0 then NoCrossing
    else
      var isect := EdgeIntersect(up.dst.p, up.org.p, lo.dst.p, lo.org.p);
      var c := ClampIsect(ev.p, isect, OrgMin(up, lo));
      if VertEq(c, up.org.p) || VertEq(c, lo.org.p) then AtOrigin(c) else Crossing(c)
  }

  /** The orientation early return: the origin that is further left lies
      strictly on the far side of the other edge (above the lower edge, or
      below the upper edge), so the edges cannot cross right of it. */
  lemma NoCrossingMeaning(ev: End, up: Seg, lo: Seg)
    requires IsectReady(ev, up, lo) && CheckForIntersect(ev, up, lo) == NoCrossing
    ensures VertLeq(up.org.p, lo.org.p) ==>
      up.org.p.t > up.org.p.t - EdgeEval(lo.dst.p, up.org.p, lo.org.p)
    ensures !VertLeq(up.org.p, lo.org.p) ==>
      lo.org.p.t < lo.org.p.t - EdgeEval(up.dst.p, lo.org.p, up.org.p)
  {
    if VertLeq(up.org.p, lo.org.p) {
      EdgeSignScalesEval(lo.dst.p, up.org.p, lo.org.p);
    } else {
      EdgeSignScalesEval(up.dst.p, lo.org.p, up.org.p);
    }
  }

  /** The properties checkForIntersect asserts of the raw intersection: its
      t is within the overlap of the two t ranges and its s between the
      leftmost destination and the rightmost origin. */
  lemma IntersectBounds(ev: End, up: Seg, lo: Seg)
    requires IsectReady(ev, up, lo) && up.org.id != lo.org.id
    requires Min(up.org.p.t, up.dst.p.t) <= Max(lo.org.p.t, lo.dst.p.t)
    ensures var v := EdgeIntersect(up.dst.p, up.org.p, lo.dst.p, lo.org.p);
      && Min(up.org.p.t, up.dst.p.t) <= v.t <= Max(lo.org.p.t, lo.dst.p.t)
      && Min(lo.dst.p.s, up.dst.p.s) <= v.s <= Max(lo.org.p.s, up.org.p.s)
  {
    EdgeIntersectIsMedian(up.dst.p, up.org.p, lo.dst.p, lo.org.p);
  }

  // ---------------------------------------------------------------------------
  // Interpolation weights (vertexWeights, getIntersectData)

  /** vertexWeights: the edge's half of the weight, split between org and dst
      in inverse proportion to their L1 distances from isect. The source
      divides by t1 + t2, so that sum must not be 0. */
  function VertexWeights(isect: Pt, org: Pt, dst: Pt): (w: (real, real))
    requires VertL1Dist(org, isect) + VertL1Dist(dst, isect) > 0.0
    ensures 0.0 <= w.0 && 0.0 <= w.1 && w.0 + w.1 == 0.5
    ensures w.0 * VertL1Dist(org, isect) == w.1 * VertL1Dist(dst, isect)
  {
    var t1 := VertL1Dist(org, isect);
    var t2 := VertL1Dist(dst, isect);
    var w0 := (t2 / (t1 + t2)) / 2.0;
    var w1 := (t1 / (t1 + t2)) / 2.0;
    WeightFacts(t1, t2);
    (w0, w1)
  }

  lemma WeightFacts(t1: real, t2: real)
    requires 0.0 <= t1 && 0.0 <= t2 && t1 + t2 > 0.0
    ensures var w0 := (t2 / (t1 + t2)) / 2.0; var w1 := (t1 / (t1 + t2)) / 2.0;
      0.0 <= w0 && 0.0 <= w1 && w0 + w1 == 0.5 && w0 * t1 == w1 * t2
  {
    var d := t1 + t2;
    DivSum(t2, t1, d);
    assert (t2 + t1) / d == 1.0;
    DivSwap(t2, t1, d);
  }

  lemma DivSum(x: real, y: real, d: real)
    requires d != 0.0
    ensures x / d + y / d == (x + y) / d
  {
  }

  lemma DivSwap(x: real, y: real, d: real)
    requires d != 0.0
    ensures (x / d) / 2.0 * y == (y / d) / 2.0 * x
  {
    assert (x / d) * y == (x * y) / d;
    assert (y / d) * x == (y * x) / d;
  }

  /** The only a with a·t1 == (1/2 − a)·t2. */
  lemma SolveWeight(a: real, t1: real, t2: real)
    requires t1 + t2 != 0.0 && a * t1 == (0.5 - a) * t2
    ensures a == (t2 / (t1 + t2)) / 2.0
  {
    assert (0.5 - a) * t2 == 0.5 * t2 - a * t2;
    assert a * (t1 + t2) == a * t1 + a * t2 == 0.5 * t2;
  }

  /** The weights are the only pair that sums to one half and weighs each
      endpoint in inverse proportion to its distance. */
  lemma WeightsUnique(isect: Pt, org: Pt, dst: Pt, a: real, b: real)
    requires VertL1Dist(org, isect) + VertL1Dist(dst, isect) > 0.0
    requires a + b == 0.5 && a * VertL1Dist(org, isect) == b * VertL1Dist(dst, isect)
    ensures (a, b) == VertexWeights(isect, org, dst)
  {
    var t1 := VertL1Dist(org, isect);
    var t2 := VertL1Dist(dst, isect);
    assert b == 0.5 - a;
    SolveWeight(a, t1, t2);
  }

  /** A vertex of the intersection: position and coordinates. */
  datatype Corner = Corner(p: Pt, coords: Vector3)

  function Scale(k: real, v: Vector3): Vector3 { Vector3(k * v.x, k * v.y, k * v.z) }
  function Add(a: Vector3, b: Vector3): Vector3 { Vector3(a.x + b.x, a.y + b.y, a.z + b.z) }

  /** getIntersectData: the intersection's coordinates start at zero and each
      edge adds its endpoints weighted by vertexWeights; the four weights
      are what the combine callback receives. */
  function GetIntersectData(isect: Pt, orgUp: Corner, dstUp: Corner, orgLo: Corner, dstLo: Corner)
    : (r: (Vector3, seq<real>))
    requires VertL1Dist(orgUp.p, isect) + VertL1Dist(dstUp.p, isect) > 0.0
    requires VertL1Dist(orgLo.p, isect) + VertL1Dist(dstLo.p, isect) > 0.0
    ensures |r.1| == 4 && (forall i :: 0 <= i < 4 ==> r.1[i] >= 0.0)
    ensures r.1[0] + r.1[1] + r.1[2] + r.1[3] == 1.0
  {
    var (w0, w1) := VertexWeights(isect, orgUp.p, dstUp.p);
    var (w2, w3) := VertexWeights(isect, orgLo.p, dstLo.p);
    var c := Vector3(0.0, 0.0, 0.0);
    var c := Add(c, Add(Scale(w0, orgUp.coords), Scale(w1, dstUp.coords)));
    var c := Add(c, Add(Scale(w2, orgLo.coords), Scale(w3, dstLo.coords)));
    (c, [w0, w1, w2, w3])
  }

  /** Each coordinate of the intersection is the weighted sum of the
      endpoints' coordinates. */
  lemma IntersectDataIsMix(isect: Pt, orgUp: Corner, dstUp: Corner, orgLo: Corner, dstLo: Corner)
    requires VertL1Dist(orgUp.p, isect) + VertL1Dist(dstUp.p, isect) > 0.0
    requires VertL1Dist(orgLo.p, isect) + VertL1Dist(dstLo.p, isect) > 0.0
    ensures var r := GetIntersectData(isect, orgUp, dstUp, orgLo, dstLo); var w := r.1;
      && r.0.x == w[0] * orgUp.coords.x + w[1] * dstUp.coords.x + w[2] * orgLo.coords.x + w[3] * dstLo.coords.x
      && r.0.y == w[0] * orgUp.coords.y + w[1] * dstUp.coords.y + w[2] * orgLo.coords.y + w[3] * dstLo.coords.y
      && r.0.z == w[0] * orgUp.coords.z + w[1] * dstUp.coords.z + w[2] * orgLo.coords.z + w[3] * dstLo.coords.z
  {
  }

  lemma ScaledLe(w: real, x: real, y: real)
    requires 0.0 <= w && x <= y
    ensures w * x <= w * y
  {
  }

  /** A mix of four values with non-negative weights summing to 1 stays
      within any range holding all four. */
  lemma MixInRange(x0: real, x1: real, x2: real, x3: real,
                   w0: real, w1: real, w2: real, w3: real, lo: real, hi: real)
    requires 0.0 <= w0 && 0.0 <= w1 && 0.0 <= w2 && 0.0 <= w3 && w0 + w1 + w2 + w3 == 1.0
    requires lo <= x0 <= hi && lo <= x1 <= hi && lo <= x2 <= hi && lo <= x3 <= hi
    ensures lo <= w0 * x0 + w1 * x1 + w2 * x2 + w3 * x3 <= hi
  {
    MixAbove(x0, x1, x2, x3, w0, w1, w2, w3, lo);
    MixBelow(x0, x1, x2, x3, w0, w1, w2, w3, hi);
  }

  lemma MixAbove(x0: real, x1: real, x2: real, x3: real, w0: real, w1: real, w2: real, w3: real, lo: real)
    requires 0.0 <= w0 && 0.0 <= w1 && 0.0 <= w2 && 0.0 <= w3 && w0 + w1 + w2 + w3 == 1.0
    requires lo <= x0 && lo <= x1 && lo <= x2 && lo <= x3
    ensures lo <= w0 * x0 + w1 * x1 + w2 * x2 + w3 * x3
  {
    ScaledLe(w0, lo, x0);
    ScaledLe(w1, lo, x1);
    ScaledLe(w2, lo, x2);
    ScaledLe(w3, lo, x3);
    SumOfWeights(w0, w1, w2, w3, lo);
    AddLe4(w0 * lo, w1 * lo, w2 * lo, w3 * lo, w0 * x0, w1 * x1, w2 * x2, w3 * x3);
  }

  lemma MixBelow(x0: real, x1: real, x2: real, x3: real, w0: real, w1: real, w2: real, w3: real, hi: real)
    requires 0.0 <= w0 && 0.0 <= w1 && 0.0 <= w2 && 0.0 <= w3 && w0 + w1 + w2 + w3 == 1.0
    requires x0 <= hi && x1 <= hi && x2 <= hi && x3 <= hi
    ensures w0 * x0 + w1 * x1 + w2 * x2 + w3 * x3 <= hi
  {
    ScaledLe(w0, x0, hi);
    ScaledLe(w1, x1, hi);
    ScaledLe(w2, x2, hi);
    ScaledLe(w3, x3, hi);
    SumOfWeights(w0, w1, w2, w3, hi);
    AddLe4(w0 * x0, w1 * x1, w2 * x2, w3 * x3, w0 * hi, w1 * hi, w2 * hi, w3 * hi);
  }

  lemma SumOfWeights(w0: real, w1: real, w2: real, w3: real, x: real)
    requires w0 + w1 + w2 + w3 == 1.0
    ensures w0 * x + w1 * x + w2 * x + w3 * x == x
  {
    assert w0 * x + w1 * x + w2 * x + w3 * x == (w0 + w1 + w2 + w3) * x;
  }

  lemma AddLe4(a0: real, a1: real, a2: real, a3: real, b0: real, b1: real, b2: real, b3: real)
    requires a0 <= b0 && a1 <= b1 && a2 <= b2 && a3 <= b3
    ensures a0 + a1 + a2 + a3 <= b0 + b1 + b2 + b3
  {
  }

  /** The intersection's coordinates are a convex combination of the four
      endpoints: each coordinate lies within the range of theirs. */
  lemma IntersectCoordsInHull(isect: Pt, orgUp: Corner, dstUp: Corner, orgLo: Corner, dstLo: Corner,
                              lo: Vector3, hi: Vector3)
    requires VertL1Dist(orgUp.p, isect) + VertL1Dist(dstUp.p, isect) > 0.0
    requires VertL1Dist(orgLo.p, isect) + VertL1Dist(dstLo.p, isect) > 0.0
    requires InBox(orgUp.coords, lo, hi) && InBox(dstUp.coords, lo, hi)
    requires InBox(orgLo.coords, lo, hi) && InBox(dstLo.coords, lo, hi)
    ensures InBox(GetIntersectData(isect, orgUp, dstUp, orgLo, dstLo).0, lo, hi)
  {
    var r := GetIntersectData(isect, orgUp, dstUp, orgLo, dstLo);
    IntersectDataIsMix(isect, orgUp, dstUp, orgLo, dstLo);
    var w0, w1, w2, w3 := r.1[0], r.1[1], r.1[2], r.1[3];
    assert 0.0 <= w0 && 0.0 <= w1 && 0.0 <= w2 && 0.0 <= w3 && w0 + w1 + w2 + w3 == 1.0;
    MixInRange(orgUp.coords.x, dstUp.coords.x, orgLo.coords.x, dstLo.coords.x, w0, w1, w2, w3, lo.x, hi.x);
    MixInRange(orgUp.coords.y, dstUp.coords.y, orgLo.coords.y, dstLo.coords.y, w0, w1, w2, w3, lo.y, hi.y);
    MixInRange(orgUp.coords.z, dstUp.coords.z, orgLo.coords.z, dstLo.coords.z, w0, w1, w2, w3, lo.z, hi.z);
  }

  predicate InBox(v: Vector3, lo: Vector3, hi: Vector3) {
    lo.x <= v.x <= hi.x && lo.y <= v.y <= hi.y && lo.z <= v.z <= hi.z
  }

  // ---------------------------------------------------------------------------
  // Regions (deleteRegion, finishRegion, doneEdgeDict)

  /** An active region: its upper edge (a half-edge handle), its winding
      number and its flags. */
  datatype Region = Region(eUp: int, windingNumber: int, inside: bool, sentinel: bool,
                           dirty: bool, fixUpperEdge: bool)

  /** deleteRegion's assertion: a region whose upper edge is a temporary
      edge (fixUpperEdge) still has an upper edge of winding 0. */
  predicate FixableOk(m: Mesh, reg: Region) {
    reg.fixUpperEdge ==> 0 <= reg.eUp < |m.winding| && m.winding[reg.eUp] == 0
  }

  /** node holds a region that deleteRegion accepts. */
  predicate DeletableAt(m: Mesh, d: D.Dict<Region>, node: int) {
    0 <= node < |d.key| && d.key[node].Some? && FixableOk(m, d.key[node].value)
  }

  /** deleteRegion: the region at node leaves the dictionary; the others
      keep their order. */
  method DeleteRegion(m: Mesh, d: D.Dict<Region>, node: int, ghost r: seq<int>)
    returns (d': D.Dict<Region>, ghost r': seq<int>)
    requires D.Valid(d, r) && node in r && node != 0 && DeletableAt(m, d, node)
    ensures D.Valid(d', r') && node !in r' && d'.key == d.key
    ensures var i := IndexOf(r, node);
      && 0 < i && D.Keys(d, r)[i - 1] == d.key[node].value
      && D.Keys(d', r') == D.Keys(d, r)[..i - 1] + D.Keys(d, r)[i..]
  {
    d', r' := D.Remove(d, node, r);
  }

  /** finishRegion's demands: the region's upper edge is a live half-edge
      with a left face (the source unwraps `Lface`). */
  ghost predicate Finishable(m: Mesh, g: MO.Shape, d: D.Dict<Region>, node: int) {
    && DeletableAt(m, d, node)
    && var e := d.key[node].value.eUp;
       e in g.live && 0 <= e < |m.lface| && m.lface[e] != Labels.NIL
  }

  /** finishRegion: the left face of the region's upper edge takes the
      region's inside flag and that edge as its anEdge; no other face and no
      other part of the mesh changes, the mesh invariant still holds, and the
      region leaves the dictionary. */
  method FinishRegion(m: Mesh, ghost g: MO.Shape, d: D.Dict<Region>, node: int, ghost r: seq<int>)
    returns (m': Mesh, d': D.Dict<Region>, ghost r': seq<int>)
    requires MO.Inv(m, g) && D.Valid(d, r) && node in r && node != 0 && Finishable(m, g, d, node)
    ensures var reg := d.key[node].value; var f := m.lface[reg.eUp];
      && MO.Inv(m', g)
      && m' == m.(fInside := m'.fInside, fEdge := m'.fEdge)
      && |m'.fInside| == |m.fInside| && |m'.fEdge| == |m.fEdge| && 0 <= f < |m.fEdge|
      && m'.fInside[f] == reg.inside && m'.fEdge[f] == reg.eUp
      && forall h :: 0 <= h < |m.fEdge| && h != f ==>
           m'.fInside[h] == m.fInside[h] && m'.fEdge[h] == m.fEdge[h]
    ensures D.Valid(d', r') && node !in r' && d'.key == d.key
    ensures var i := IndexOf(r, node);
      && 0 < i && D.Keys(d, r)[i - 1] == d.key[node].value
      && D.Keys(d', r') == D.Keys(d, r)[..i - 1] + D.Keys(d, r)[i..]
  {
    var reg := d.key[node].value;
    var e := reg.eUp;
    var f := m.lface[e];
    MO.LiveFace(m, g, e);
    assert Labels.CycleOk(MO.FLab(m, g), f);
    Labels.Reanchor(MO.FLab(m, g), f, e);
    m' := m.(fInside := m.fInside[f := reg.inside], fEdge := m.fEdge[f := e]);
    assert MO.FLab(m', g) == MO.FLab(m, g).(anchor := m.fEdge[f := e]);
    assert MO.VLab(m', g) == MO.VLab(m, g);
    d', r' := DeleteRegion(m, d, node, r);
  }

  /** The number of regions in ks that are not sentinels. */
  function NonSentinels(ks: seq<Region>): nat {
    if ks == [] then 0
    else NonSentinels(ks[..|ks| - 1]) + (if ks[|ks| - 1].sentinel then 0 else 1)
  }

  /** What doneEdgeDict expects of the regions left when the sweep is over:
      each has winding number 0 and passes deleteRegion's check, each is a
      sentinel or a fixUpperEdge region, and at most one is not a
      sentinel. */
  predicate EndOfSweep(m: Mesh, ks: seq<Region>) {
    && (forall i :: 0 <= i < |ks| ==>
          ks[i].windingNumber == 0 && FixableOk(m, ks[i]) && (ks[i].sentinel || ks[i].fixUpperEdge))
    && NonSentinels(ks) <= 1
  }

  /** doneEdgeDict: deletes the regions from the bottom up, checking each
      against what it expects; `ok` is false exactly when one of its
      assertions fails. The dictionary ends empty either way. */
  method DoneEdgeDict(m: Mesh, d: D.Dict<Region>, ghost r: seq<int>)
    returns (ok: bool, d': D.Dict<Region>, ghost r': seq<int>)
    requires D.Valid(d, r)
    requires forall i :: 0 <= i < |D.Keys(d, r)| ==> 0 <= D.Keys(d, r)[i].eUp < |m.winding|
    ensures D.Valid(d', r') && D.Keys(d', r') == [] && r' == [0]
    ensures ok <==> EndOfSweep(m, D.Keys(d, r))
  {
    ghost var ks := D.Keys(d, r);
    var fixedEdges := 0;
    ok := true;
    d', r' := d, r;
    ghost var done := 0;
    var n := D.Min(d', r');
    assert |r'| > 1 ==> n != 0 by { assert Distinct(r'); }
    while n != 0
      invariant D.Valid(d', r') && 0 <= done <= |ks| && D.Keys(d', r') == ks[done..]
      invariant |r'| == 1 ==> n == 0
      invariant |r'| > 1 ==> n == r'[1] && n != 0 && d'.key[n] == Some(ks[done])
      invariant fixedEdges == NonSentinels(ks[..done])
      invariant ok <==> EndOfSweep(m, ks[..done])
      decreases |r'|
    {
      var reg := d'.key[n].value;
      assert reg == ks[done];
      assert ks[..done + 1] == ks[..done] + [reg];
      var good;
      good, fixedEdges := CheckRegion(m, reg, fixedEdges);
      ok := ok && good;
      EndOfSweepSnoc(m, ks[..done], reg);
      assert IndexOf(r', n) == 1;
      d', r' := D.Remove(d', n, r');
      done := done + 1;
      n := D.Min(d', r');
      assert |r'| > 1 ==> n != 0 by { assert Distinct(r'); }
    }
    assert ks[..done] == ks;
  }

  /** The assertions doneEdgeDict and deleteRegion make about one region,
      after fixedEdges has counted it. */
  method CheckRegion(m: Mesh, reg: Region, fixedEdges: nat) returns (good: bool, fixed': nat)
    requires 0 <= reg.eUp < |m.winding|
    ensures fixed' == fixedEdges + (if reg.sentinel then 0 else 1)
    ensures !reg.sentinel ==>
      (good <==> reg.windingNumber == 0 && FixableOk(m, reg) && reg.fixUpperEdge && fixed' == 1)
    ensures reg.sentinel ==> (good <==> reg.windingNumber == 0 && FixableOk(m, reg))
  {
    good, fixed' := true, fixedEdges;
    if !reg.sentinel {
      if !reg.fixUpperEdge {
        good := false;
      }
      fixed' := fixed' + 1;
      if fixed' != 1 {
        good := false;
      }
    }
    if reg.windingNumber != 0 {
      good := false;
    }
    if reg.fixUpperEdge && m.winding[reg.eUp] != 0 {
      good := false;
    }
  }

  lemma EndOfSweepSnoc(m: Mesh, ks: seq<Region>, reg: Region)
    ensures NonSentinels(ks + [reg]) == NonSentinels(ks) + (if reg.sentinel then 0 else 1)
    ensures EndOfSweep(m, ks + [reg]) <==>
      && EndOfSweep(m, ks)
      && reg.windingNumber == 0 && FixableOk(m, reg) && (reg.sentinel || reg.fixUpperEdge)
      && NonSentinels(ks + [reg]) <= 1
  {
    assert (ks + [reg])[..|ks|] == ks;
    var ks' := ks + [reg];
    if EndOfSweep(m, ks') {
      assert forall i :: 0 <= i < |ks| ==> ks[i] == ks'[i];
    }
  }

  // ---------------------------------------------------------------------------
  // The main loop of computeInterior: merging coincident events

  /** The order of the event queue: vertLeq on the vertices' positions. */
  function VertexOrder(): (End, End) -> bool {
    (a: End, b: End) => VertLeq(a.p, b.p)
  }

  lemma VertexOrderTotal()
    ensures TotalPreorder(VertexOrder())
  {
    var leq := VertexOrder();
    forall a: End, b: End ensures leq(a, b) || leq(b, a) {
      OrdersAreTotal(a.p, b.p, b.p);
    }
    forall a: End, b: End, c: End | leq(a, b) && leq(b, c) ensures leq(a, c) {
      OrdersAreTotal(a.p, b.p, c.p);
    }
  }

  /** spliceMergeVertices(kept.anEdge, gone.anEdge): gone is merged into kept. */
  datatype Merge = Merge(kept: End, gone: End)

  function Gone(ms: seq<Merge>): (gs: seq<End>)
    ensures |gs| == |ms| && forall i :: 0 <= i < |ms| ==> gs[i] == ms[i].gone
  {
    seq(|ms|, i requires 0 <= i < |ms| => ms[i].gone)
  }

  /** Events in strictly increasing sweep order: no two at one position. */
  predicate Increasing(evs: seq<End>) {
    forall i, j :: 0 <= i < j < |evs| ==> VertLeq(evs[i].p, evs[j].p) && !VertEq(evs[i].p, evs[j].p)
  }

  /** The state of the main loop over queue q, now cur: the keys handed out
      so far are ks (handles hs), split into the events and the merged
      vertices; every event precedes the keys still queued and, unless its
      run is still `open` (only possible for the last event), is apart from
      them. */
  ghost predicate Merging(q: PQ.Queue<End>, cur: PQ.Queue<End>, ks: seq<End>, hs: seq<int>,
                          evs: seq<End>, ms: seq<Merge>, open: bool) {
    && PQ.Draining(q, cur, VertexOrder(), ks, hs)
    && multiset(ks) == multiset(evs) + multiset(Gone(ms))
    && Increasing(evs)
    && (forall k :: 0 <= k < |ms| ==> ms[k].kept in evs && VertEq(ms[k].kept.p, ms[k].gone.p))
    && (open ==> |evs| > 0)
    && forall i, x :: 0 <= i < |evs| && PQ.Pending(cur, x) ==>
         && VertLeq(evs[i].p, PQ.HandleKey(cur, x).p)
         && (!VertEq(evs[i].p, PQ.HandleKey(cur, x).p) || (open && i == |evs| - 1))
  }

  /** extractMin starts a new event v. */
  lemma EventStep(q: PQ.Queue<End>, cur: PQ.Queue<End>, next: PQ.Queue<End>, ks: seq<End>, hs: seq<int>,
                  evs: seq<End>, ms: seq<Merge>, v: End, hd: int)
    requires TotalPreorder(VertexOrder()) && Merging(q, cur, ks, hs, evs, ms, false)
    requires PQ.Takes(cur, next, hd) && v == PQ.HandleKey(cur, hd) && PQ.LeqAll(cur, VertexOrder(), v)
    ensures Merging(q, next, ks + [v], hs + [hd], evs + [v], ms, true)
    ensures |PQ.PendingSet(next)| < |PQ.PendingSet(cur)|
  {
    PQ.DrainStep(q, cur, next, VertexOrder(), ks, hs, v, hd);
    var evs' := evs + [v];
    assert Increasing(evs') by {
      forall i, j | 0 <= i < j < |evs'| ensures VertLeq(evs'[i].p, evs'[j].p) && !VertEq(evs'[i].p, evs'[j].p) {
        if j == |evs| {
          assert PQ.Pending(cur, hd);
        }
      }
    }
    forall i, x | 0 <= i < |evs'| && PQ.Pending(next, x)
      ensures VertLeq(evs'[i].p, PQ.HandleKey(next, x).p)
    {
      if i < |evs| {
        assert PQ.Pending(cur, x);
      } else {
        assert VertexOrder()(v, PQ.HandleKey(cur, x));
      }
    }
    forall k | 0 <= k < |ms| ensures ms[k].kept in evs' {
      assert ms[k].kept in evs;
    }
    forall i, x | 0 <= i < |evs| && PQ.Pending(next, x)
      ensures !VertEq(evs'[i].p, PQ.HandleKey(next, x).p)
    {
      assert PQ.Pending(cur, x);
    }
    assert multiset(ks + [v]) == multiset(evs') + multiset(Gone(ms));
  }

  /** extractMin takes w, at the position of the open event v, and merges it. */
  lemma MergeStep(q: PQ.Queue<End>, cur: PQ.Queue<End>, next: PQ.Queue<End>, ks: seq<End>, hs: seq<int>,
                  evs: seq<End>, ms: seq<Merge>, w: End, hd: int)
    requires TotalPreorder(VertexOrder()) && Merging(q, cur, ks, hs, evs, ms, true)
    requires PQ.Takes(cur, next, hd) && w == PQ.HandleKey(cur, hd) && PQ.LeqAll(cur, VertexOrder(), w)
    requires VertEq(w.p, evs[|evs| - 1].p)
    ensures Merging(q, next, ks + [w], hs + [hd], evs, ms + [Merge(evs[|evs| - 1], w)], true)
    ensures |PQ.PendingSet(next)| < |PQ.PendingSet(cur)|
  {
    PQ.DrainStep(q, cur, next, VertexOrder(), ks, hs, w, hd);
    var v := evs[|evs| - 1];
    var ms' := ms + [Merge(v, w)];
    assert Gone(ms') == Gone(ms) + [w];
    assert multiset(ks + [w]) == multiset(evs) + multiset(Gone(ms'));
    forall k | 0 <= k < |ms'| ensures ms'[k].kept in evs && VertEq(ms'[k].kept.p, ms'[k].gone.p) {
      if k < |ms| {
        assert ms'[k] == ms[k];
      }
    }
    forall i, x | 0 <= i < |evs| && PQ.Pending(next, x)
      ensures VertLeq(evs[i].p, PQ.HandleKey(next, x).p)
      ensures !VertEq(evs[i].p, PQ.HandleKey(next, x).p) || i == |evs| - 1
    {
      assert PQ.Pending(cur, x);
    }
  }

  /** The open run ends when the queue is empty or its least key is not at
      the event's position: then every queued key is apart from the event. */
  lemma RunDone(q: PQ.Queue<End>, cur: PQ.Queue<End>, ks: seq<End>, hs: seq<int>,
                evs: seq<End>, ms: seq<Merge>, least: Option<End>, lh: int)
    requires TotalPreorder(VertexOrder()) && Merging(q, cur, ks, hs, evs, ms, true)
    requires least.None? ==> forall x :: !PQ.Pending(cur, x)
    requires least.Some? ==>
      && PQ.Pending(cur, lh) && least.value == PQ.HandleKey(cur, lh)
      && PQ.LeqAll(cur, VertexOrder(), least.value) && !VertEq(least.value.p, evs[|evs| - 1].p)
    ensures Merging(q, cur, ks, hs, evs, ms, false)
  {
    var v := evs[|evs| - 1];
    forall x | PQ.Pending(cur, x) ensures !VertEq(v.p, PQ.HandleKey(cur, x).p) {
      var k := PQ.HandleKey(cur, x);
      assert VertLeq(v.p, k.p);
      assert VertLeq(least.value.p, k.p);
      assert VertLeq(v.p, least.value.p);
      OrdersAreTotal(least.value.p, k.p, v.p);
      OrdersAreTotal(v.p, least.value.p, v.p);
    }
  }

  /** computeInterior's main loop, with sweepEvent left out: extractMin
      takes the next vertex v; every vertex queued at exactly v's position
      is taken too and merged into v; then v is the next event. The events
      come out in strictly increasing sweep order, so no two share a
      position; every queued vertex is handed out exactly once, as an event
      or merged into the event at its position. */
  method SweepEvents(q: PQ.Queue<End>, ghost free: seq<int>)
    returns (evs: seq<End>, ms: seq<Merge>, ghost ks: seq<End>, ghost hs: seq<int>)
    requires PQ.Inv(q, VertexOrder(), free) && q.initialized
    ensures Increasing(evs)
    ensures forall k :: 0 <= k < |ms| ==> ms[k].kept in evs && VertEq(ms[k].kept.p, ms[k].gone.p)
    ensures multiset(ks) == multiset(evs) + multiset(Gone(ms))
    ensures |hs| == |ks| && (forall i, j :: 0 <= i < j < |hs| ==> hs[i] != hs[j])
    ensures forall x :: x in hs <==> PQ.Pending(q, x)
    ensures forall i :: 0 <= i < |ks| ==> PQ.Pending(q, hs[i]) && ks[i] == PQ.HandleKey(q, hs[i])
  {
    var leq := VertexOrder();
    VertexOrderTotal();
    var cur := q;
    ghost var fr := free;
    evs, ms, ks, hs := [], [], [], [];
    while true
      invariant PQ.Inv(cur, leq, fr) && cur.initialized && Merging(q, cur, ks, hs, evs, ms, false)
      decreases |PQ.PendingSet(cur)|
    {
      var next, m;
      ghost var fr', hd;
      next, m, fr', hd := PQ.ExtractMin(cur, leq, fr);
      if m.None? {
        PQ.DrainDone(q, cur, leq, ks, hs);
        break;
      }
      var v := m.value;
      EventStep(q, cur, next, ks, hs, evs, ms, v, hd);
      ks, hs, evs := ks + [v], hs + [hd], evs + [v];
      cur, fr := next, fr';
      cur, fr, ks, hs, ms := MergeRun(q, cur, fr, ks, hs, evs, ms);
    }
  }

  /** The inner loop of the main loop: every queued vertex that coincides
      with the event just extracted is extracted and merged into it. */
  method MergeRun(q: PQ.Queue<End>, cur0: PQ.Queue<End>, ghost fr0: seq<int>, ghost ks0: seq<End>,
                  ghost hs0: seq<int>, evs: seq<End>, ms0: seq<Merge>)
    returns (cur: PQ.Queue<End>, ghost fr: seq<int>, ghost ks: seq<End>, ghost hs: seq<int>, ms: seq<Merge>)
    requires PQ.Inv(cur0, VertexOrder(), fr0) && cur0.initialized && Merging(q, cur0, ks0, hs0, evs, ms0, true)
    ensures PQ.Inv(cur, VertexOrder(), fr) && cur.initialized && Merging(q, cur, ks, hs, evs, ms, false)
    ensures |PQ.PendingSet(cur)| <= |PQ.PendingSet(cur0)|
  {
    var leq := VertexOrder();
    VertexOrderTotal();
    var v := evs[|evs| - 1];
    cur, fr, ks, hs, ms := cur0, fr0, ks0, hs0, ms0;
    while true
      invariant PQ.Inv(cur, leq, fr) && cur.initialized && Merging(q, cur, ks, hs, evs, ms, true)
      invariant |PQ.PendingSet(cur)| <= |PQ.PendingSet(cur0)|
      decreases |PQ.PendingSet(cur)|
    {
      var vNext := PQ.Minimum(cur, leq, fr);
      if vNext.None? || !VertEq(vNext.value.p, v.p) {
        ghost var lh := if vNext.Some? then PQ.NextHandle(cur, leq, fr) else 0;
        RunDone(q, cur, ks, hs, evs, ms, vNext, lh);
        break;
      }
      var next, m;
      ghost var fr', hd;
      next, m, fr', hd := PQ.ExtractMin(cur, leq, fr);
      var w := m.value;
      MergeStep(q, cur, next, ks, hs, evs, ms, w, hd);
      ks, hs, ms := ks + [w], hs + [hd], ms + [Merge(v, w)];
      cur, fr := next, fr';
    }
  }

  /** initPriorityQ: every vertex goes into a queue made with room for them
      and 8 more, then the queue is initialized. hs are the handles stored in
      the vertices, one per vertex, all different. */
  method InitPriorityQ(vs: seq<End>) returns (q: PQ.Queue<End>, ghost free: seq<int>, ghost hs: seq<int>)
    ensures PQ.Inv(q, VertexOrder(), free) && q.initialized
    ensures |hs| == |vs| && forall i, j :: 0 <= i < j < |hs| ==> hs[i] != hs[j]
    ensures forall x :: PQ.Pending(q, x) <==> x in hs
    ensures forall i :: 0 <= i < |vs| ==> PQ.Pending(q, hs[i]) && PQ.HandleKey(q, hs[i]) == vs[i]
  {
    var leq := VertexOrder();
    VertexOrderTotal();
    q, free := PQ.New(|vs| + 8, leq);
    hs := [];
    var i := 0;
    while i < |vs|
      invariant 0 <= i <= |vs| && PQ.Inv(q, leq, free) && !q.initialized
      invariant |hs| == i && forall a, b :: 0 <= a < b < |hs| ==> hs[a] != hs[b]
      invariant forall x :: PQ.Pending(q, x) <==> x in hs
      invariant forall j :: 0 <= j < i ==> PQ.Pending(q, hs[j]) && PQ.HandleKey(q, hs[j]) == vs[j]
    {
      var h;
      q, h, free := PQ.Insert(q, leq, free, vs[i]);
      hs := hs + [h];
      i := i + 1;
    }
    q := PQ.Initialize(q, leq, free);
  }

  /** `s` without its element at position `j`. */
  function Drop<T>(s: seq<T>, j: nat): (r: seq<T>)
    requires j < |s|
    ensures |r| == |s| - 1
    ensures forall k :: 0 <= k < |r| ==> r[k] == s[if k < j then k else k + 1]
    ensures multiset(s) == multiset(r) + multiset{s[j]}
  {
    assert s == s[..j] + [s[j]] + s[j + 1..];
    s[..j] + s[j + 1..]
  }

  ghost predicate Unique(hs: seq<int>) {
    forall i, j :: 0 <= i < j < |hs| ==> hs[i] != hs[j]
  }

  lemma DropUnique(hs: seq<int>, j: nat)
    requires j < |hs| && Unique(hs)
    ensures Unique(Drop(hs, j))
    ensures forall y :: y in Drop(hs, j) <==> y in hs && y != hs[j]
  {
    var r := Drop(hs, j);
    forall a, b | 0 <= a < b < |r| ensures r[a] != r[b] {
      assert r[a] == hs[if a < j then a else a + 1];
    }
    forall y ensures y in r <==> y in hs && y != hs[j] {
      if y in r {
        var k :| 0 <= k < |r| && r[k] == y;
        assert hs[if k < j then k else k + 1] == y;
      }
      if y in hs && y != hs[j] {
        var m := IndexOf(hs, y);
        assert r[if m < j then m else m - 1] == y;
      }
    }
  }

  /** A listing of handles that all occur in an empty listing is empty. */
  lemma NothingListed(hs1: seq<int>, hs2: seq<int>)
    requires forall x :: x in hs2 ==> x in hs1
    ensures |hs1| == 0 ==> |hs2| == 0
  {
    if |hs2| > 0 {
      var y := hs2[0];
      assert y in hs2;
      assert y in hs1;
    }
  }

  /** Keys agree wherever the handles of two listings agree. */
  ghost predicate Consistent<K>(hs1: seq<int>, ks1: seq<K>, hs2: seq<int>, ks2: seq<K>) {
    forall i, j :: 0 <= i < |hs1| && i < |ks1| && 0 <= j < |hs2| && j < |ks2| && hs1[i] == hs2[j] ==> ks1[i] == ks2[j]
  }

  lemma DropConsistent<K>(hs1: seq<int>, ks1: seq<K>, hs2: seq<int>, ks2: seq<K>, j: nat)
    requires |hs1| == |ks1| > 0 && |hs2| == |ks2| && j < |hs2| && Consistent(hs1, ks1, hs2, ks2)
    ensures Consistent(hs1[1..], ks1[1..], Drop(hs2, j), Drop(ks2, j))
  {
    var hs2', ks2' := Drop(hs2, j), Drop(ks2, j);
    forall a, b | 0 <= a < |hs1| - 1 && 0 <= b < |hs2'| && hs1[1..][a] == hs2'[b]
      ensures ks1[1..][a] == ks2'[b]
    {
      var b2 := if b < j then b else b + 1;
      assert hs1[a + 1] == hs2[b2];
    }
  }

  /** Two duplicate-free listings of the same handles, each paired with
      keys that agree wherever the handles agree, hold the same multiset of
      keys. */
  lemma {:induction false} ListingsAgree<K>(hs1: seq<int>, ks1: seq<K>, hs2: seq<int>, ks2: seq<K>)
    requires |hs1| == |ks1| && |hs2| == |ks2| && Unique(hs1) && Unique(hs2)
    requires forall x :: x in hs1 <==> x in hs2
    requires Consistent(hs1, ks1, hs2, ks2)
    ensures multiset(ks1) == multiset(ks2)
    decreases |hs1|
  {
    if hs1 == [] {
      NothingListed(hs1, hs2);
      return;
    }
    var x := hs1[0];
    assert x in hs2;
    var j := IndexOf(hs2, x);
    DropBoth(hs1, hs2, j);
    DropConsistent(hs1, ks1, hs2, ks2, j);
    ListingsAgree(hs1[1..], ks1[1..], Drop(hs2, j), Drop(ks2, j));
    ConsDrop(ks1, ks2, j);
  }

  /** Taking the first handle of one listing out of both leaves two
      duplicate-free listings of the same handles. */
  lemma DropBoth(hs1: seq<int>, hs2: seq<int>, j: nat)
    requires Unique(hs1) && Unique(hs2) && hs1 != [] && j < |hs2| && hs2[j] == hs1[0]
    requires forall x :: x in hs1 <==> x in hs2
    ensures Unique(hs1[1..]) && Unique(Drop(hs2, j))
    ensures forall x :: x in hs1[1..] <==> x in Drop(hs2, j)
  {
    DropUnique(hs1, 0);
    DropUnique(hs2, j);
    assert Drop(hs1, 0) == hs1[1..];
  }

  lemma ConsDrop<K>(ks1: seq<K>, ks2: seq<K>, j: nat)
    requires ks1 != [] && j < |ks2| && ks2[j] == ks1[0]
    requires multiset(ks1[1..]) == multiset(Drop(ks2, j))
    ensures multiset(ks1) == multiset(ks2)
  {
    assert ks1 == [ks1[0]] + ks1[1..];
  }

  /** computeInterior's queue from initPriorityQ to the end of the main loop:
      every vertex is handed out exactly once, as an event or merged into
      the event at its position, and no two events share a position. */
  method ComputeInteriorEvents(vs: seq<End>) returns (evs: seq<End>, ms: seq<Merge>)
    ensures Increasing(evs)
    ensures forall k :: 0 <= k < |ms| ==> ms[k].kept in evs && VertEq(ms[k].kept.p, ms[k].gone.p)
    ensures multiset(evs) + multiset(Gone(ms)) == multiset(vs)
  {
    var q;
    ghost var free, hs, ks, hs';
    q, free, hs := InitPriorityQ(vs);
    evs, ms, ks, hs' := SweepEvents(q, free);
    forall i, j | 0 <= i < |hs| && 0 <= j < |hs'| && hs[i] == hs'[j] ensures vs[i] == ks[j] {
    }
    ListingsAgree(hs, vs, hs', ks);
  }
}
