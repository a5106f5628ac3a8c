/**
  Geometry predicates of the sweep (Geom.swift), over the projected
  coordinates (s, t) of a vertex. Coordinates are mathematical reals: the
  lemmas state the algebraic intent of each formula and nothing about rounding.
*/
module Geom {

  /** Projected position of a vertex: `s` is the sweep axis, `t` the other one. */
  datatype Pt = Pt(s: real, t: real)

  datatype WindingRule = EvenOdd | NonZero | Positive | Negative | AbsGeqTwo

  /** Swift's `n & 1` on a two's-complement integer: the low bit, which is the
      Euclidean remainder modulo 2 (so -3 & 1 == 1). */
  function LowBit(n: int): (b: int)
    ensures b == 0 || b == 1
    ensures (n + b) % 2 == 0 && (n - b) % 2 == 0
  {
    n % 2
  }

  function IsWindingInside(rule: WindingRule, n: int): bool {
    match rule
    case EvenOdd => LowBit(n) == 1
    case NonZero => n != 0
    case Positive => n > 0
    case Negative => n < 0
    case AbsGeqTwo => n >= 2 || n <= -2
  }

  /** The even-odd rule, computed on the low bit, counts odd winding numbers
      as inside and even ones as outside, whatever their sign. */
  lemma {:induction false} WindingRuleMeaning(n: int, k: int)
    ensures IsWindingInside(EvenOdd, 2 * k + 1) && !IsWindingInside(EvenOdd, 2 * k)
    ensures IsWindingInside(EvenOdd, n) == IsWindingInside(EvenOdd, -n)
  {
    assert (2 * k + 1) % 2 == 1;
    assert (2 * k) % 2 == 0;
    var b := LowBit(n);
    assert (-n + b) % 2 == 0 by {
      assert -n + b == -(n - b);
    }
  }

  function VertCCW(u: Pt, v: Pt, w: Pt): bool {
    u.s * (v.t - w.t) + v.s * (w.t - u.t) + w.s * (u.t - v.t) >= 0.0
  }

  predicate VertEq(u: Pt, v: Pt) {
    u.s == v.s && u.t == v.t
  }

  /** Sweep order: by s, then by t. */
  predicate VertLeq(u: Pt, v: Pt) {
    u.s < v.s || (u.s == v.s && u.t <= v.t)
  }

  /** Transverse order: by t, then by s. */
  predicate TransLeq(u: Pt, v: Pt) {
    u.t < v.t || (u.t == v.t && u.s <= v.s)
  }

  /** Swapping the two coordinates turns one order into the other. */
  function Transpose(p: Pt): Pt {
    Pt(p.t, p.s)
  }

  /** `VertLeq` is a total order whose equivalence is `VertEq`; `TransLeq` is the
      same order on transposed points, so it has the same properties. */
  lemma OrdersAreTotal(u: Pt, v: Pt, w: Pt)
    ensures VertLeq(u, v) || VertLeq(v, u)
    ensures VertLeq(u, v) && VertLeq(v, w) ==> VertLeq(u, w)
    ensures VertLeq(u, v) && VertLeq(v, u) <==> VertEq(u, v)
    ensures TransLeq(u, v) == VertLeq(Transpose(u), Transpose(v))
    ensures TransLeq(u, v) || TransLeq(v, u)
    ensures TransLeq(u, v) && TransLeq(v, w) ==> TransLeq(u, w)
    ensures TransLeq(u, v) && TransLeq(v, u) <==> VertEq(u, v)
  {
  }

  // ---------------------------------------------------------------------------
  // Signed distance of a vertex from a segment.

  /** t-coordinate of the line through u and w at abscissa s (u.s < w.s). */
  function LineT(u: Pt, w: Pt, s: real): real
    requires u.s < w.s
  {
    u.t + (w.t - u.t) * ((s - u.s) / (w.s - u.s))
  }

  /** Given u <= v <= w in sweep order: v.t minus the t of segment uw at v.s;
      zero for a vertical segment. The formula interpolates from the nearer
      endpoint. */
  function EdgeEval(u: Pt, v: Pt, w: Pt): real
    requires VertLeq(u, v) && VertLeq(v, w)
  {
    var gapL := v.s - u.s;
    var gapR := w.s - v.s;
    if gapL + gapR <= 0.0 then 0.0
    else if gapL < gapR then
      var k := gapL / (gapL + gapR);
      (v.t - u.t) + (u.t - w.t) * k
    else
      var k := gapR / (gapL + gapR);
      (v.t - w.t) + (w.t - u.t) * k
  }

  /** Cheaper value with the sign of `EdgeEval`. */
  function EdgeSign(u: Pt, v: Pt, w: Pt): real
    requires VertLeq(u, v) && VertLeq(v, w)
  {
    var gapL := v.s - u.s;
    var gapR := w.s - v.s;
    if gapL + gapR > 0.0 then (v.t - w.t) * gapL + (v.t - u.t) * gapR
    else 0.0
  }

  /** `EdgeEval` with the roles of s and t exchanged. */
  function TransEval(u: Pt, v: Pt, w: Pt): real
    requires TransLeq(u, v) && TransLeq(v, w)
  {
    var gapL := v.t - u.t;
    var gapR := w.t - v.t;
    if gapL + gapR > 0.0 then
      if gapL < gapR then
        var k := gapL / (gapL + gapR);
        (v.s - u.s) + (u.s - w.s) * k
      else
        var k := gapR / (gapL + gapR);
        (v.s - w.s) + (w.s - u.s) * k
    else 0.0
  }

  /** `EdgeSign` with the roles of s and t exchanged. */
  function TransSign(u: Pt, v: Pt, w: Pt): real
    requires TransLeq(u, v) && TransLeq(v, w)
  {
    var gapL := v.t - u.t;
    var gapR := w.t - v.t;
    if gapL + gapR > 0.0 then (v.s - w.s) * gapL + (v.s - u.s) * gapR
    else 0.0
  }

  /** Linear interpolation stays between its end values. */
  lemma Lerp(a: real, b: real, k: real)
    requires 0.0 <= k <= 1.0
    ensures a <= b ==> a <= a + (b - a) * k <= b
    ensures b <= a ==> b <= a + (b - a) * k <= a
  {
    if a <= b {
      assert (b - a) * k <= (b - a) * 1.0;
    } else {
      assert (a - b) * k <= (a - b) * 1.0;
    }
  }

  lemma FractionInUnit(p: real, d: real)
    requires 0.0 <= p <= d && d > 0.0
    ensures 0.0 <= p / d <= 1.0
  {
    var k := p / d;
    assert k * d == p;
  }


  /** `EdgeEval` is the signed vertical distance from segment uw to v. */
  lemma EdgeEvalIsDistance(u: Pt, v: Pt, w: Pt)
    requires VertLeq(u, v) && VertLeq(v, w)
    ensures u.s < w.s ==> EdgeEval(u, v, w) == v.t - LineT(u, w, v.s)
    ensures u.s == w.s ==> EdgeEval(u, v, w) == 0.0
  {
    var gapL := v.s - u.s;
    var gapR := w.s - v.s;
    if u.s < w.s {
      var d := gapL + gapR;
      assert d == w.s - u.s;
      var kl := gapL / d;
      var kr := gapR / d;
      assert kl + kr == 1.0 by {
        assert kl * d == gapL && kr * d == gapR;
        assert (kl + kr) * d == d;
      }
      if gapL < gapR {
        assert EdgeEval(u, v, w) == (v.t - u.t) + (u.t - w.t) * kl;
      } else {
        assert EdgeEval(u, v, w) == (v.t - w.t) + (w.t - u.t) * kr;
        assert (w.t - u.t) * kr == (w.t - u.t) - (w.t - u.t) * kl;
      }
    }
  }

  /** With u <= v <= w, v.t minus `EdgeEval` is the height of uw at v.s, which
      lies between u.t and w.t. */
  lemma EdgeEvalInRange(u: Pt, v: Pt, w: Pt)
    requires VertLeq(u, v) && VertLeq(v, w)
    ensures Between(v.t - EdgeEval(u, v, w), u.t, w.t)
  {
    var gapL := v.s - u.s;
    var gapR := w.s - v.s;
    if gapL + gapR > 0.0 {
      var d := gapL + gapR;
      if gapL < gapR {
        var k := gapL / d;
        FractionInUnit(gapL, d);
        Lerp(u.t, w.t, k);
        assert (u.t - w.t) * k == -((w.t - u.t) * k);
        assert v.t - EdgeEval(u, v, w) == u.t + (w.t - u.t) * k;
        assert Between(u.t + (w.t - u.t) * k, u.t, w.t);
      } else {
        var k := gapR / d;
        FractionInUnit(gapR, d);
        Lerp(w.t, u.t, k);
        assert (w.t - u.t) * k == -((u.t - w.t) * k);
        assert v.t - EdgeEval(u, v, w) == w.t + (u.t - w.t) * k;
        assert Between(w.t + (u.t - w.t) * k, u.t, w.t);
      }
    }
  }

  /** Over the reals `EdgeSign` is `EdgeEval` scaled by the positive width of the
      segment, so it has the same sign. */
  lemma EdgeSignScalesEval(u: Pt, v: Pt, w: Pt)
    requires VertLeq(u, v) && VertLeq(v, w)
    ensures EdgeSign(u, v, w) == ((v.s - u.s) + (w.s - v.s)) * EdgeEval(u, v, w)
    ensures (EdgeSign(u, v, w) > 0.0 <==> EdgeEval(u, v, w) > 0.0)
    ensures (EdgeSign(u, v, w) < 0.0 <==> EdgeEval(u, v, w) < 0.0)
    ensures (EdgeSign(u, v, w) == 0.0 <==> EdgeEval(u, v, w) == 0.0)
  {
    var gapL := v.s - u.s;
    var gapR := w.s - v.s;
    var d := gapL + gapR;
    if d > 0.0 {
      EdgeEvalIsDistance(u, v, w);
      var kl := gapL / d;
      assert kl * d == gapL;
      assert EdgeEval(u, v, w) == (v.t - u.t) - (w.t - u.t) * kl;
      assert d * EdgeEval(u, v, w) == d * (v.t - u.t) - (w.t - u.t) * gapL;
      var e := EdgeEval(u, v, w);
      if e > 0.0 { assert d * e > 0.0; }
      if e < 0.0 { assert d * (-e) > 0.0; }
    }
  }

  /** `TransEval` and `TransSign` are `EdgeEval` and `EdgeSign` on transposed
      points, so they inherit the distance, range and sign facts. */
  lemma TransIsTransposed(u: Pt, v: Pt, w: Pt)
    requires TransLeq(u, v) && TransLeq(v, w)
    ensures VertLeq(Transpose(u), Transpose(v)) && VertLeq(Transpose(v), Transpose(w))
    ensures TransEval(u, v, w) == EdgeEval(Transpose(u), Transpose(v), Transpose(w))
    ensures TransSign(u, v, w) == EdgeSign(Transpose(u), Transpose(v), Transpose(w))
  {
  }

  lemma TransSignScalesEval(u: Pt, v: Pt, w: Pt)
    requires TransLeq(u, v) && TransLeq(v, w)
    ensures TransSign(u, v, w) == ((v.t - u.t) + (w.t - v.t)) * TransEval(u, v, w)
    ensures (TransSign(u, v, w) > 0.0 <==> TransEval(u, v, w) > 0.0)
    ensures (TransSign(u, v, w) < 0.0 <==> TransEval(u, v, w) < 0.0)
    ensures var r := v.s - TransEval(u, v, w);
      (u.s <= r <= w.s) || (w.s <= r <= u.s)
  {
    TransIsTransposed(u, v, w);
    EdgeSignScalesEval(Transpose(u), Transpose(v), Transpose(w));
    EdgeEvalInRange(Transpose(u), Transpose(v), Transpose(w));
  }

  function EdgeGoesLeft(org: Pt, dst: Pt): bool {
    VertLeq(dst, org)
  }

  function EdgeGoesRight(org: Pt, dst: Pt): bool {
    VertLeq(org, dst)
  }

  /** L1 distance between two vertices. */
  function VertL1Dist(u: Pt, v: Pt): (d: real)
    ensures d >= 0.0
    ensures d == 0.0 <==> VertEq(u, v)
  {
    (if u.s - v.s < 0.0 then v.s - u.s else u.s - v.s)
      + (if u.t - v.t < 0.0 then v.t - u.t else u.t - v.t)
  }

  // ---------------------------------------------------------------------------
  // Interpolation and intersection.

  predicate Between(r: real, x: real, y: real) {
    (x <= r <= y) || (y <= r <= x)
  }

  function Clamp0(a: real): real {
    if a < 0.0 then 0.0 else a
  }

  /** x moved towards y by the fraction a/(a + b). */
  function Blend(x: real, y: real, a: real, b: real): real
    requires a + b != 0.0
  {
    x + (y - x) * (a / (a + b))
  }

  /** Blend of x and y with weights b (on x) and a (on y), negative weights
      clamped to 0; the midpoint when both clamp to 0. Each branch moves from
      the endpoint with the larger weight. */
  function Interpolate(a0: real, x: real, b0: real, y: real): real {
    var a := Clamp0(a0);
    var b := Clamp0(b0);
    if a <= b then
      if b == 0.0 then (x + y) / 2.0 else Blend(x, y, a, b)
    else Blend(y, x, b, a)
  }

  /** A blend with non-negative weights lies between its end values and is
      their weighted mean. */
  lemma BlendMeaning(x: real, y: real, a: real, b: real)
    requires 0.0 <= a && 0.0 <= b && a + b > 0.0
    ensures Between(Blend(x, y, a, b), x, y)
    ensures (a + b) * Blend(x, y, a, b) == b * x + a * y
  {
    var d := a + b;
    var k := a / d;
    FractionInUnit(a, d);
    Lerp(x, y, k);
    assert k * d == a;
    ScaledLerp(x, y, k, d);
  }

  /** Multiplying x + (y − x)·k by d scales the step by k·d. */
  lemma ScaledLerp(x: real, y: real, k: real, d: real)
    ensures (x + (y - x) * k) * d == x * d + (y - x) * (k * d)
  {
  }

  /** The result lies between x and y; it is the weighted mean
      (b·x + a·y)/(a + b) of the clamped weights, or the midpoint. */
  lemma InterpolateMeaning(a0: real, x: real, b0: real, y: real)
    ensures Between(Interpolate(a0, x, b0, y), x, y)
    ensures a0 <= 0.0 && b0 <= 0.0 ==> Interpolate(a0, x, b0, y) == (x + y) / 2.0
    ensures var a := Clamp0(a0); var b := Clamp0(b0);
      a + b > 0.0 ==> (a + b) * Interpolate(a0, x, b0, y) == b * x + a * y
  {
    var a := Clamp0(a0);
    var b := Clamp0(b0);
    if a <= b {
      if b != 0.0 {
        BlendMeaning(x, y, a, b);
      }
    } else {
      BlendMeaning(y, x, b, a);
    }
  }

  /** Number of the values among p, q, r, w that are <= x, and that are >= x. */
  function CountLe(x: real, p: real, q: real, r: real, w: real): nat {
    (if p <= x then 1 else 0) + (if q <= x then 1 else 0)
      + (if r <= x then 1 else 0) + (if w <= x then 1 else 0)
  }

  function CountGe(x: real, p: real, q: real, r: real, w: real): nat {
    (if p >= x then 1 else 0) + (if q >= x then 1 else 0)
      + (if r >= x then 1 else 0) + (if w >= x then 1 else 0)
  }

  /** x lies between the second and third smallest of four values: between the
      two middle ones. */
  predicate IsMedian(x: real, p: real, q: real, r: real, w: real) {
    CountLe(x, p, q, r, w) >= 2 && CountGe(x, p, q, r, w) >= 2
  }

  /** s-coordinate of the intersection of (o1,d1) and (o2,d2), given the edges
      already normalised so that o1 <= d1, o2 <= d2 and o1 <= o2 in sweep order:
      interpolated between the two middle endpoints. */
  function IntersectS(o1: Pt, d1: Pt, o2: Pt, d2: Pt): real
    requires VertLeq(o1, d1) && VertLeq(o2, d2) && VertLeq(o1, o2)
  {
    if !VertLeq(o2, d1) then
      // no intersection, technically
      (o2.s + d1.s) / 2.0
    else if VertLeq(d1, d2) then
      var z1 := EdgeEval(o1, o2, d1);
      var z2 := EdgeEval(o2, d1, d2);
      if z1 + z2 < 0.0 then Interpolate(-z1, o2.s, -z2, d1.s)
      else Interpolate(z1, o2.s, z2, d1.s)
    else
      var z1 := EdgeSign(o1, o2, d1);
      var z2 := -EdgeSign(o1, d2, d1);
      if z1 + z2 < 0.0 then Interpolate(-z1, o2.s, -z2, d2.s)
      else Interpolate(z1, o2.s, z2, d2.s)
  }

  /** The same for t, with the transverse order. */
  function IntersectT(o1: Pt, d1: Pt, o2: Pt, d2: Pt): real
    requires TransLeq(o1, d1) && TransLeq(o2, d2) && TransLeq(o1, o2)
  {
    if !TransLeq(o2, d1) then
      (o2.t + d1.t) / 2.0
    else if TransLeq(d1, d2) then
      var z1 := TransEval(o1, o2, d1);
      var z2 := TransEval(o2, d1, d2);
      if z1 + z2 < 0.0 then Interpolate(-z1, o2.t, -z2, d1.t)
      else Interpolate(z1, o2.t, z2, d1.t)
    else
      var z1 := TransSign(o1, o2, d1);
      var z2 := -TransSign(o1, d2, d1);
      if z1 + z2 < 0.0 then Interpolate(-z1, o2.t, -z2, d2.t)
      else Interpolate(z1, o2.t, z2, d2.t)
  }

  /** Four endpoints: edge 1 from o1 to d1, edge 2 from o2 to d2. */
  datatype Quad = Quad(o1: Pt, d1: Pt, o2: Pt, d2: Pt)

  function Coord(p: Pt, transverse: bool): real {
    if transverse then p.t else p.s
  }

  function Leq(u: Pt, v: Pt, transverse: bool): bool {
    if transverse then TransLeq(u, v) else VertLeq(u, v)
  }

  function QuadCountLe(x: real, q: Quad, transverse: bool): nat {
    CountLe(x, Coord(q.o1, transverse), Coord(q.d1, transverse),
      Coord(q.o2, transverse), Coord(q.d2, transverse))
  }

  function QuadCountGe(x: real, q: Quad, transverse: bool): nat {
    CountGe(x, Coord(q.o1, transverse), Coord(q.d1, transverse),
      Coord(q.o2, transverse), Coord(q.d2, transverse))
  }

  /** q and r hold the same four endpoints, as far as any median test on either
      coordinate can tell. */
  ghost predicate SameEndpoints(q: Quad, r: Quad) {
    forall x: real, transverse: bool {:trigger QuadCountLe(x, r, transverse)} ::
      QuadCountLe(x, q, transverse) == QuadCountLe(x, r, transverse)
      && QuadCountGe(x, q, transverse) == QuadCountGe(x, r, transverse)
  }

  /** The swaps made before each half of the computation: each edge directed
      upward in the chosen order, then the edge with the smaller origin first. */
  function NormaliseBy(q: Quad, transverse: bool): (r: Quad)
    ensures Leq(r.o1, r.d1, transverse) && Leq(r.o2, r.d2, transverse)
      && Leq(r.o1, r.o2, transverse)
    ensures SameEndpoints(q, r)
  {
    var e1 := if !Leq(q.o1, q.d1, transverse) then Quad(q.d1, q.o1, q.o2, q.d2) else q;
    var e2 := if !Leq(e1.o2, e1.d2, transverse) then Quad(e1.o1, e1.d1, e1.d2, e1.o2) else e1;
    if !Leq(e2.o1, e2.o2, transverse) then Quad(e2.o2, e2.d2, e2.o1, e2.d1) else e2
  }

  /** Intersection point of edges (o1,d1) and (o2,d2): s from the two middle
      endpoints in sweep order, then t from the two middle endpoints in the
      transverse order. */
  function EdgeIntersect(o1: Pt, d1: Pt, o2: Pt, d2: Pt): Pt {
    var qs := NormaliseBy(Quad(o1, d1, o2, d2), false);
    var s := IntersectS(qs.o1, qs.d1, qs.o2, qs.d2);
    var qt := NormaliseBy(qs, true);
    var t := IntersectT(qt.o1, qt.d1, qt.o2, qt.d2);
    Pt(s, t)
  }

  lemma IntersectSIsMedian(o1: Pt, d1: Pt, o2: Pt, d2: Pt)
    requires VertLeq(o1, d1) && VertLeq(o2, d2) && VertLeq(o1, o2)
    ensures IsMedian(IntersectS(o1, d1, o2, d2), o1.s, d1.s, o2.s, d2.s)
  {
    if !VertLeq(o2, d1) {
    } else if VertLeq(d1, d2) {
      var z1 := EdgeEval(o1, o2, d1);
      var z2 := EdgeEval(o2, d1, d2);
      if z1 + z2 < 0.0 { InterpolateMeaning(-z1, o2.s, -z2, d1.s); }
      else { InterpolateMeaning(z1, o2.s, z2, d1.s); }
    } else {
      var z1 := EdgeSign(o1, o2, d1);
      var z2 := -EdgeSign(o1, d2, d1);
      if z1 + z2 < 0.0 { InterpolateMeaning(-z1, o2.s, -z2, d2.s); }
      else { InterpolateMeaning(z1, o2.s, z2, d2.s); }
    }
  }

  lemma IntersectTIsMedian(o1: Pt, d1: Pt, o2: Pt, d2: Pt)
    requires TransLeq(o1, d1) && TransLeq(o2, d2) && TransLeq(o1, o2)
    ensures IsMedian(IntersectT(o1, d1, o2, d2), o1.t, d1.t, o2.t, d2.t)
  {
    if !TransLeq(o2, d1) {
    } else if TransLeq(d1, d2) {
      var z1 := TransEval(o1, o2, d1);
      var z2 := TransEval(o2, d1, d2);
      if z1 + z2 < 0.0 { InterpolateMeaning(-z1, o2.t, -z2, d1.t); }
      else { InterpolateMeaning(z1, o2.t, z2, d1.t); }
    } else {
      var z1 := TransSign(o1, o2, d1);
      var z2 := -TransSign(o1, d2, d1);
      if z1 + z2 < 0.0 { InterpolateMeaning(-z1, o2.t, -z2, d2.t); }
      else { InterpolateMeaning(z1, o2.t, z2, d2.t); }
    }
  }

  /** `EdgeIntersect` returns an s between the two middle endpoints in sweep
      order and a t between the two middle endpoints in transverse order: it is
      a median of the four s values and of the four t values. */
  lemma EdgeIntersectIsMedian(o1: Pt, d1: Pt, o2: Pt, d2: Pt)
    ensures var v := EdgeIntersect(o1, d1, o2, d2);
      IsMedian(v.s, o1.s, d1.s, o2.s, d2.s) && IsMedian(v.t, o1.t, d1.t, o2.t, d2.t)
  {
    var q := Quad(o1, d1, o2, d2);
    var v := EdgeIntersect(o1, d1, o2, d2);
    var qs := NormaliseBy(q, false);
    IntersectSIsMedian(qs.o1, qs.d1, qs.o2, qs.d2);
    var qt := NormaliseBy(qs, true);
    IntersectTIsMedian(qt.o1, qt.d1, qt.o2, qt.d2);
    assert QuadCountLe(v.s, qs, false) == QuadCountLe(v.s, q, false);
    assert QuadCountGe(v.s, qs, false) == QuadCountGe(v.s, q, false);
    assert QuadCountLe(v.t, qt, true) == QuadCountLe(v.t, qs, true) == QuadCountLe(v.t, q, true);
    assert QuadCountGe(v.t, qt, true) == QuadCountGe(v.t, qs, true) == QuadCountGe(v.t, q, true);
  }
}
