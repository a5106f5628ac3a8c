/**
  Contour intake and output assembly (Tess.swift): the shoelace area and the
  orientation a contour is added in, the combinatorics of the monotone fan
  triangulator, the winding numbers set for boundary output, and the dense
  numbering and layout of the polygon and contour output.

  The output passes run over a `FaceView` per face of the face ring, in ring
  order: the face's handle and inside flag, its area, and along the Lnext
  loop from anEdge the origin vertex and the right face of every edge.
*/
module Tess {
  import opened Geom
  import opened MeshUtils
  import opened Labels
  import opened Cycles
  import opened MeshContext

  /** `MeshUtils.Undef`, which is `~0`, that is -1 on two's complement `Int`. */
  const Undef: int := -1

  datatype ContourOrientation = Original | Clockwise | CounterClockwise
  datatype ElementType = Polygons | ConnectedPolygons | BoundaryContours

  // ---------------------------------------------------------------------------
  // signedArea and the orientation of addContour

  /** The z component of the cross product of two positions. */
  function Cross(a: Vector3, b: Vector3): real {
    a.x * b.y - a.y * b.x
  }

  /** The shoelace terms of the open chain vs[0], vs[1], ..., vs[n-1]. */
  function Chain(vs: seq<Vector3>): real
    decreases |vs|
  {
    if |vs| < 2 then 0.0 else Cross(vs[0], vs[1]) + Chain(vs[1..])
  }

  /** The shoelace sum of the closed polygon: the open chain plus the edge
      from the last vertex back to the first. */
  function Shoelace(vs: seq<Vector3>): real {
    if vs == [] then 0.0 else Chain(vs) + Cross(vs[|vs| - 1], vs[0])
  }

  function Reverse<T>(vs: seq<T>): (r: seq<T>)
    ensures |r| == |vs| && forall i :: 0 <= i < |vs| ==> r[i] == vs[|vs| - 1 - i]
  {
    seq(|vs|, i requires 0 <= i < |vs| => vs[|vs| - 1 - i])
  }

  lemma {:induction false} ChainSnoc(vs: seq<Vector3>, v: Vector3)
    requires vs != []
    ensures Chain(vs + [v]) == Chain(vs) + Cross(vs[|vs| - 1], v)
    decreases |vs|
  {
    if |vs| == 1 {
      assert (vs + [v])[1..] == [v];
    } else {
      assert (vs + [v])[1..] == vs[1..] + [v];
      ChainSnoc(vs[1..], v);
    }
  }

  lemma ChainPrefixStep(vs: seq<Vector3>, i: nat)
    requires i + 1 < |vs|
    ensures Chain(vs[..i + 2]) == Chain(vs[..i + 1]) + Cross(vs[i], vs[i + 1])
  {
    assert vs[..i + 2] == vs[..i + 1] + [vs[i + 1]];
    ChainSnoc(vs[..i + 1], vs[i + 1]);
  }

  /** One step of signedArea's loop: adding the term of vertex i and its
      wrapped successor extends the chain, or closes the polygon at the last
      vertex. */
  lemma SignedAreaStep(vs: seq<Vector3>, i: nat, before: real)
    requires i < |vs| && before == Chain(vs[..i + 1])
    ensures var after := before + Cross(vs[i], vs[(i + 1) % |vs|]);
      && (i + 1 < |vs| ==> after == Chain(vs[..i + 2]))
      && (i + 1 == |vs| ==> after == Shoelace(vs))
  {
    if i + 1 < |vs| {
      assert (i + 1) % |vs| == i + 1;
      ChainPrefixStep(vs, i);
    } else {
      assert vs[..i + 1] == vs;
    }
  }

  /** signedArea: half the wrapped shoelace sum, x_i·y_(i+1) − y_i·x_(i+1)
      over every i with the index taken modulo the count. */
  method SignedArea(vs: seq<Vector3>) returns (area: real)
    ensures area == 0.5 * Shoelace(vs)
  {
    var sum := 0.0;
    var i := 0;
    while i < |vs|
      invariant 0 <= i <= |vs|
      invariant i < |vs| ==> sum == Chain(vs[..i + 1])
      invariant i == |vs| ==> sum == Shoelace(vs)
    {
      var v0 := vs[i];
      var v1 := vs[(i + 1) % |vs|];
      ghost var before := sum;
      sum := sum + v0.x * v1.y;
      sum := sum - v0.y * v1.x;
      assert sum == before + Cross(v0, v1);
      SignedAreaStep(vs, i, before);
      i := i + 1;
    }
    area := 0.5 * sum;
  }

  /** Walking a chain backwards negates every shoelace term. */
  lemma {:induction false} ChainOfReverse(vs: seq<Vector3>)
    ensures Chain(Reverse(vs)) == -Chain(vs)
    decreases |vs|
  {
    if |vs| >= 2 {
      var t := vs[1..];
      ChainOfReverse(t);
      assert Reverse(vs) == Reverse(t) + [vs[0]];
      ChainSnoc(Reverse(t), vs[0]);
    }
  }

  /** Reversing a contour negates its area. */
  lemma ShoelaceOfReverse(vs: seq<Vector3>)
    ensures Shoelace(Reverse(vs)) == -Shoelace(vs)
  {
    ChainOfReverse(vs);
  }

  /** addContour reverses the input for a forced orientation of the other sign. */
  function Reverses(orientation: ContourOrientation, area: real): bool {
    || (orientation == Clockwise && area < 0.0)
    || (orientation == CounterClockwise && area > 0.0)
  }

  /** The vertex order of the loop addContour builds: loop vertex i takes
      input n−1−i when reversing and input i otherwise. */
  function Added<T>(vs: seq<T>, reverse: bool): (r: seq<T>)
    ensures |r| == |vs|
    ensures forall i :: 0 <= i < |vs| ==> r[i] == vs[if reverse then |vs| - 1 - i else i]
  {
    if reverse then Reverse(vs) else vs
  }

  /** The contour as added has a non-negative signed area when clockwise is
      forced, a non-positive one when counterClockwise is forced, and is the
      input itself otherwise. */
  lemma AddedOrientation(vs: seq<Vector3>, orientation: ContourOrientation)
    ensures var added := Added(vs, Reverses(orientation, 0.5 * Shoelace(vs)));
      && (orientation == Original ==> added == vs)
      && (orientation == Clockwise ==> Shoelace(added) >= 0.0)
      && (orientation == CounterClockwise ==> Shoelace(added) <= 0.0)
  {
    ShoelaceOfReverse(vs);
  }

  // ---------------------------------------------------------------------------
  // tessellateMonoRegion

  /** A face split off by the fan: three loop vertices, by their positions
      in the original face loop. */
  datatype Tri = Tri(a: nat, b: nat, c: nat)

  function Succ(i: nat, k: nat): nat
    requires i < k
  {
    if i + 1 == k then 0 else i + 1
  }

  function Pred(i: nat, k: nat): nat
    requires i < k
  {
    if i == 0 then k - 1 else i - 1
  }

  /** Some vertex of the loop is at another position than vertex 0. */
  predicate NotAllEqual(ps: seq<Pt>) {
    exists i :: 0 <= i < |ps| && !VertEq(ps[i], ps[0])
  }

  /** If every edge of the loop went left, or every edge right, all its
      vertices would coincide. */
  lemma {:induction false} AllGoLeft(ps: seq<Pt>, j: nat)
    requires 2 <= |ps| && j < |ps|
    requires forall i :: 0 <= i < |ps| ==> VertLeq(ps[Succ(i, |ps|)], ps[i])
    ensures VertLeq(ps[j], ps[0]) && VertLeq(ps[0], ps[j])
  {
    LeftDown(ps, j);
    LeftUp(ps, j);
  }

  lemma {:induction false} LeftDown(ps: seq<Pt>, j: nat)
    requires 2 <= |ps| && j < |ps|
    requires forall i :: 0 <= i < |ps| ==> VertLeq(ps[Succ(i, |ps|)], ps[i])
    ensures VertLeq(ps[j], ps[0])
  {
    if j > 0 {
      LeftDown(ps, j - 1);
      assert VertLeq(ps[Succ(j - 1, |ps|)], ps[j - 1]);
    }
  }

  lemma {:induction false} LeftUp(ps: seq<Pt>, j: nat)
    requires 2 <= |ps| && j < |ps|
    requires forall i :: 0 <= i < |ps| ==> VertLeq(ps[Succ(i, |ps|)], ps[i])
    ensures VertLeq(ps[0], ps[j])
    decreases |ps| - j
  {
    if j + 1 < |ps| {
      LeftUp(ps, j + 1);
      assert VertLeq(ps[Succ(j, |ps|)], ps[j]);
    } else {
      assert VertLeq(ps[Succ(j, |ps|)], ps[j]);
    }
  }

  /** A loop whose vertices are not all at one position has an edge going
      strictly right (Org before Dst) ... */
  lemma RisingEdge(ps: seq<Pt>) returns (w: nat)
    requires 2 <= |ps| && NotAllEqual(ps)
    ensures w < |ps| && !VertLeq(ps[Succ(w, |ps|)], ps[w])
  {
    if forall i :: 0 <= i < |ps| ==> VertLeq(ps[Succ(i, |ps|)], ps[i]) {
      var j :| 0 <= j < |ps| && !VertEq(ps[j], ps[0]);
      AllGoLeft(ps, j);
      assert false;
    } else {
      w :| 0 <= w < |ps| && !VertLeq(ps[Succ(w, |ps|)], ps[w]);
    }
  }

  /** ... and one going strictly left. */
  lemma FallingEdge(ps: seq<Pt>) returns (w: nat)
    requires 2 <= |ps| && NotAllEqual(ps)
    ensures w < |ps| && !VertLeq(ps[w], ps[Succ(w, |ps|)])
  {
    var rs := Reverse(ps);
    if forall i :: 0 <= i < |ps| ==> VertLeq(ps[i], ps[Succ(i, |ps|)]) {
      var j :| 0 <= j < |ps| && !VertEq(ps[j], ps[0]);
      forall i | 0 <= i < |rs| ensures VertLeq(rs[Succ(i, |rs|)], rs[i]) {
        var a := |ps| - 1 - i;
        assert rs[i] == ps[a];
        if i + 1 < |rs| {
          assert rs[Succ(i, |rs|)] == ps[a - 1] && Succ(a - 1, |ps|) == a;
        } else {
          assert rs[Succ(i, |rs|)] == ps[|ps| - 1] && Succ(|ps| - 1, |ps|) == a;
        }
      }
      AllGoLeft(rs, |ps| - 1 - j);
      AllGoLeft(rs, |ps| - 1);
      assert false;
    } else {
      w :| 0 <= w < |ps| && !VertLeq(ps[w], ps[Succ(w, |ps|)]);
    }
  }

  /** The positions start, start + 1, ... of a loop of k vertices, wrapping. */
  function Rotation(start: nat, k: nat): (r: seq<nat>)
    requires start < k
    ensures |r| == k && forall i :: 0 <= i < k ==> r[i] == if start + i < k then start + i else start + i - k
  {
    seq(k, i requires 0 <= i < k => if start + i < k then start + i else start + i - k)
  }

  predicate Unique<T(==)>(s: seq<T>) {
    forall i, j :: 0 <= i < j < |s| ==> s[i] != s[j]
  }

  predicate TriOk(t: Tri, k: nat) {
    t.a < k && t.b < k && t.c < k && t.a != t.b && t.b != t.c && t.a != t.c
  }

  /** The fan's state: the loop that is left, lo at its position 0 and up at
      position p, and the faces split off so far. */
  predicate FanState(k: nat, loop: seq<nat>, p: nat, tris: seq<Tri>) {
    && 3 <= |loop| && 1 <= p < |loop|
    && Unique(loop) && (forall i :: 0 <= i < |loop| ==> loop[i] < k)
    && |tris| + |loop| == k
    && forall i :: 0 <= i < |tris| ==> TriOk(tris[i], k)
  }

  /** connect(lo.Lnext, lo) splits off the face lo.Org, lo.Dst, lo.Lnext.Dst. */
  function ClipLo(loop: seq<nat>): (r: seq<nat>)
    requires |loop| >= 3
    ensures |r| == |loop| - 1
  {
    [loop[0]] + loop[2..]
  }

  /** connect(up, up.Lprev) splits off the face up.Lprev.Org, up.Org, up.Dst. */
  function ClipUp(loop: seq<nat>, p: nat): (r: seq<nat>)
    requires 1 <= p < |loop| - 1
    ensures |r| == |loop| - 1
  {
    loop[..p] + loop[p + 1..]
  }

  /** lo = lo.Lprev: the loop is read from one position earlier. */
  function Back(loop: seq<nat>): (r: seq<nat>)
    requires |loop| >= 1
    ensures |r| == |loop|
  {
    [loop[|loop| - 1]] + loop[..|loop| - 1]
  }

  lemma ClipLoStep(k: nat, loop: seq<nat>, p: nat, tris: seq<Tri>)
    requires FanState(k, loop, p, tris) && p != 1 && p != |loop| - 1
    ensures FanState(k, ClipLo(loop), p - 1, tris + [Tri(loop[0], loop[1], loop[2])])
    ensures p - 1 != |ClipLo(loop)| - 1
  {
    var l' := ClipLo(loop);
    assert forall i :: 0 <= i < |l'| ==> l'[i] == loop[if i == 0 then 0 else i + 1];
  }

  lemma ClipUpStep(k: nat, loop: seq<nat>, p: nat, tris: seq<Tri>)
    requires FanState(k, loop, p, tris) && p != 1 && p != |loop| - 1
    ensures FanState(k, ClipUp(loop, p), p - 1, tris + [Tri(loop[p - 1], loop[p], loop[p + 1])])
    ensures p - 1 != |ClipUp(loop, p)| - 1
  {
    var l' := ClipUp(loop, p);
    assert forall i :: 0 <= i < |l'| ==> l'[i] == loop[if i < p then i else i + 1];
  }

  lemma BackStep(k: nat, loop: seq<nat>, p: nat, tris: seq<Tri>)
    requires FanState(k, loop, p, tris) && p != |loop| - 1
    ensures FanState(k, Back(loop), p + 1, tris)
  {
    var l' := Back(loop);
    assert forall i :: 0 <= i < |l'| ==> l'[i] == loop[if i == 0 then |loop| - 1 else i - 1];
  }

  /** The two walks that start tessellateMonoRegion: back from anEdge over
      edges going left, then forward over edges going right. They stop, on a
      loop whose vertices are not all at one position, at an edge whose
      origin lies strictly right of its destination. */
  method FindRightmost(ps: seq<Pt>) returns (up: nat)
    requires |ps| >= 2 && NotAllEqual(ps)
    ensures up < |ps| && !VertLeq(ps[up], ps[Succ(up, |ps|)])
  {
    var k := |ps|;
    up := 0;
    ghost var w1 := RisingEdge(ps);
    while VertLeq(ps[Succ(up, k)], ps[up])
      invariant up < k
      decreases if up >= w1 then up - w1 else up + k - w1
    {
      up := Pred(up, k);
    }
    ghost var w2 := FallingEdge(ps);
    while VertLeq(ps[up], ps[Succ(up, k)])
      invariant up < k
      decreases if w2 >= up then w2 - up else w2 + k - up
    {
      up := Succ(up, k);
    }
  }

  /** tessellateMonoRegion on a face loop of k = |ps| vertices whose vertex i
      sits at ps[i] and whose anEdge starts at vertex 0. The orientation tests
      are `sign`, which stands for edgeSign on the monotone chains (where its
      ordering assertion holds); the structure below does not depend on it.
      Every face split off has three distinct loop vertices, k − 3 faces are
      split off, one per edge that connect adds, and the face itself is left
      with exactly three vertices of the loop. Each face split off is an ear
      of the loop as it stood then (History), and the ears' middle vertices
      together with the three left are a permutation of the loop. */
  method TessellateMonoRegion(ps: seq<Pt>, sign: (Pt, Pt, Pt) -> real) returns (tris: seq<Tri>, rest: seq<nat>)
    requires |ps| >= 3 && NotAllEqual(ps)
    ensures |tris| == |ps| - 3 && forall i :: 0 <= i < |tris| ==> TriOk(tris[i], |ps|)
    ensures |rest| == 3 && Unique(rest) && forall i :: 0 <= i < 3 ==> rest[i] < |ps|
    ensures exists hs :: History(Rotation(0, |ps|), tris, hs, rest)
    ensures multiset(Apexes(tris)) + multiset(rest) == multiset(Rotation(0, |ps|))
  {
    var k := |ps|;
    var up := FindRightmost(ps);
    // lo = up.Lprev: the loop is read from lo.Org, with up at position 1.
    var loop := Rotation(Pred(up, k), k);
    RotationUnique(Pred(up, k), k);
    tris, rest := Fan(ps, sign, loop);
    ghost var hs :| History(loop, tris, hs, rest);
    RotationIsRot(Pred(up, k), k);
    HistoryReread(Rotation(0, k), loop, tris, hs, rest);
    ApexesCoverLoop(Rotation(0, k), tris, hs, rest);
  }

  /** The loop read from any start is a reading of the loop read from 0. */
  lemma RotationIsRot(start: nat, k: nat)
    requires start < k
    ensures IsRot(Rotation(0, k), Rotation(start, k))
  {
    assert Rotation(start, k) == Rot(Rotation(0, k), start);
  }

  lemma RotationUnique(start: nat, k: nat)
    requires start < k
    ensures Unique(Rotation(start, k))
  {
    var loop := Rotation(start, k);
  }

  /** The main loop and the closing fan of tessellateMonoRegion, from lo at
      position 0 and up at position 1 of the loop. */
  method Fan(ps: seq<Pt>, sign: (Pt, Pt, Pt) -> real, loop0: seq<nat>) returns (tris: seq<Tri>, rest: seq<nat>)
    requires FanState(|ps|, loop0, 1, [])
    ensures |tris| == |ps| - 3 && forall i :: 0 <= i < |tris| ==> TriOk(tris[i], |ps|)
    ensures |rest| == 3 && Unique(rest) && forall i :: 0 <= i < 3 ==> rest[i] < |ps|
    ensures exists hs :: History(loop0, tris, hs, rest)
    ensures multiset(Apexes(tris)) + multiset(rest) == multiset(loop0)
  {
    var k := |ps|;
    var loop: seq<nat>, p: nat := loop0, 1;
    tris := [];
    ghost var hs: seq<seq<nat>> := [];
    HistoryStart(loop0);
    while p != |loop| - 1
      invariant FanState(k, loop, p, tris) && History(loop0, tris, hs, loop)
      decreases |loop| - p, |loop|
    {
      ghost var gap := |loop| - p;
      if VertLeq(ps[loop[p + 1]], ps[loop[0]]) {
        // up.Dst is on the left: form triangles from lo.Org.
        while p != 1 && (EdgeGoesLeft(ps[loop[1]], ps[loop[2]])
                         || sign(ps[loop[0]], ps[loop[1]], ps[loop[2]]) <= 0.0)
          invariant FanState(k, loop, p, tris) && p != |loop| - 1 && |loop| - p == gap
          invariant History(loop0, tris, hs, loop)
          decreases |loop|
        {
          ClipLoStep(k, loop, p, tris);
          EarLo(loop0, tris, hs, loop);
          tris, hs := tris + [Tri(loop[0], loop[1], loop[2])], hs + [loop];
          loop, p := ClipLo(loop), p - 1;
        }
        BackStep(k, loop, p, tris);
        HistoryBack(loop0, tris, hs, loop);
        loop, p := Back(loop), p + 1;
      } else {
        // lo.Org is on the left: form triangles from up.Dst.
        while p != 1 && (EdgeGoesRight(ps[loop[p - 1]], ps[loop[p]])
                         || sign(ps[loop[p + 1]], ps[loop[p]], ps[loop[p - 1]]) >= 0.0)
          invariant FanState(k, loop, p, tris) && p != |loop| - 1 && |loop| - p == gap
          invariant History(loop0, tris, hs, loop)
          decreases |loop|
        {
          ClipUpStep(k, loop, p, tris);
          EarUp(loop0, tris, hs, loop, p);
          tris, hs := tris + [Tri(loop[p - 1], loop[p], loop[p + 1])], hs + [loop];
          loop, p := ClipUp(loop, p), p - 1;
        }
        p := p + 1;
      }
    }
    // lo.Org == up.Dst is the leftmost vertex: fan out from it.
    while p != 2
      invariant FanState(k, loop, p, tris) && p == |loop| - 1
      invariant History(loop0, tris, hs, loop)
      decreases |loop|
    {
      ClipLoFinal(k, loop, p, tris);
      EarLo(loop0, tris, hs, loop);
      tris, hs := tris + [Tri(loop[0], loop[1], loop[2])], hs + [loop];
      loop, p := ClipLo(loop), p - 1;
    }
    rest := loop;
    ApexesCoverLoop(loop0, tris, hs, rest);
  }

  /** Clipping at lo splits off the ear at position 1. */
  lemma EarLo(loop0: seq<nat>, tris: seq<Tri>, hs: seq<seq<nat>>, loop: seq<nat>)
    requires History(loop0, tris, hs, loop) && |loop| >= 3
    ensures History(loop0, tris + [Tri(loop[0], loop[1], loop[2])], hs + [loop], ClipLo(loop))
  {
    assert ClipLo(loop) == Cut(loop, 1);
    HistoryClip(loop0, tris, hs, loop, 1);
  }

  /** Clipping at up splits off the ear at position p. */
  lemma EarUp(loop0: seq<nat>, tris: seq<Tri>, hs: seq<seq<nat>>, loop: seq<nat>, p: nat)
    requires History(loop0, tris, hs, loop) && 1 <= p < |loop| - 1
    ensures History(loop0, tris + [Tri(loop[p - 1], loop[p], loop[p + 1])], hs + [loop], ClipUp(loop, p))
  {
    assert ClipUp(loop, p) == Cut(loop, p);
    HistoryClip(loop0, tris, hs, loop, p);
  }

  /** A history of a loop is a history of any loop it is a reading of. */
  lemma HistoryReread(a: seq<nat>, loop0: seq<nat>, tris: seq<Tri>, hs: seq<seq<nat>>, cur: seq<nat>)
    requires IsRot(a, loop0) && History(loop0, tris, hs, cur)
    ensures History(a, tris, hs, cur)
  {
    RotTrans(a, loop0, (hs + [cur])[0]);
  }

  lemma ClipLoFinal(k: nat, loop: seq<nat>, p: nat, tris: seq<Tri>)
    requires FanState(k, loop, p, tris) && p == |loop| - 1 && p != 2
    ensures FanState(k, ClipLo(loop), p - 1, tris + [Tri(loop[0], loop[1], loop[2])])
    ensures p - 1 == |ClipLo(loop)| - 1
  {
    var l' := ClipLo(loop);
    assert forall i :: 0 <= i < |l'| ==> l'[i] == loop[if i == 0 then 0 else i + 1];
  }

  /** The loop a read from its position r on: the same cycle of vertices. */
  function Rot(a: seq<nat>, r: nat): (b: seq<nat>)
    requires r <= |a|
    ensures |b| == |a|
  {
    a[r..] + a[..r]
  }

  /** b is the loop a, read from some position. */
  ghost predicate IsRot(a: seq<nat>, b: seq<nat>) {
    exists r :: 0 <= r <= |a| && b == Rot(a, r)
  }

  /** The loop without its vertex at position j. */
  function Cut(a: seq<nat>, j: nat): (b: seq<nat>)
    requires j < |a|
    ensures |b| == |a| - 1
  {
    a[..j] + a[j + 1..]
  }

  /** Splitting off t from the loop `before` leaves the loop `after`: t is
      three consecutive vertices of `before`, and `after` is `before`
      without the middle one, read from any position. */
  ghost predicate EarOf(before: seq<nat>, t: Tri, after: seq<nat>) {
    exists j :: 1 <= j < |before| - 1 && t == Tri(before[j - 1], before[j], before[j + 1])
      && IsRot(Cut(before, j), after)
  }

  /** The faces split off so far, each an ear of the loop as it was at that
      moment: hs[i] is the loop when tris[i] was split off, the first of them
      (or cur, when none was) is loop0 read from some position, and cur is
      what the last split left, read from some position. */
  ghost predicate History(loop0: seq<nat>, tris: seq<Tri>, hs: seq<seq<nat>>, cur: seq<nat>) {
    && |hs| == |tris|
    && IsRot(loop0, (hs + [cur])[0])
    && forall i :: 0 <= i < |tris| ==> EarOf(hs[i], tris[i], (hs + [cur])[i + 1])
  }

  /** Reading a loop one position earlier keeps it a reading of the same loop. */
  lemma RotBack(a: seq<nat>, b: seq<nat>)
    requires IsRot(a, b) && |a| >= 1
    ensures IsRot(a, Back(b))
  {
    var r :| 0 <= r <= |a| && b == Rot(a, r);
    var n := |a|;
    if r == 0 || r == n {
      assert b == a;
      assert Back(b) == Rot(a, n - 1);
    } else {
      assert b[n - 1] == a[r - 1];
      assert b[..n - 1] == a[r..] + a[..r - 1];
      assert Back(b) == Rot(a, r - 1);
    }
  }

  lemma RotSelf(a: seq<nat>)
    ensures IsRot(a, a)
  {
    assert a == Rot(a, 0);
  }

  lemma RotRotNear(a: seq<nat>, r1: nat, r2: nat)
    requires r1 <= |a| && r2 <= |a| - r1
    ensures Rot(Rot(a, r1), r2) == Rot(a, r1 + r2)
  {
    var b := Rot(a, r1);
    assert b[r2..] == a[r1 + r2..] + a[..r1];
    assert b[..r2] == a[r1..r1 + r2];
  }

  lemma RotRotFar(a: seq<nat>, r1: nat, r2: nat)
    requires r1 <= |a| && |a| - r1 < r2 <= |a|
    ensures Rot(Rot(a, r1), r2) == Rot(a, r2 - (|a| - r1))
  {
    var b := Rot(a, r1);
    var t := r2 - (|a| - r1);
    assert b[r2..] == a[t..r1];
    assert b[..r2] == a[r1..] + a[..t];
  }

  /** A reading of a reading of a loop is a reading of that loop. */
  lemma RotTrans(a: seq<nat>, b: seq<nat>, c: seq<nat>)
    requires IsRot(a, b) && IsRot(b, c)
    ensures IsRot(a, c)
  {
    var r1 :| 0 <= r1 <= |a| && b == Rot(a, r1);
    var r2 :| 0 <= r2 <= |b| && c == Rot(b, r2);
    if r2 <= |a| - r1 {
      RotRotNear(a, r1, r2);
    } else {
      RotRotFar(a, r1, r2);
    }
  }

  lemma HistoryStart(loop0: seq<nat>)
    ensures History(loop0, [], [], loop0)
  {
    RotSelf(loop0);
    assert ([] + [loop0])[0] == loop0;
  }

  /** One more ear, split off the loop the history ends with. */
  lemma HistoryExtend(loop0: seq<nat>, tris: seq<Tri>, hs: seq<seq<nat>>, h: seq<nat>, t: Tri, cur: seq<nat>)
    requires History(loop0, tris, hs, h) && EarOf(h, t, cur)
    ensures History(loop0, tris + [t], hs + [h], cur)
  {
    var hs', tris' := hs + [h], tris + [t];
    assert (hs' + [cur])[|tris|] == h && (hs' + [cur])[|tris| + 1] == cur;
    assert (hs' + [cur])[0] == (hs + [h])[0];
    forall i | 0 <= i < |tris'| ensures EarOf(hs'[i], tris'[i], (hs' + [cur])[i + 1]) {
      if i < |tris| {
        assert hs'[i] == hs[i] && tris'[i] == tris[i];
        assert (hs' + [cur])[i + 1] == (hs + [h])[i + 1];
      }
    }
  }

  /** Moving lo back one vertex does not change the history. */
  lemma HistoryBack(loop0: seq<nat>, tris: seq<Tri>, hs: seq<seq<nat>>, cur: seq<nat>)
    requires History(loop0, tris, hs, cur) && |cur| >= 1
    ensures History(loop0, tris, hs, Back(cur))
  {
    var n := |tris|;
    if n == 0 {
      assert (hs + [cur])[0] == cur;
      RotBack(loop0, cur);
      assert (hs + [Back(cur)])[0] == Back(cur);
    } else {
      assert (hs + [cur])[n] == cur;
      EarBack(hs[n - 1], tris[n - 1], cur);
      HistoryRelast(loop0, tris, hs, cur, Back(cur));
    }
  }

  /** The loop the history ends with may be replaced by any other that the
      last split leaves. */
  lemma HistoryRelast(loop0: seq<nat>, tris: seq<Tri>, hs: seq<seq<nat>>, cur: seq<nat>, cur': seq<nat>)
    requires History(loop0, tris, hs, cur) && |tris| >= 1
    requires EarOf(hs[|tris| - 1], tris[|tris| - 1], cur')
    ensures History(loop0, tris, hs, cur')
  {
    var n := |tris|;
    assert (hs + [cur'])[0] == hs[0] == (hs + [cur])[0];
    assert (hs + [cur'])[n] == cur';
    forall i | 0 <= i < n - 1 ensures EarOf(hs[i], tris[i], (hs + [cur'])[i + 1]) {
      assert (hs + [cur'])[i + 1] == hs[i + 1] == (hs + [cur])[i + 1];
    }
  }

  lemma EarBack(h: seq<nat>, t: Tri, cur: seq<nat>)
    requires EarOf(h, t, cur)
    ensures EarOf(h, t, Back(cur))
  {
    var j :| 1 <= j < |h| - 1 && t == Tri(h[j - 1], h[j], h[j + 1]) && IsRot(Cut(h, j), cur);
    RotBack(Cut(h, j), cur);
  }

  /** Splitting off the ear at position j of the current loop. */
  lemma HistoryClip(loop0: seq<nat>, tris: seq<Tri>, hs: seq<seq<nat>>, cur: seq<nat>, j: nat)
    requires History(loop0, tris, hs, cur) && 1 <= j < |cur| - 1
    ensures History(loop0, tris + [Tri(cur[j - 1], cur[j], cur[j + 1])], hs + [cur], Cut(cur, j))
  {
    RotSelf(Cut(cur, j));
    assert EarOf(cur, Tri(cur[j - 1], cur[j], cur[j + 1]), Cut(cur, j));
    HistoryExtend(loop0, tris, hs, cur, Tri(cur[j - 1], cur[j], cur[j + 1]), Cut(cur, j));
  }

  /** The middle vertices of the faces split off, in order. */
  function Apexes(tris: seq<Tri>): (r: seq<nat>)
    ensures |r| == |tris| && forall i :: 0 <= i < |tris| ==> r[i] == tris[i].b
  {
    if tris == [] then [] else Apexes(tris[..|tris| - 1]) + [tris[|tris| - 1].b]
  }

  lemma RotMultiset(a: seq<nat>, b: seq<nat>)
    requires IsRot(a, b)
    ensures multiset(b) == multiset(a)
  {
    var r :| 0 <= r <= |a| && b == Rot(a, r);
    assert a == a[..r] + a[r..];
  }

  /** Splitting off an ear removes exactly its apex from the loop. */
  lemma EarMultiset(h: seq<nat>, t: Tri, cur: seq<nat>)
    requires EarOf(h, t, cur)
    ensures multiset(h) == multiset(cur) + multiset{t.b}
  {
    var j :| 1 <= j < |h| - 1 && t == Tri(h[j - 1], h[j], h[j + 1]) && IsRot(Cut(h, j), cur);
    RotMultiset(Cut(h, j), cur);
    CutMultiset(h, j);
  }

  lemma CutMultiset(h: seq<nat>, j: nat)
    requires j < |h|
    ensures multiset(h) == multiset(Cut(h, j)) + multiset{h[j]}
  {
    assert h == h[..j] + ([h[j]] + h[j + 1..]);
    assert multiset(h) == multiset(h[..j]) + (multiset{h[j]} + multiset(h[j + 1..]));
  }

  /** The history before the last split, and that split. */
  lemma HistoryLast(loop0: seq<nat>, tris: seq<Tri>, hs: seq<seq<nat>>, cur: seq<nat>)
    requires History(loop0, tris, hs, cur) && |tris| >= 1
    ensures History(loop0, tris[..|tris| - 1], hs[..|tris| - 1], hs[|tris| - 1])
    ensures EarOf(hs[|tris| - 1], tris[|tris| - 1], cur)
  {
    var n := |tris|;
    var tris1, hs1, h := tris[..n - 1], hs[..n - 1], hs[n - 1];
    assert (hs + [cur])[n] == cur;
    forall i | 0 <= i < n - 1 ensures EarOf(hs1[i], tris1[i], (hs1 + [h])[i + 1]) {
      assert hs1[i] == hs[i] && tris1[i] == tris[i];
      assert (hs1 + [h])[i + 1] == hs[i + 1] == (hs + [cur])[i + 1];
    }
    assert (hs1 + [h])[0] == hs[0] == (hs + [cur])[0];
  }

  /** Every vertex of the loop is the apex of exactly one face split off or
      stays in what is left: the apexes and the rest are a permutation of
      the loop. */
  lemma {:induction false} ApexesCoverLoop(loop0: seq<nat>, tris: seq<Tri>, hs: seq<seq<nat>>, cur: seq<nat>)
    requires History(loop0, tris, hs, cur)
    ensures multiset(Apexes(tris)) + multiset(cur) == multiset(loop0)
    decreases |tris|
  {
    var n := |tris|;
    if n == 0 {
      assert (hs + [cur])[0] == cur;
      RotMultiset(loop0, cur);
    } else {
      HistoryLast(loop0, tris, hs, cur);
      EarMultiset(hs[n - 1], tris[n - 1], cur);
      ApexesCoverLoop(loop0, tris[..n - 1], hs[..n - 1], hs[n - 1]);
      ApexesSnoc(tris);
    }
  }

  lemma ApexesSnoc(tris: seq<Tri>)
    requires |tris| >= 1
    ensures multiset(Apexes(tris)) == multiset(Apexes(tris[..|tris| - 1])) + multiset{tris[|tris| - 1].b}
  {
  }

  // ---------------------------------------------------------------------------
  // outputPolymesh: numbering

  /** One face of the face ring as the output passes see it: its handle, its
      inside flag, faceArea, and along its Lnext loop from anEdge the Org of
      every edge and the Rface of every edge (NIL for none). */
  datatype FaceView = FaceView(id: int, inside: bool, area: real, orgs: seq<int>, rfaces: seq<int>)

  predicate ViewOk(f: FaceView, nv: nat, nf: nat) {
    && 0 <= f.id < nf && |f.rfaces| == |f.orgs|
    && (forall j :: 0 <= j < |f.orgs| ==> 0 <= f.orgs[j] < nv)
    && (forall j :: 0 <= j < |f.rfaces| ==> f.rfaces[j] == NIL || 0 <= f.rfaces[j] < nf)
  }

  /** The faces of the ring, each once, over vertex and face arenas of nv
      and nf records. */
  predicate ViewsOk(fs: seq<FaceView>, nv: nat, nf: nat) {
    && (forall i :: 0 <= i < |fs| ==> ViewOk(fs[i], nv, nf))
    && (forall i, j :: 0 <= i < j < |fs| ==> fs[i].id != fs[j].id)
  }

  /** The faces outputPolymesh writes out: the inside ones, and with
      noEmptyPolygons only those of non-zero area. In floating point
      |area| < leastNonzeroMagnitude holds exactly when the area is zero. */
  predicate Kept(f: FaceView, noEmpty: bool) {
    f.inside && !(noEmpty && f.area == 0.0)
  }

  function KeptCount(fs: seq<FaceView>, noEmpty: bool): (n: nat)
    ensures n <= |fs|
  {
    if fs == [] then 0
    else KeptCount(fs[..|fs| - 1], noEmpty) + (if Kept(fs[|fs| - 1], noEmpty) then 1 else 0)
  }

  /** The origins of the kept faces' edges, face after face. */
  function Flat(fs: seq<FaceView>, noEmpty: bool): seq<int> {
    if fs == [] then []
    else Flat(fs[..|fs| - 1], noEmpty) + (if Kept(fs[|fs| - 1], noEmpty) then fs[|fs| - 1].orgs else [])
  }

  /** The distinct elements of s in the order of their first occurrence. */
  function FirstSeen(s: seq<int>): seq<int> {
    if s == [] then []
    else
      var seen := FirstSeen(s[..|s| - 1]);
      if s[|s| - 1] in seen then seen else seen + [s[|s| - 1]]
  }

  lemma {:induction false} FirstSeenFacts(s: seq<int>)
    ensures Unique(FirstSeen(s))
    ensures forall x :: x in FirstSeen(s) <==> x in s
    ensures forall k :: 0 <= k < |FirstSeen(s)| ==> FirstSeen(s)[k] in s
  {
    if s != [] {
      var init := s[..|s| - 1];
      FirstSeenFacts(init);
      assert s == init + [s[|s| - 1]];
    }
  }

  /** Every vertex in `seen` is numbered by its position there; every other
      vertex is Undef. */
  ghost predicate NumberedBy(vn: seq<int>, seen: seq<int>) {
    forall v :: 0 <= v < |vn| ==>
      if v in seen then 0 <= vn[v] < |seen| && seen[vn[v]] == v else vn[v] == Undef
  }

  lemma NumberStep(vn: seq<int>, seen: seq<int>, v: int, count: nat)
    requires NumberedBy(vn, seen) && count == |seen| && 0 <= v < |vn|
    ensures v in seen <==> vn[v] != Undef
    ensures v !in seen ==> NumberedBy(vn[v := count], seen + [v])
  {
    if v !in seen {
      var vn', seen' := vn[v := count], seen + [v];
      forall u | 0 <= u < |vn'|
        ensures if u in seen' then 0 <= vn'[u] < |seen'| && seen'[vn'[u]] == u else vn'[u] == Undef
      {
        if u != v && u in seen {
          assert seen'[vn[u]] == seen[vn[u]];
        }
      }
    }
  }

  lemma FirstSeenSnoc(s: seq<int>, v: int)
    ensures FirstSeen(s + [v]) == if v in FirstSeen(s) then FirstSeen(s) else FirstSeen(s) + [v]
  {
    assert (s + [v])[..|s + [v]| - 1] == s;
  }

  lemma FlatSnoc(fs: seq<FaceView>, i: nat, noEmpty: bool)
    requires i < |fs|
    ensures Flat(fs[..i + 1], noEmpty) == Flat(fs[..i], noEmpty) + (if Kept(fs[i], noEmpty) then fs[i].orgs else [])
    ensures KeptCount(fs[..i + 1], noEmpty) == KeptCount(fs[..i], noEmpty) + (if Kept(fs[i], noEmpty) then 1 else 0)
  {
    assert fs[..i + 1][..i] == fs[..i];
  }

  /** The walk along one kept face's loop in the numbering pass. */
  method NumberLoop(orgs: seq<int>, vn: seq<int>, count: nat, ghost before: seq<int>)
    returns (vn': seq<int>, count': nat)
    requires NumberedBy(vn, FirstSeen(before)) && count == |FirstSeen(before)|
    requires forall j :: 0 <= j < |orgs| ==> 0 <= orgs[j] < |vn|
    ensures |vn'| == |vn| && NumberedBy(vn', FirstSeen(before + orgs)) && count' == |FirstSeen(before + orgs)|
  {
    vn', count' := vn, count;
    ghost var seen := FirstSeen(before);
    var j := 0;
    assert before + orgs[..0] == before;
    while j < |orgs|
      invariant 0 <= j <= |orgs| && |vn'| == |vn|
      invariant seen == FirstSeen(before + orgs[..j]) && NumberedBy(vn', seen) && count' == |seen|
    {
      var v := orgs[j];
      NumberStep(vn', seen, v, count');
      assert before + orgs[..j + 1] == (before + orgs[..j]) + [v];
      FirstSeenSnoc(before + orgs[..j], v);
      if vn'[v] == Undef {
        vn' := vn'[v := count'];
        count' := count' + 1;
        seen := seen + [v];
      }
      j := j + 1;
    }
    assert orgs[..j] == orgs;
  }

  lemma FaceNumberStep(fs: seq<FaceView>, nv: nat, nf: nat, i: nat, noEmpty: bool, fn0: seq<int>, fn: seq<int>)
    requires ViewsOk(fs, nv, nf) && i < |fs| && |fn0| == nf
    requires forall a :: 0 <= a < i ==>
      fn0[fs[a].id] == if Kept(fs[a], noEmpty) then KeptCount(fs[..a], noEmpty) else Undef
    requires fn == fn0[fs[i].id := if Kept(fs[i], noEmpty) then KeptCount(fs[..i], noEmpty) else Undef]
    ensures forall a :: 0 <= a < i + 1 ==>
      fn[fs[a].id] == if Kept(fs[a], noEmpty) then KeptCount(fs[..a], noEmpty) else Undef
  {
    assert ViewOk(fs[i], nv, nf);
  }

  /** The numbering pass of outputPolymesh: every vertex is first marked
      Undef; then the kept faces, in ring order, number their not yet
      numbered vertices 0, 1, ... along their loops, and take the next face
      number; every other face is Undef. */
  method NumberFaces(fs: seq<FaceView>, nv: nat, nf: nat, noEmpty: bool, polySize: int)
    returns (vn: seq<int>, fn: seq<int>, vertexCount: nat, faceCount: nat)
    requires ViewsOk(fs, nv, nf)
    requires forall i :: 0 <= i < |fs| && Kept(fs[i], noEmpty) ==> |fs[i].orgs| <= polySize
    ensures |vn| == nv && |fn| == nf
    ensures NumberedBy(vn, FirstSeen(Flat(fs, noEmpty))) && vertexCount == |FirstSeen(Flat(fs, noEmpty))|
    ensures faceCount == KeptCount(fs, noEmpty)
    ensures forall i :: 0 <= i < |fs| ==>
      fn[fs[i].id] == if Kept(fs[i], noEmpty) then KeptCount(fs[..i], noEmpty) else Undef
  {
    vn := seq(nv, _ => Undef);
    fn := seq(nf, _ => Undef);
    vertexCount, faceCount := 0, 0;
    var i := 0;
    while i < |fs|
      invariant 0 <= i <= |fs| && |vn| == nv && |fn| == nf
      invariant NumberedBy(vn, FirstSeen(Flat(fs[..i], noEmpty)))
      invariant vertexCount == |FirstSeen(Flat(fs[..i], noEmpty))|
      invariant faceCount == KeptCount(fs[..i], noEmpty)
      invariant forall a :: 0 <= a < i ==>
        fn[fs[a].id] == if Kept(fs[a], noEmpty) then KeptCount(fs[..a], noEmpty) else Undef
    {
      var f := fs[i];
      assert ViewOk(f, nv, nf);
      ghost var fn0 := fn;
      fn := fn[f.id := Undef];
      FlatSnoc(fs, i, noEmpty);
      if f.inside && !(noEmpty && f.area == 0.0) {
        vn, vertexCount := NumberLoop(f.orgs, vn, vertexCount, Flat(fs[..i], noEmpty));
        fn := fn[f.id := faceCount];
        faceCount := faceCount + 1;
      } else {
        assert Flat(fs[..i], noEmpty) + [] == Flat(fs[..i], noEmpty);
      }
      FaceNumberStep(fs, nv, nf, i, noEmpty, fn0, fn);
      i := i + 1;
    }
    assert fs[..i] == fs;
  }

  // ---------------------------------------------------------------------------
  // outputPolymesh: the element layout

  /** getNeighbourFace: the number of the face on an edge's right, or Undef
      when there is none or it is not inside. */
  function GetNeighbourFace(rface: int, fInside: seq<bool>, fn: seq<int>): (r: int)
    requires rface == NIL || 0 <= rface < |fInside|
    requires |fn| == |fInside|
    ensures rface == NIL || !fInside[rface] ==> r == Undef
    ensures rface != NIL && fInside[rface] ==> r == fn[rface]
  {
    if rface == NIL then Undef
    else if !fInside[rface] then Undef
    else fn[rface]
  }

  /** The neighbour entry of an edge is the output number of the face on its
      right when that face is written out, and Undef otherwise. */
  lemma NeighbourMeaning(fs: seq<FaceView>, fn: seq<int>, fInside: seq<bool>, noEmpty: bool, a: nat)
    requires |fn| == |fInside| && a < |fs| && 0 <= fs[a].id < |fn|
    requires fInside[fs[a].id] == fs[a].inside
    requires fn[fs[a].id] == if Kept(fs[a], noEmpty) then KeptCount(fs[..a], noEmpty) else Undef
    ensures GetNeighbourFace(fs[a].id, fInside, fn) == if Kept(fs[a], noEmpty) then KeptCount(fs[..a], noEmpty) else Undef
    ensures GetNeighbourFace(fs[a].id, fInside, fn) != Undef <==> Kept(fs[a], noEmpty)
  {
  }

  /** The entries one face occupies from `base` on: the numbers of its loop's
      vertices padded with Undef to `size` and, for connected polygons, the
      neighbour of each edge, padded the same way. */
  ghost predicate RowAt(elements: seq<int>, base: int, f: FaceView, vn: seq<int>, fn: seq<int>,
                        fInside: seq<bool>, size: nat, connected: bool)
    requires ViewOk(f, |vn|, |fn|) && |fInside| == |fn|
  {
    && 0 <= base && base + (if connected then 2 * size else size) <= |elements|
    && (forall j :: 0 <= j < size ==>
          elements[base + j] == if j < |f.orgs| then vn[f.orgs[j]] else Undef)
    && (connected ==> forall j :: 0 <= j < size ==>
          elements[base + size + j] ==
            if j < |f.orgs| then GetNeighbourFace(f.rfaces[j], fInside, fn) else Undef)
  }

  /** Every kept face, k-th among the kept ones, occupies entries k·stride
      onward; nothing else is written. */
  ghost predicate Layout(elements: seq<int>, fs: seq<FaceView>, noEmpty: bool, vn: seq<int>, fn: seq<int>,
                         fInside: seq<bool>, size: nat, connected: bool)
    requires ViewsOk(fs, |vn|, |fn|) && |fInside| == |fn|
  {
    var stride := if connected then 2 * size else size;
    && |elements| == KeptCount(fs, noEmpty) * stride
    && forall i :: 0 <= i < |fs| && Kept(fs[i], noEmpty) ==>
         ViewOk(fs[i], |vn|, |fn|) &&
         RowAt(elements, KeptCount(fs[..i], noEmpty) * stride, fs[i], vn, fn, fInside, size, connected)
  }

  /** The entries of one face. */
  function Row(f: FaceView, vn: seq<int>, fn: seq<int>, fInside: seq<bool>, size: nat, connected: bool)
    : (r: seq<int>)
    requires ViewOk(f, |vn|, |fn|) && |fInside| == |fn| && |f.orgs| <= size
    ensures |r| == if connected then 2 * size else size
    ensures RowAt(r, 0, f, vn, fn, fInside, size, connected)
  {
    var pad := seq(size - |f.orgs|, _ => Undef);
    var verts := seq(|f.orgs|, j requires 0 <= j < |f.orgs| => vn[f.orgs[j]]) + pad;
    if connected then
      verts + seq(|f.orgs|, j requires 0 <= j < |f.orgs| => GetNeighbourFace(f.rfaces[j], fInside, fn)) + pad
    else verts
  }

  lemma RowAtPrefix(e: seq<int>, t: seq<int>, base: int, f: FaceView, vn: seq<int>, fn: seq<int>,
                    fInside: seq<bool>, size: nat, connected: bool)
    requires ViewOk(f, |vn|, |fn|) && |fInside| == |fn|
    requires RowAt(e, base, f, vn, fn, fInside, size, connected)
    ensures RowAt(e + t, base, f, vn, fn, fInside, size, connected)
  {
    var e' := e + t;
    assert forall j :: 0 <= j < |e| ==> e'[j] == e[j];
  }

  lemma RowAtAppend(e: seq<int>, r: seq<int>, f: FaceView, vn: seq<int>, fn: seq<int>,
                    fInside: seq<bool>, size: nat, connected: bool)
    requires ViewOk(f, |vn|, |fn|) && |fInside| == |fn|
    requires RowAt(r, 0, f, vn, fn, fInside, size, connected)
    ensures RowAt(e + r, |e|, f, vn, fn, fInside, size, connected)
  {
    var e' := e + r;
    assert forall j :: 0 <= j < |r| ==> e'[|e| + j] == r[j];
  }

  lemma {:induction false} MulStep(a: nat, b: nat, s: nat)
    requires a < b
    ensures a * s + s <= b * s
    decreases b - a
  {
    assert (a + 1) * s == a * s + s;
    if a + 1 < b {
      MulStep(a + 1, b, s);
    }
  }

  /** Appending to the elements keeps the rows of the faces before i. */
  lemma LayoutAppend(elements: seq<int>, row: seq<int>, fs: seq<FaceView>, i: nat, noEmpty: bool, vn: seq<int>,
                     fn: seq<int>, fInside: seq<bool>, size: nat, connected: bool)
    requires ViewsOk(fs, |vn|, |fn|) && |fInside| == |fn| && i < |fs|
    requires Layout(elements, fs[..i], noEmpty, vn, fn, fInside, size, connected)
    ensures forall a :: 0 <= a < i && Kept(fs[a], noEmpty) ==>
      RowAt(elements + row, KeptCount(fs[..a], noEmpty) * (if connected then 2 * size else size), fs[a], vn, fn, fInside,
            size, connected)
  {
    var stride := if connected then 2 * size else size;
    forall a | 0 <= a < i && Kept(fs[a], noEmpty)
      ensures RowAt(elements + row, KeptCount(fs[..a], noEmpty) * stride, fs[a], vn, fn, fInside, size, connected)
    {
      assert fs[..i][a] == fs[a] && fs[..i][..a] == fs[..a];
      RowAtPrefix(elements, row, KeptCount(fs[..a], noEmpty) * stride, fs[a], vn, fn, fInside, size, connected);
    }
  }

  /** One face of the element pass: a kept face appends its row. */
  lemma LayoutStep(elements: seq<int>, fs: seq<FaceView>, i: nat, noEmpty: bool, vn: seq<int>, fn: seq<int>,
                   fInside: seq<bool>, size: nat, connected: bool)
    requires ViewsOk(fs, |vn|, |fn|) && |fInside| == |fn| && i < |fs|
    requires Kept(fs[i], noEmpty) ==> |fs[i].orgs| <= size
    requires Layout(elements, fs[..i], noEmpty, vn, fn, fInside, size, connected)
    ensures ViewOk(fs[i], |vn|, |fn|)
    ensures var elements' := if Kept(fs[i], noEmpty) then elements + Row(fs[i], vn, fn, fInside, size, connected)
                             else elements;
      Layout(elements', fs[..i + 1], noEmpty, vn, fn, fInside, size, connected)
  {
    var stride := if connected then 2 * size else size;
    var f := fs[i];
    assert ViewOk(f, |vn|, |fn|);
    FlatSnoc(fs, i, noEmpty);
    var row := if Kept(f, noEmpty) then Row(f, vn, fn, fInside, size, connected) else [];
    var elements' := elements + row;
    LayoutAppend(elements, row, fs, i, noEmpty, vn, fn, fInside, size, connected);
    if Kept(f, noEmpty) {
      assert (KeptCount(fs[..i], noEmpty) + 1) * stride == KeptCount(fs[..i], noEmpty) * stride + stride;
      RowAtAppend(elements, row, f, vn, fn, fInside, size, connected);
    } else {
      assert elements' == elements;
    }
    LayoutClose(elements', fs, i, noEmpty, vn, fn, fInside, size, connected);
  }

  /** The rows of the faces before i and the row of face i, if kept, lay out
      the first i + 1 faces. */
  lemma LayoutClose(elements: seq<int>, fs: seq<FaceView>, i: nat, noEmpty: bool, vn: seq<int>, fn: seq<int>,
                    fInside: seq<bool>, size: nat, connected: bool)
    requires ViewsOk(fs, |vn|, |fn|) && |fInside| == |fn| && i < |fs|
    requires |elements| == KeptCount(fs[..i + 1], noEmpty) * (if connected then 2 * size else size)
    requires forall a :: 0 <= a < i && Kept(fs[a], noEmpty) ==>
      RowAt(elements, KeptCount(fs[..a], noEmpty) * (if connected then 2 * size else size), fs[a], vn, fn, fInside,
            size, connected)
    requires Kept(fs[i], noEmpty) ==>
      RowAt(elements, KeptCount(fs[..i], noEmpty) * (if connected then 2 * size else size), fs[i], vn, fn, fInside,
            size, connected)
    ensures Layout(elements, fs[..i + 1], noEmpty, vn, fn, fInside, size, connected)
  {
    var stride := if connected then 2 * size else size;
    var prefix := fs[..i + 1];
    forall a | 0 <= a < i + 1 && Kept(prefix[a], noEmpty)
      ensures ViewOk(prefix[a], |vn|, |fn|)
      ensures RowAt(elements, KeptCount(prefix[..a], noEmpty) * stride, prefix[a], vn, fn, fInside, size, connected)
    {
      assert prefix[a] == fs[a];
      if a < i {
        assert prefix[..a] == fs[..a];
      } else {
        assert prefix[..a] == fs[..i];
      }
    }
  }

  /** The element pass of outputPolymesh: the rows of the kept faces in ring
      order. */
  method WriteElements(fs: seq<FaceView>, noEmpty: bool, vn: seq<int>, fn: seq<int>, fInside: seq<bool>,
                       size: nat, connected: bool) returns (elements: seq<int>)
    requires ViewsOk(fs, |vn|, |fn|) && |fInside| == |fn|
    requires forall i :: 0 <= i < |fs| && Kept(fs[i], noEmpty) ==> |fs[i].orgs| <= size
    ensures Layout(elements, fs, noEmpty, vn, fn, fInside, size, connected)
  {
    elements := [];
    var i := 0;
    while i < |fs|
      invariant 0 <= i <= |fs|
      invariant Layout(elements, fs[..i], noEmpty, vn, fn, fInside, size, connected)
    {
      var f := fs[i];
      LayoutStep(elements, fs, i, noEmpty, vn, fn, fInside, size, connected);
      if f.inside && !(noEmpty && f.area == 0.0) {
        var row := Row(f, vn, fn, fInside, size, connected);
        elements := elements + row;
      }
      i := i + 1;
    }
    assert fs[..i] == fs;
  }

  // ---------------------------------------------------------------------------
  // outputPolymesh: vertices and the whole pass

  /** The numbers given out are 0 ... |seen|−1, one per vertex of `seen`. */
  lemma NumberingIsDense(vn: seq<int>, seen: seq<int>)
    requires NumberedBy(vn, seen) && Unique(seen)
    requires forall k :: 0 <= k < |seen| ==> 0 <= seen[k] < |vn|
    ensures forall k :: 0 <= k < |seen| ==> vn[seen[k]] == k
    ensures forall v, w :: 0 <= v < |vn| && 0 <= w < |vn| && vn[v] == vn[w] != Undef ==> v == w
  {
    forall k | 0 <= k < |seen| ensures vn[seen[k]] == k {
      var v := seen[k];
      assert v in seen;
      assert seen[vn[v]] == v;
    }
  }

  /** The vertex pass: each numbered vertex of the vertex ring stores its
      coordinates at its number. */
  method WriteVertices(ring: seq<int>, vn: seq<int>, coords: seq<Vector3>, ghost seen: seq<int>, count: nat)
    returns (verts: seq<Vector3>)
    requires NumberedBy(vn, seen) && Unique(seen) && count == |seen| && |coords| == |vn|
    requires Unique(ring) && forall i :: 0 <= i < |ring| ==> 0 <= ring[i] < |vn|
    requires forall k :: 0 <= k < |seen| ==> seen[k] in ring
    ensures |verts| == count && forall k :: 0 <= k < count ==> verts[k] == coords[seen[k]]
  {
    verts := seq(count, _ => Vector3(0.0, 0.0, 0.0));
    var i := 0;
    while i < |ring|
      invariant 0 <= i <= |ring| && |verts| == count
      invariant forall k :: 0 <= k < count && seen[k] in ring[..i] ==> verts[k] == coords[seen[k]]
    {
      var v := ring[i];
      assert forall a :: 0 <= a < i ==> ring[a] != v;
      assert ring[..i + 1] == ring[..i] + [v];
      if vn[v] != Undef {
        assert v in seen && seen[vn[v]] == v;
        forall k | 0 <= k < count && seen[k] == v ensures k == vn[v] {
        }
        verts := verts[vn[v] := coords[v]];
      }
      i := i + 1;
    }
    assert ring[..i] == ring;
  }

  /** outputPolymesh over the face ring after mergeConvexFaces: polySize is
      raised to 3 at least; the vertices of the kept faces are numbered
      densely in the order they are first met; the k-th kept face occupies
      entries k·polySize onward (twice that stride for connected polygons)
      with its vertex numbers, Undef padding and neighbours; the vertex
      output holds each numbered vertex's coordinates at its number. */
  method OutputPolymesh(fs: seq<FaceView>, nv: nat, nf: nat, fInside: seq<bool>, ring: seq<int>,
                        coords: seq<Vector3>, elementType: ElementType, polySize: int, noEmpty: bool)
    returns (vn: seq<int>, fn: seq<int>, verts: seq<Vector3>, elements: seq<int>, size: nat,
             vertexCount: nat, elementCount: nat)
    requires ViewsOk(fs, nv, nf) && |fInside| == nf && |coords| == nv
    requires Unique(ring) && forall i :: 0 <= i < |ring| ==> 0 <= ring[i] < nv
    requires forall i, j :: 0 <= i < |fs| && 0 <= j < |fs[i].orgs| ==> fs[i].orgs[j] in ring
    requires forall i :: 0 <= i < |fs| && Kept(fs[i], noEmpty) ==> |fs[i].orgs| <= (if polySize < 3 then 3 else polySize)
    ensures size == (if polySize < 3 then 3 else polySize)
    ensures elementCount == KeptCount(fs, noEmpty)
    ensures |elements| == elementCount * (if elementType == ConnectedPolygons then 2 * size else size)
    ensures |vn| == nv && |fn| == nf
    ensures Layout(elements, fs, noEmpty, vn, fn, fInside, size, elementType == ConnectedPolygons)
    ensures var seen := FirstSeen(Flat(fs, noEmpty));
      && NumberedBy(vn, seen) && Unique(seen) && vertexCount == |seen| == |verts|
      && (forall x :: x in seen <==> x in Flat(fs, noEmpty))
      && (forall k :: 0 <= k < vertexCount ==> 0 <= seen[k] < nv && vn[seen[k]] == k && verts[k] == coords[seen[k]])
    ensures forall i :: 0 <= i < |fs| ==>
      fn[fs[i].id] == if Kept(fs[i], noEmpty) then KeptCount(fs[..i], noEmpty) else Undef
  {
    size := if polySize < 3 then 3 else polySize;
    var faceCount;
    vn, fn, vertexCount, faceCount := NumberFaces(fs, nv, nf, noEmpty, size);
    elementCount := faceCount;
    elements := WriteElements(fs, noEmpty, vn, fn, fInside, size, elementType == ConnectedPolygons);
    ghost var flat := Flat(fs, noEmpty);
    ghost var seen := FirstSeen(flat);
    FirstSeenFacts(flat);
    FlatInRing(fs, noEmpty, ring);
    forall k | 0 <= k < |seen| ensures seen[k] in ring && 0 <= seen[k] < nv {
      assert seen[k] in seen;
      assert seen[k] in flat;
      var r :| 0 <= r < |ring| && ring[r] == seen[k];
    }
    NumberingIsDense(vn, seen);
    verts := WriteVertices(ring, vn, coords, seen, vertexCount);
  }

  lemma {:induction false} FlatInRing(fs: seq<FaceView>, noEmpty: bool, ring: seq<int>)
    requires forall i, j :: 0 <= i < |fs| && 0 <= j < |fs[i].orgs| ==> fs[i].orgs[j] in ring
    ensures forall x :: x in Flat(fs, noEmpty) ==> x in ring
  {
    if fs != [] {
      var init := fs[..|fs| - 1];
      forall i, j | 0 <= i < |init| && 0 <= j < |init[i].orgs| ensures init[i].orgs[j] in ring {
        assert init[i] == fs[i];
      }
      FlatInRing(init, noEmpty, ring);
      var last := fs[|fs| - 1];
      forall x | x in last.orgs ensures x in ring {
        var j :| 0 <= j < |last.orgs| && last.orgs[j] == x;
      }
    }
  }

  // ---------------------------------------------------------------------------
  // outputContours

  /** The number of vertices of the inside faces. */
  function Total(fs: seq<FaceView>): nat {
    if fs == [] then 0
    else Total(fs[..|fs| - 1]) + (if fs[|fs| - 1].inside then |fs[|fs| - 1].orgs| else 0)
  }

  lemma TotalSnoc(fs: seq<FaceView>, i: nat)
    requires i < |fs|
    ensures Total(fs[..i + 1]) == Total(fs[..i]) + (if fs[i].inside then |fs[i].orgs| else 0)
    ensures KeptCount(fs[..i + 1], false) == KeptCount(fs[..i], false) + (if fs[i].inside then 1 else 0)
  {
    assert fs[..i + 1][..i] == fs[..i];
  }

  /** The entries outputContours writes for one inside face: its (start,
      count) pair at position 2k and its loop's coordinates from start on. */
  ghost predicate ContourAt(f: FaceView, k: nat, start: nat, coords: seq<Vector3>, verts: seq<Vector3>, elements: seq<int>) {
    && 2 * k + 1 < |elements| && elements[2 * k] == start && elements[2 * k + 1] == |f.orgs|
    && start + |f.orgs| <= |verts|
    && forall j :: 0 <= j < |f.orgs| ==> 0 <= f.orgs[j] < |coords| && verts[start + j] == coords[f.orgs[j]]
  }

  /** What outputContours leaves for the faces `fs`: one (start, count) pair
      per inside face, start being the number of vertices of the inside
      faces before it. */
  ghost predicate ContoursOut(fs: seq<FaceView>, coords: seq<Vector3>, verts: seq<Vector3>, elements: seq<int>) {
    && |verts| == Total(fs) && |elements| == 2 * KeptCount(fs, false)
    && forall i :: 0 <= i < |fs| && fs[i].inside ==>
         ContourAt(fs[i], KeptCount(fs[..i], false), Total(fs[..i]), coords, verts, elements)
  }

  /** The loop of `f` as coordinates. */
  function Coords(f: FaceView, coords: seq<Vector3>): (r: seq<Vector3>)
    requires forall j :: 0 <= j < |f.orgs| ==> 0 <= f.orgs[j] < |coords|
    ensures |r| == |f.orgs| && forall j :: 0 <= j < |r| ==> r[j] == coords[f.orgs[j]]
  {
    seq(|f.orgs|, j requires 0 <= j < |f.orgs| => coords[f.orgs[j]])
  }

  lemma ContourAtExtend(f: FaceView, k: nat, start: nat, coords: seq<Vector3>, verts: seq<Vector3>, elements: seq<int>,
                        more: seq<Vector3>, pair: seq<int>)
    requires ContourAt(f, k, start, coords, verts, elements)
    ensures ContourAt(f, k, start, coords, verts + more, elements + pair)
  {
  }

  lemma ContoursStep(fs: seq<FaceView>, i: nat, coords: seq<Vector3>, verts: seq<Vector3>, elements: seq<int>)
    requires i < |fs| && ContoursOut(fs[..i], coords, verts, elements)
    requires forall j :: 0 <= j < |fs[i].orgs| ==> 0 <= fs[i].orgs[j] < |coords|
    ensures fs[i].inside ==>
      ContoursOut(fs[..i + 1], coords, verts + Coords(fs[i], coords), elements + [Total(fs[..i]), |fs[i].orgs|])
    ensures !fs[i].inside ==> ContoursOut(fs[..i + 1], coords, verts, elements)
  {
    TotalSnoc(fs, i);
    var prefix := fs[..i + 1];
    var f := fs[i];
    var more := if f.inside then Coords(f, coords) else [];
    var pair := if f.inside then [Total(fs[..i]), |f.orgs|] else [];
    forall a | 0 <= a < |prefix| && prefix[a].inside
      ensures ContourAt(prefix[a], KeptCount(prefix[..a], false), Total(prefix[..a]), coords, verts + more, elements + pair)
    {
      if a < i {
        assert prefix[a] == fs[..i][a] && prefix[..a] == fs[..i][..a];
        ContourAtExtend(prefix[a], KeptCount(prefix[..a], false), Total(prefix[..a]), coords, verts, elements, more, pair);
      } else {
        assert prefix[..a] == fs[..i];
      }
    }
    assert verts + [] == verts && elements + [] == elements;
  }

  /** outputContours: a first pass counts the vertices and the inside faces,
      a second writes each inside face's loop and its (start, count) pair. */
  method OutputContours(fs: seq<FaceView>, coords: seq<Vector3>)
    returns (verts: seq<Vector3>, elements: seq<int>, vertexCount: nat, elementCount: nat)
    requires forall i, j :: 0 <= i < |fs| && 0 <= j < |fs[i].orgs| ==> 0 <= fs[i].orgs[j] < |coords|
    ensures vertexCount == |verts| == Total(fs) && elementCount == KeptCount(fs, false)
    ensures ContoursOut(fs, coords, verts, elements)
  {
    vertexCount, elementCount := 0, 0;
    var i := 0;
    while i < |fs|
      invariant 0 <= i <= |fs| && vertexCount == Total(fs[..i]) && elementCount == KeptCount(fs[..i], false)
    {
      TotalSnoc(fs, i);
      if fs[i].inside {
        vertexCount := vertexCount + |fs[i].orgs|;
        elementCount := elementCount + 1;
      }
      i := i + 1;
    }
    assert fs[..i] == fs;
    verts, elements := [], [];
    var startVert := 0;
    i := 0;
    while i < |fs|
      invariant 0 <= i <= |fs| && startVert == Total(fs[..i])
      invariant ContoursOut(fs[..i], coords, verts, elements)
    {
      var f := fs[i];
      ContoursStep(fs, i, coords, verts, elements);
      TotalSnoc(fs, i);
      if f.inside {
        var vertCount := |f.orgs|;
        verts := verts + Coords(f, coords);
        elements := elements + [startVert, vertCount];
        startVert := startVert + vertCount;
      }
      i := i + 1;
    }
    assert fs[..i] == fs;
  }

  // ---------------------------------------------------------------------------
  // setWindingNumber

  /** 1 for an inside face, 0 for an outside one. */
  function Ind(inside: bool): int {
    if inside then 1 else 0
  }

  /** Both faces of every listed edge pair are faces of the arena. */
  ghost predicate FacesPresent(m: Mesh, ering: seq<int>)
    requires Shaped(m) && IsEdgeRing(m.eNext, ering)
  {
    forall i :: 1 <= i < |ering| ==>
      0 <= m.lface[ering[i]] < |m.fInside| && 0 <= m.lface[Sym(ering[i])] < |m.fInside|
  }

  /** The change of winding number when crossing e from its right face to
      its left face, if inside faces have winding number `value` and
      outside ones 0. */
  ghost function Crossing(m: Mesh, e: int, value: int): int
    requires Shaped(m) && 0 <= e < |m.lface|
    requires 0 <= m.lface[e] < |m.fInside| && 0 <= Rface(m, e) < |m.fInside|
  {
    value * (Ind(m.fInside[m.lface[e]]) - Ind(m.fInside[Rface(m, e)]))
  }

  /** The state of the setWindingNumber walk after the first i − 1 listed
      pairs: their listed halves hold the crossing winding, all else is
      untouched. */
  ghost predicate WindingWalk(m: Mesh, ering: seq<int>, value: int, i: nat, w: seq<int>)
    requires Shaped(m) && IsEdgeRing(m.eNext, ering) && FacesPresent(m, ering)
  {
    && 1 <= i <= |ering| && |w| == |m.winding|
    && (forall j :: 1 <= j < i ==> w[ering[j]] == Crossing(m, ering[j], value))
    && (forall z :: 0 <= z < |w| && z !in ering[1..i] ==> w[z] == m.winding[z])
  }

  /** setWindingNumber(value, false): walking the edge list, each listed
      half-edge gets the winding that makes the winding number `value` inside
      and 0 outside. The other half of each pair and every other field keep
      their values. */
  method SetWindingNumber(m: Mesh, ghost ering: seq<int>, value: int) returns (m': Mesh)
    requires Shaped(m) && IsEdgeRing(m.eNext, ering) && FacesPresent(m, ering)
    ensures m' == m.(winding := m'.winding) && |m'.winding| == |m.winding|
    ensures forall i :: 1 <= i < |ering| ==> m'.winding[ering[i]] == Crossing(m, ering[i], value)
    ensures forall z :: 0 <= z < |m.winding| && z !in ering[1..] ==> m'.winding[z] == m.winding[z]
  {
    var w := m.winding;
    var e := m.eNext[0];
    ghost var i := 1;
    EdgeRingAt(m.eNext, ering, 0);
    ListedNotHead(m.eNext, ering);
    while e != 0
      invariant WindingWalk(m, ering, value, i, w)
      invariant e == (if i < |ering| then ering[i] else 0)
      decreases |ering| - i
    {
      EdgeRingAt(m.eNext, ering, i);
      var lInside := m.fInside[m.lface[e]];
      var rInside := m.fInside[m.lface[Sym(e)]];
      ghost var w0 := w;
      CrossingCases(m, e, value);
      if rInside != lInside {
        // a boundary edge: one side inside, the other outside
        w := w[e := if lInside then value else -value];
      } else {
        w := w[e := 0];
      }
      SetWindingStep(m, ering, value, i, w0, w);
      e := m.eNext[e];
      i := i + 1;
    }
    assert ering[1..i] == ering[1..];
    m' := m.(winding := w);
  }

  /** The walk ends back at the head pair and nowhere before. */
  lemma ListedNotHead(eNext: seq<int>, ering: seq<int>)
    requires IsEdgeRing(eNext, ering)
    ensures forall i :: 1 <= i < |ering| ==> ering[i] != 0
  {
    DistinctPairs(ering);
  }

  lemma CrossingCases(m: Mesh, e: int, value: int)
    requires Shaped(m) && 0 <= e < |m.lface|
    requires 0 <= m.lface[e] < |m.fInside| && 0 <= Rface(m, e) < |m.fInside|
    ensures var l := m.fInside[m.lface[e]]; var r := m.fInside[Rface(m, e)];
      Crossing(m, e, value) == if l == r then 0 else if l then value else -value
  {
  }

  lemma SetWindingStep(m: Mesh, ering: seq<int>, value: int, i: nat, w0: seq<int>, w: seq<int>)
    requires Shaped(m) && IsEdgeRing(m.eNext, ering) && FacesPresent(m, ering)
    requires 1 <= i < |ering| && WindingWalk(m, ering, value, i, w0) && 0 <= ering[i] < |w0|
    requires w == w0[ering[i] := Crossing(m, ering[i], value)]
    ensures WindingWalk(m, ering, value, i + 1, w)
  {
    DistinctPairs(ering);
    assert ering[1..i + 1] == ering[1..i] + [ering[i]];
  }
}
