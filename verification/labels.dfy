/**
  Labelled cycles: the shape shared by the vertex and the face structure of
  the mesh. A vertex is an Onext cycle of half-edges whose `Org` is that
  vertex; a face is an Lnext cycle whose `Lface` is that face.

  A `Lab` bundles a successor table `succ`, a label table `lab`, the labels
  in use (`ring`, the global vertex or face list, whose head 0 is no label),
  a cycle `cyc[v]` and an anchor `anchor[v]` on it for each label in use (the
  record's `anEdge`), and the set `live` of elements that must carry a label.
  Faces allow the nil label (`nilOk`); vertices do not.

  The lemmas below are the steps the mesh operations are made of: a swap of
  two successors splits one labelled cycle or joins two, a fresh cycle is
  labelled or absorbed, a label is retired. Each is an instance of `Frame`,
  which says that labels outside a touched set T keep their cycles.
*/
module Labels {
  import opened Cycles

  /** The nil pointer. */
  const NIL: int := -1

  datatype Lab = Lab(succ: seq<int>, lab: seq<int>, anchor: seq<int>, ring: seq<int>,
                     cyc: map<int, seq<int>>, live: set<int>, nilOk: bool)

  /** v is a label in use (the head of the ring is not a label). */
  ghost predicate Used(L: Lab, v: int) {
    v in L.ring && v != 0
  }

  /** The cycle of label v is a cycle of `succ`, holds v's anchor, and all its
      elements are live and carry v. */
  ghost predicate CycleOk(L: Lab, v: int) {
    && v in L.cyc
    && IsCycle(L.succ, L.cyc[v])
    && 0 <= v < |L.anchor|
    && L.anchor[v] in L.cyc[v]
    && (forall e :: e in L.cyc[v] ==> e in L.live && 0 <= e < |L.lab| && L.lab[e] == v)
  }

  /** A live element carries nil (where allowed) or a label whose cycle holds it. */
  ghost predicate CoverAt(L: Lab, e: int) {
    && 0 <= e < |L.lab|
    && (if L.lab[e] == NIL then L.nilOk
        else Used(L, L.lab[e]) && L.lab[e] in L.cyc && e in L.cyc[L.lab[e]])
  }

  ghost predicate Valid(L: Lab) {
    && |L.lab| == |L.succ|
    && (forall v :: Used(L, v) ==> CycleOk(L, v))
    && (forall e :: e in L.live ==> CoverAt(L, e))
  }

  /** e is live and its label is outside T. */
  ghost predicate Keeps(L: Lab, T: set<int>, e: int) {
    e in L.live && 0 <= e < |L.lab| && L.lab[e] !in T
  }

  /** A live labelled element's successor is live and carries the same label. */
  lemma LabelCycle(L: Lab, e: int)
    requires Valid(L) && e in L.live && L.lab[e] != NIL
    ensures L.lab[e] in L.cyc && e in L.cyc[L.lab[e]]
    ensures 0 <= L.succ[e] < |L.succ| && L.succ[e] in L.live && L.lab[L.succ[e]] == L.lab[e]
  {
    assert CoverAt(L, e);
    assert CycleOk(L, L.lab[e]);
    SuccInCycle(L.succ, L.cyc[L.lab[e]], e);
  }

  /** Two live elements with the same non-nil label lie on one cycle. */
  lemma SameLabelSameCycle(L: Lab, e: int, f: int)
    requires Valid(L) && e in L.live && f in L.live && L.lab[e] != NIL && L.lab[e] == L.lab[f]
    ensures L.lab[e] in L.cyc && e in L.cyc[L.lab[e]] && f in L.cyc[L.lab[e]]
  {
    assert CoverAt(L, e) && CoverAt(L, f);
  }

  /** Every element of a cycle has a predecessor on it. */
  lemma PredOnCycle(succ: seq<int>, c: seq<int>, x: int) returns (p: int)
    requires IsCycle(succ, c) && x in c
    ensures p in c && 0 <= p < |succ| && succ[p] == x
  {
    var r := RotateTo(c, x);
    RotateToIsCycle(succ, c, x);
    p := r[|r| - 1];
  }

  /** Labels outside T keep their cycles, anchors, elements and successors;
      the caller vouches for the labels in T and for the elements whose label
      is in T or that were not live. */
  lemma Frame(L: Lab, L': Lab, T: set<int>)
    requires Valid(L) && |L'.lab| == |L'.succ| && L'.nilOk == L.nilOk
    requires forall v :: Used(L, v) && v !in T ==>
      && Used(L', v) && v in L'.cyc && L'.cyc[v] == L.cyc[v]
      && v < |L'.anchor| && L'.anchor[v] == L.anchor[v]
    requires forall v :: Used(L', v) && v !in T ==> Used(L, v)
    requires forall e :: Keeps(L, T, e) ==>
      && e in L'.live && e < |L'.lab| && L'.lab[e] == L.lab[e]
      && e < |L'.succ| && L'.succ[e] == L.succ[e]
    requires forall v :: Used(L', v) && v in T ==> CycleOk(L', v)
    requires forall e :: e in L'.live && !Keeps(L, T, e) ==> CoverAt(L', e)
    ensures Valid(L')
  {
    forall v | Used(L', v) ensures CycleOk(L', v) {
      if v !in T {
        assert CycleOk(L, v);
        var c := L.cyc[v];
        forall e | e in c ensures Keeps(L, T, e) { }
        forall i | 0 <= i < |c| ensures 0 <= c[i] < |L'.succ| && L'.succ[c[i]] == L.succ[c[i]] {
          assert Keeps(L, T, c[i]);
        }
        CycleKept(L.succ, L'.succ, c);
      }
    }
    forall e | e in L'.live ensures CoverAt(L', e) {
      if Keeps(L, T, e) {
        assert CoverAt(L, e);
      }
    }
  }

  /** Appending table entries for elements that are not yet live. */
  lemma Extend(L: Lab, succ': seq<int>, lab': seq<int>, anchor': seq<int>)
    requires Valid(L)
    requires |lab'| == |succ'| >= |L.succ| && |anchor'| >= |L.anchor|
    requires forall z :: 0 <= z < |L.succ| ==> succ'[z] == L.succ[z] && lab'[z] == L.lab[z]
    requires forall z :: 0 <= z < |L.anchor| ==> anchor'[z] == L.anchor[z]
    ensures Valid(L.(succ := succ', lab := lab', anchor := anchor'))
  {
    var L' := L.(succ := succ', lab := lab', anchor := anchor');
    forall e | Keeps(L, {}, e) ensures e < |succ'| && succ'[e] == L.succ[e] && lab'[e] == L.lab[e] {
      assert CoverAt(L, e);
    }
    Frame(L, L', {});
  }

  /** Moving the anchor of label v along its cycle. */
  lemma Reanchor(L: Lab, v: int, a: int)
    requires Valid(L) && Used(L, v) && v in L.cyc && a in L.cyc[v]
    ensures Valid(L.(anchor := L.anchor[v := a]))
  {
    var L' := L.(anchor := L.anchor[v := a]);
    assert CycleOk(L, v);
    Frame(L, L', {v});
  }

  /** Giving a cycle of elements that are not yet live the fresh label w. */
  lemma LabelFresh(L: Lab, c: seq<int>, w: int, lab': seq<int>, ring': seq<int>)
    requires Valid(L)
    requires IsCycle(L.succ, c) && forall z :: z in c ==> z !in L.live
    requires w == |L.anchor| && w != 0
    requires |lab'| == |L.lab|
    requires forall z :: 0 <= z < |L.lab| ==> lab'[z] == if z in c then w else L.lab[z]
    requires forall z :: z in ring' <==> z in L.ring || z == w
    ensures Valid(L.(lab := lab', anchor := L.anchor + [c[0]], ring := ring',
                     cyc := L.cyc[w := c], live := L.live + Elems(c)))
  {
    var L' := L.(lab := lab', anchor := L.anchor + [c[0]], ring := ring',
                 cyc := L.cyc[w := c], live := L.live + Elems(c));
    forall v | Used(L, v) ensures v < w { assert CycleOk(L, v); }
    forall e | e in L.live ensures L.lab[e] != w { assert CoverAt(L, e); }
    Frame(L, L', {w});
  }

  /** The nil label is never in use. */
  lemma NilUnused(L: Lab)
    requires Valid(L)
    ensures !Used(L, NIL)
  {
    assert Used(L, NIL) ==> CycleOk(L, NIL);
  }

  /** Labels in use are below the anchor table's length. */
  lemma UsedBelow(L: Lab)
    requires Valid(L)
    ensures forall v :: Used(L, v) ==> 0 <= v < |L.anchor|
    ensures forall e :: e in L.live ==> 0 <= e < |L.lab| && L.lab[e] < |L.anchor|
  {
    forall v | Used(L, v) ensures 0 <= v < |L.anchor| { assert CycleOk(L, v); }
    forall e | e in L.live ensures 0 <= e < |L.lab| && L.lab[e] < |L.anchor| {
      assert CoverAt(L, e);
      if L.lab[e] != NIL { assert CycleOk(L, L.lab[e]); }
    }
  }

  /** The cycle of v, with elements c, is replaced by the two parts n and k
      that partition it: n gets the fresh label w, k keeps v. */
  lemma SplitParts(L: Lab, L': Lab, v: int, w: int, c: seq<int>, n: seq<int>, k: seq<int>)
    requires Valid(L) && Used(L, v) && v in L.cyc
    requires forall z :: z in c <==> z in L.cyc[v]
    requires forall z :: z in c <==> z in n || z in k
    requires forall z :: z in n ==> z !in k
    requires w == |L.anchor| && w != 0
    requires IsCycle(L'.succ, n) && IsCycle(L'.succ, k)
    requires |L'.succ| == |L.succ| && forall z :: 0 <= z < |L.succ| && z !in c ==> L'.succ[z] == L.succ[z]
    requires L'.live == L.live && L'.nilOk == L.nilOk && L'.cyc == L.cyc[v := k][w := n]
    requires |L'.anchor| == w + 1 && L'.anchor[v] in k && L'.anchor[w] in n
    requires forall z :: 0 <= z < w && z != v ==> L'.anchor[z] == L.anchor[z]
    requires |L'.lab| == |L.lab|
    requires forall z :: 0 <= z < |L.lab| ==> L'.lab[z] == if z in n then w else L.lab[z]
    requires forall z :: z in L'.ring <==> z in L.ring || z == w
    ensures Valid(L')
  {
    assert CycleOk(L, v);
    UsedBelow(L);
    forall e | Keeps(L, {v, w}, e) ensures e !in c { }
    assert CycleOk(L', v) && CycleOk(L', w);
    forall e | e in L'.live && !Keeps(L, {v, w}, e) ensures CoverAt(L', e) {
      assert CoverAt(L, e);
    }
    Frame(L, L', {v, w});
  }

  /** A swap of the successors of x = c[0] and y = c[j] on the cycle c of
      label v splits it into p = [x] + c[j+1..] and q = [y] + c[1..j]; one
      part (n) gets the fresh label w and the other (k) keeps v. */
  lemma Split(L: Lab, v: int, x: int, j: nat, newGetsFirst: bool, w: int, aw: int, av: int,
              succ': seq<int>, lab': seq<int>, ring': seq<int>)
    requires Valid(L) && Used(L, v) && v in L.cyc && x in L.cyc[v]
    requires var c := RotateTo(L.cyc[v], x); 0 < j < |c| && 0 <= c[j] < |L.succ|
    requires var c := RotateTo(L.cyc[v], x); 0 <= x < |L.succ| && succ' == SwapSucc(L.succ, x, c[j])
    requires w == |L.anchor| && w != 0
    requires var c := RotateTo(L.cyc[v], x);
      var n := if newGetsFirst then [x] + c[j + 1..] else [c[j]] + c[1..j];
      var k := if newGetsFirst then [c[j]] + c[1..j] else [x] + c[j + 1..];
      && aw in n && av in k
      && |lab'| == |L.lab|
      && forall z :: 0 <= z < |L.lab| ==> lab'[z] == if z in n then w else L.lab[z]
    requires forall z :: z in ring' <==> z in L.ring || z == w
    ensures var c := RotateTo(L.cyc[v], x);
      var n := if newGetsFirst then [x] + c[j + 1..] else [c[j]] + c[1..j];
      var k := if newGetsFirst then [c[j]] + c[1..j] else [x] + c[j + 1..];
      Valid(L.(succ := succ', lab := lab', anchor := (L.anchor + [aw])[v := av], ring := ring',
               cyc := L.cyc[v := k][w := n]))
  {
    assert 0 <= v < |L.anchor| by { assert CycleOk(L, v); }
    var c := RotateTo(L.cyc[v], x);
    var p := [x] + c[j + 1..];
    var q := [c[j]] + c[1..j];
    assert && IsCycle(succ', p) && IsCycle(succ', q)
           && (forall z :: z in c <==> z in p || z in q)
           && (forall z :: z in p ==> z !in q) by {
      assert CycleOk(L, v);
      RotateToIsCycle(L.succ, L.cyc[v], x);
      SwapSplits(L.succ, c, j);
    }
    var n := if newGetsFirst then p else q;
    var k := if newGetsFirst then q else p;
    var L' := L.(succ := succ', lab := lab', anchor := (L.anchor + [aw])[v := av], ring := ring',
                 cyc := L.cyc[v := k][w := n]);
    SwapFrame(L.succ, x, c[j], c);
    AppendUpdateFrame(L.anchor, aw, v, av);
    SplitParts(L, L', v, w, c, n, k);
  }

  /** `Split` stated through the halves of the cycle of v at x and y. */
  lemma SplitAt(L: Lab, v: int, x: int, y: int, newGetsFirst: bool, w: int, aw: int, av: int,
                succ': seq<int>, lab': seq<int>, ring': seq<int>)
    requires Valid(L) && Used(L, v) && v in L.cyc && x in L.cyc[v] && y in L.cyc[v] && x != y
    requires 0 <= x < |L.succ| && 0 <= y < |L.succ| && succ' == SwapSucc(L.succ, x, y)
    requires w == |L.anchor| && w != 0
    requires var h := Halves(L.cyc[v], x, y);
      var n := if newGetsFirst then h.0 else h.1;
      var k := if newGetsFirst then h.1 else h.0;
      && aw in n && av in k
      && |lab'| == |L.lab|
      && forall z :: 0 <= z < |L.lab| ==> lab'[z] == if z in n then w else L.lab[z]
    requires forall z :: z in ring' <==> z in L.ring || z == w
    ensures var h := Halves(L.cyc[v], x, y);
      var n := if newGetsFirst then h.0 else h.1;
      var k := if newGetsFirst then h.1 else h.0;
      Valid(L.(succ := succ', lab := lab', anchor := (L.anchor + [aw])[v := av], ring := ring',
               cyc := L.cyc[v := k][w := n]))
  {
    var j := HalvesAt(L.cyc[v], x, y);
    Split(L, v, x, j, newGetsFirst, w, aw, av, succ', lab', ring');
  }

  /** The cycles of u and v, with elements cu and cv, are replaced by one
      cycle jn holding both, labelled u; v is retired. */
  lemma JoinParts(L: Lab, L': Lab, u: int, v: int, cu: seq<int>, cv: seq<int>, jn: seq<int>)
    requires Valid(L) && Used(L, u) && Used(L, v) && u != v && u in L.cyc && v in L.cyc
    requires forall z :: z in cu <==> z in L.cyc[u]
    requires forall z :: z in cv <==> z in L.cyc[v]
    requires forall z :: z in jn <==> z in cu || z in cv
    requires IsCycle(L'.succ, jn)
    requires |L'.succ| == |L.succ|
    requires forall z :: 0 <= z < |L.succ| && z !in cu && z !in cv ==> L'.succ[z] == L.succ[z]
    requires L'.live == L.live && L'.nilOk == L.nilOk && L'.cyc == L.cyc[u := jn]
    requires |L'.anchor| == |L.anchor| && L'.anchor[u] in jn
    requires forall z :: 0 <= z < |L.anchor| && z != u ==> L'.anchor[z] == L.anchor[z]
    requires |L'.lab| == |L.lab|
    requires forall z :: 0 <= z < |L.lab| ==> L'.lab[z] == if z in cv then u else L.lab[z]
    requires forall z :: z in L'.ring <==> z in L.ring && z != v
    ensures Valid(L')
  {
    assert CycleOk(L, u) && CycleOk(L, v);
    UsedBelow(L);
    forall e | Keeps(L, {u, v}, e) ensures e !in cu && e !in cv { }
    assert CycleOk(L', u);
    forall e | e in L'.live && !Keeps(L, {u, v}, e) ensures CoverAt(L', e) {
      assert CoverAt(L, e);
    }
    Frame(L, L', {u, v});
  }

  /** A swap of the successors of x on the cycle of u and y on the cycle of
      v != u joins the two into one cycle labelled u; v is retired. */
  lemma Join(L: Lab, u: int, v: int, x: int, y: int, au: int,
             succ': seq<int>, lab': seq<int>, ring': seq<int>)
    requires Valid(L) && Used(L, u) && Used(L, v) && u != v
    requires u in L.cyc && v in L.cyc && x in L.cyc[u] && y in L.cyc[v]
    requires 0 <= x < |L.succ| && 0 <= y < |L.succ| && succ' == SwapSucc(L.succ, x, y)
    requires au in L.cyc[u] || au in L.cyc[v]
    requires |lab'| == |L.lab|
    requires forall z :: 0 <= z < |L.lab| ==> lab'[z] == if z in L.cyc[v] then u else L.lab[z]
    requires forall z :: z in ring' <==> z in L.ring && z != v
    ensures var cx := RotateTo(L.cyc[u], x); var cy := RotateTo(L.cyc[v], y);
      Valid(L.(succ := succ', lab := lab', anchor := L.anchor[u := au], ring := ring',
               cyc := L.cyc[u := [x] + cy[1..] + [y] + cx[1..]]))
  {
    var cx := RotateTo(L.cyc[u], x);
    var cy := RotateTo(L.cyc[v], y);
    var jn := [x] + cy[1..] + [y] + cx[1..];
    assert IsCycle(succ', jn) && forall z :: z in jn <==> z in cx || z in cy by {
      assert CycleOk(L, u) && CycleOk(L, v);
      RotateToIsCycle(L.succ, L.cyc[u], x);
      RotateToIsCycle(L.succ, L.cyc[v], y);
      assert forall z :: z in cx ==> z !in cy by {
        forall z | z in cx ensures z !in cy {
          assert L.lab[z] == u;
        }
      }
      SwapJoins(L.succ, cx, cy);
      JoinedDistinct(cx, cy);
    }
    SwapFrame2(L.succ, x, y, cx, cy);
    UpdateFrame(L.anchor, u, au);
    var L' := L.(succ := succ', lab := lab', anchor := L.anchor[u := au], ring := ring',
                 cyc := L.cyc[u := jn]);
    JoinParts(L, L', u, v, cx, cy, jn);
  }

  /** The cycle of v, with elements cv, grows to jn by the elements of c,
      which were not live and now carry v. */
  lemma AbsorbParts(L: Lab, L': Lab, v: int, cv: seq<int>, c: seq<int>, jn: seq<int>)
    requires Valid(L) && Used(L, v) && v in L.cyc
    requires forall z :: z in cv <==> z in L.cyc[v]
    requires forall z :: z in c ==> z !in L.live
    requires forall z :: z in jn <==> z in cv || z in c
    requires IsCycle(L'.succ, jn)
    requires |L'.succ| == |L.succ|
    requires forall z :: 0 <= z < |L.succ| && z !in cv && z !in c ==> L'.succ[z] == L.succ[z]
    requires L'.live == L.live + Elems(c) && L'.nilOk == L.nilOk && L'.cyc == L.cyc[v := jn]
    requires L'.anchor == L.anchor && L'.ring == L.ring
    requires |L'.lab| == |L.lab|
    requires forall z :: 0 <= z < |L.lab| ==> L'.lab[z] == if z in c then v else L.lab[z]
    ensures Valid(L')
  {
    assert CycleOk(L, v);
    forall e | Keeps(L, {v}, e) ensures e !in cv && e !in c { }
    assert CycleOk(L', v);
    forall e | e in L'.live && !Keeps(L, {v}, e) ensures CoverAt(L', e) {
      if e in L.live { assert CoverAt(L, e); }
    }
    Frame(L, L', {v});
  }

  /** A fresh cycle c whose elements are not live, joined into the cycle of
      label v at y by a swap of the successors of y and c[0]: its elements
      take label v. */
  lemma Absorb(L: Lab, v: int, y: int, c: seq<int>, succ': seq<int>, lab': seq<int>)
    requires Valid(L) && Used(L, v) && v in L.cyc && y in L.cyc[v]
    requires IsCycle(L.succ, c) && forall z :: z in c ==> z !in L.live
    requires 0 <= y < |L.succ| && succ' == SwapSucc(L.succ, y, c[0])
    requires |lab'| == |L.lab|
    requires forall z :: 0 <= z < |L.lab| ==> lab'[z] == if z in c then v else L.lab[z]
    ensures var cy := RotateTo(L.cyc[v], y);
      Valid(L.(succ := succ', lab := lab', cyc := L.cyc[v := [y] + c[1..] + [c[0]] + cy[1..]],
               live := L.live + Elems(c)))
  {
    var cy := RotateTo(L.cyc[v], y);
    var jn := [y] + c[1..] + [c[0]] + cy[1..];
    assert IsCycle(succ', jn) && forall z :: z in jn <==> z in cy || z in c by {
      assert CycleOk(L, v);
      RotateToIsCycle(L.succ, L.cyc[v], y);
      SwapJoins(L.succ, cy, c);
      JoinedDistinct(cy, c);
    }
    var L' := L.(succ := succ', lab := lab', cyc := L.cyc[v := jn], live := L.live + Elems(c));
    AbsorbParts(L, L', v, cy, c, jn);
  }

  /** The same, into nil-labelled elements: the fresh elements carry nil. */
  lemma AbsorbNil(L: Lab, y: int, c: seq<int>, succ': seq<int>, lab': seq<int>)
    requires Valid(L) && L.nilOk && y in L.live && L.lab[y] == NIL
    requires |c| > 0 && forall z :: z in c ==> z !in L.live && 0 <= z < |L.succ|
    requires 0 <= y < |L.succ| && c[0] in c && succ' == SwapSucc(L.succ, y, c[0])
    requires |lab'| == |L.lab|
    requires forall z :: 0 <= z < |L.lab| ==> lab'[z] == if z in c then NIL else L.lab[z]
    ensures Valid(L.(succ := succ', lab := lab', live := L.live + Elems(c)))
  {
    var L' := L.(succ := succ', lab := lab', live := L.live + Elems(c));
    NilUnused(L);
    forall e | Keeps(L, {NIL}, e)
      ensures e in L'.live && e < |L'.lab| && L'.lab[e] == L.lab[e]
      ensures e < |L'.succ| && L'.succ[e] == L.succ[e]
    {
      assert e != y && e !in c && e != c[0];
    }
    forall e | e in L'.live && !Keeps(L, {NIL}, e) ensures CoverAt(L', e) {
      if e in L.live { assert CoverAt(L, e); }
    }
    Frame(L, L', {NIL});
  }

  /** A swap of the successors of two nil-labelled elements. */
  lemma SwapNil(L: Lab, x: int, y: int, succ': seq<int>)
    requires Valid(L) && x in L.live && y in L.live && L.lab[x] == NIL && L.lab[y] == NIL
    requires 0 <= x < |L.succ| && 0 <= y < |L.succ| && succ' == SwapSucc(L.succ, x, y)
    ensures Valid(L.(succ := succ'))
  {
    var L' := L.(succ := succ');
    NilUnused(L);
    forall e | Keeps(L, {NIL}, e) ensures e != x && e != y { }
    forall e | e in L'.live && !Keeps(L, {NIL}, e) ensures CoverAt(L', e) {
      assert CoverAt(L, e);
    }
    Frame(L, L', {NIL});
  }

  /** The cycle of v, with elements c, shrinks to k; the rest d of c leaves
      the live set. */
  lemma SplitOffParts(L: Lab, L': Lab, v: int, c: seq<int>, d: seq<int>, k: seq<int>)
    requires Valid(L) && Used(L, v) && v in L.cyc
    requires forall z :: z in c <==> z in L.cyc[v]
    requires forall z :: z in c <==> z in d || z in k
    requires forall z :: z in d ==> z !in k
    requires IsCycle(L'.succ, k)
    requires |L'.succ| == |L.succ| && forall z :: 0 <= z < |L.succ| && z !in c ==> L'.succ[z] == L.succ[z]
    requires L'.live == L.live - Elems(d) && L'.nilOk == L.nilOk && L'.cyc == L.cyc[v := k]
    requires |L'.anchor| == |L.anchor| && L'.anchor[v] in k
    requires forall z :: 0 <= z < |L.anchor| && z != v ==> L'.anchor[z] == L.anchor[z]
    requires L'.lab == L.lab && L'.ring == L.ring
    ensures Valid(L')
  {
    assert CycleOk(L, v);
    forall e | Keeps(L, {v}, e) ensures e !in c { }
    assert CycleOk(L', v);
    forall e | e in L'.live && !Keeps(L, {v}, e) ensures CoverAt(L', e) {
      assert CoverAt(L, e);
    }
    Frame(L, L', {v});
  }

  /** A swap of the successors of x = c[0] and y = c[j] on the cycle of v,
      after which one part (d) leaves the live set and v keeps the other (k). */
  lemma SplitOff(L: Lab, v: int, x: int, j: nat, dropFirst: bool, av: int, succ': seq<int>)
    requires Valid(L) && Used(L, v) && v in L.cyc && x in L.cyc[v]
    requires var c := RotateTo(L.cyc[v], x); 0 < j < |c| && 0 <= c[j] < |L.succ|
    requires var c := RotateTo(L.cyc[v], x); 0 <= x < |L.succ| && succ' == SwapSucc(L.succ, x, c[j])
    requires var c := RotateTo(L.cyc[v], x);
      av in (if dropFirst then [c[j]] + c[1..j] else [x] + c[j + 1..])
    ensures var c := RotateTo(L.cyc[v], x);
      var d := if dropFirst then [x] + c[j + 1..] else [c[j]] + c[1..j];
      var k := if dropFirst then [c[j]] + c[1..j] else [x] + c[j + 1..];
      Valid(L.(succ := succ', anchor := L.anchor[v := av], cyc := L.cyc[v := k],
               live := L.live - Elems(d)))
  {
    var c := RotateTo(L.cyc[v], x);
    assert IsCycle(L.succ, c) by {
      assert CycleOk(L, v);
      RotateToIsCycle(L.succ, L.cyc[v], x);
    }
    SwapSplits(L.succ, c, j);
    SwapFrame(L.succ, x, c[j], c);
    UpdateFrame(L.anchor, v, av);
    var d := if dropFirst then [x] + c[j + 1..] else [c[j]] + c[1..j];
    var k := if dropFirst then [c[j]] + c[1..j] else [x] + c[j + 1..];
    var L' := L.(succ := succ', anchor := L.anchor[v := av], cyc := L.cyc[v := k],
                 live := L.live - Elems(d));
    SplitOffParts(L, L', v, c, d, k);
  }

  /** Retiring label v: its cycle is relabelled with `to`, which is nil (where
      allowed) unless the cycle's elements leave the live set (`drop`). */
  lemma Kill(L: Lab, v: int, to: int, drop: bool, lab': seq<int>, ring': seq<int>)
    requires Valid(L) && Used(L, v) && v in L.cyc
    requires drop || (to == NIL && L.nilOk)
    requires |lab'| == |L.lab|
    requires forall z :: 0 <= z < |L.lab| ==> lab'[z] == if z in L.cyc[v] then to else L.lab[z]
    requires forall z :: z in ring' <==> z in L.ring && z != v
    ensures Valid(L.(lab := lab', ring := ring',
                     live := if drop then L.live - Elems(L.cyc[v]) else L.live))
  {
    var L' := L.(lab := lab', ring := ring',
                 live := if drop then L.live - Elems(L.cyc[v]) else L.live);
    assert CycleOk(L, v);
    forall e | Keeps(L, {v}, e) ensures e !in L.cyc[v] { }
    forall e | e in L'.live && !Keeps(L, {v}, e) ensures CoverAt(L', e) {
      assert CoverAt(L, e);
    }
    Frame(L, L', {v});
  }

  /** A nil-labelled element leaves the live set. */
  lemma DropNil(L: Lab, t: int)
    requires Valid(L) && t in L.live && L.lab[t] == NIL
    ensures Valid(L.(live := L.live - {t}))
  {
    var L' := L.(live := L.live - {t});
    NilUnused(L);
    forall e | e in L'.live && !Keeps(L, {NIL}, e) ensures CoverAt(L', e) {
      assert CoverAt(L, e);
    }
    Frame(L, L', {NIL});
  }

  /** The element t following a on their cycle is cut out of it by a swap of
      the successors of a and t: t is left on a loop of its own, outside the
      live set, and the cycle closes over the gap. */
  lemma MoveOut(L: Lab, u: int, a: int, t: int) returns (cyc': map<int, seq<int>>)
    requires Valid(L) && a in L.live && t in L.live && a != t
    requires 0 <= a < |L.lab| && 0 <= t < |L.lab| && L.lab[a] == u && L.lab[t] == u
    requires 0 <= a < |L.succ| && L.succ[a] == t
    requires u != NIL ==> 0 <= u < |L.anchor| && L.anchor[u] != t
    requires 0 <= t < |L.succ|
    ensures Valid(L.(succ := SwapSucc(L.succ, a, t), cyc := cyc', live := L.live - {t}))
  {
    var succ' := SwapSucc(L.succ, a, t);
    if u != NIL {
      cyc' := CutAfter(L, u, a, t);
    } else {
      SwapNil(L, a, t, succ');
      DropNil(L.(succ := succ'), t);
      cyc' := L.cyc;
    }
  }

  /** `MoveOut` on a labelled cycle: `SplitOff` at a and its successor. */
  lemma CutAfter(L: Lab, u: int, a: int, t: int) returns (cyc': map<int, seq<int>>)
    requires Valid(L) && a in L.live && a != t && u != NIL
    requires 0 <= a < |L.lab| && L.lab[a] == u
    requires 0 <= a < |L.succ| && L.succ[a] == t
    requires 0 <= u < |L.anchor| && L.anchor[u] != t
    ensures Valid(L.(succ := SwapSucc(L.succ, a, t), cyc := cyc', live := L.live - {t}))
  {
    var c := CutAfterReady(L, u, a, t);
    CutOne(c, t);
    var succ' := SwapSucc(L.succ, a, t);
    SplitOff(L, u, a, 1, false, L.anchor[u], succ');
    cyc' := L.cyc[u := [a] + c[2..]];
    assert L.(succ := succ', anchor := L.anchor[u := L.anchor[u]], cyc := cyc',
              live := L.live - Elems([c[1]] + c[1..1]))
        == L.(succ := succ', cyc := cyc', live := L.live - {t});
  }

  /** What `SplitOff` needs for `CutAfter`. */
  lemma CutAfterReady(L: Lab, u: int, a: int, t: int) returns (c: seq<int>)
    requires Valid(L) && a in L.live && a != t && u != NIL
    requires 0 <= a < |L.lab| && L.lab[a] == u
    requires 0 <= a < |L.succ| && L.succ[a] == t
    requires 0 <= u < |L.anchor| && L.anchor[u] != t
    ensures Used(L, u) && u in L.cyc && a in L.cyc[u] && c == RotateTo(L.cyc[u], a)
    ensures 1 < |c| && c[1] == t && 0 <= t < |L.succ|
    ensures L.anchor[u] in [a] + c[2..]
    ensures L.anchor[u := L.anchor[u]] == L.anchor
  {
    assert CoverAt(L, a) && CycleOk(L, u);
    c := RotateTo(L.cyc[u], a);
    RotateToIsCycle(L.succ, L.cyc[u], a);
    SecondOfRotation(L.succ, L.cyc[u], a);
    assert L.anchor[u] in c;
    SuccInCycle(L.succ, c, a);
  }

  lemma CutOne(c: seq<int>, t: int)
    requires 1 < |c| && c[1] == t
    ensures Elems([c[1]] + c[1..1]) == {t}
  {
    assert [c[1]] + c[1..1] == [t];
  }

  /** An element t on a loop of its own, outside the live set, is spliced in
      after y by a swap of their successors and takes y's label. */
  lemma MoveIn(L: Lab, v: int, y: int, t: int) returns (cyc': map<int, seq<int>>)
    requires Valid(L) && y in L.live && t !in L.live
    requires 0 <= y < |L.lab| && L.lab[y] == v
    requires 0 <= y < |L.succ| && 0 <= t < |L.succ| && L.succ[t] == t
    ensures Valid(L.(succ := SwapSucc(L.succ, y, t), lab := L.lab[t := v], cyc := cyc',
                     live := L.live + {t}))
  {
    var succ' := SwapSucc(L.succ, y, t);
    assert CoverAt(L, y);
    assert IsCycle(L.succ, [t]) by {
      assert multiset([t])[t] == 1;
    }
    assert forall z :: z in [t] <==> z == t;
    assert Elems([t]) == {t};
    if v != NIL {
      Absorb(L, v, y, [t], succ', L.lab[t := v]);
      var cy := RotateTo(L.cyc[v], y);
      cyc' := L.cyc[v := [y] + [t][1..] + [t] + cy[1..]];
    } else {
      AbsorbNil(L, y, [t], succ', L.lab[t := v]);
      cyc' := L.cyc;
    }
  }

  /** The element t following a is moved to follow y instead, taking y's
      label: the relinking a splice pair makes when it carries one half-edge
      from one loop to another. */
  lemma Move(L: Lab, u: int, v: int, a: int, t: int, y: int) returns (cyc': map<int, seq<int>>)
    requires Valid(L) && a in L.live && t in L.live && y in L.live && a != t && y != t
    requires 0 <= a < |L.lab| && 0 <= t < |L.lab| && 0 <= y < |L.lab|
    requires L.lab[a] == u && L.lab[t] == u && L.lab[y] == v
    requires 0 <= a < |L.succ| && 0 <= t < |L.succ| && 0 <= y < |L.succ| && L.succ[a] == t
    requires u != NIL ==> 0 <= u < |L.anchor| && L.anchor[u] != t
    ensures Valid(L.(succ := SwapSucc(SwapSucc(L.succ, a, t), y, t), lab := L.lab[t := v],
                     cyc := cyc', live := L.live))
  {
    var cyc2 := MoveOut(L, u, a, t);
    var L2 := L.(succ := SwapSucc(L.succ, a, t), cyc := cyc2, live := L.live - {t});
    cyc' := MoveIn(L2, v, y, t);
    assert L2.live + {t} == L.live;
  }
}
