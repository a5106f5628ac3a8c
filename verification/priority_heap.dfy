/**
  The binary heap behind the sweep's event queue (PriorityHeap.swift).

  `nodes[i]` is the handle stored at heap position i (1-based, position 0
  is a sentinel holding handle 0). The handle table is kept as three
  columns: `hasElem[x]` says whether handle x has an entry at all,
  `hkey[x]` is its key (nil once the handle is freed) and `hnode[x]` is its
  heap position, or, for a freed handle, the next handle on the free list.

  The ghost sequence `free` lists the free list from `freeList` onwards.
*/
module PriorityHeap {
  import opened Wrappers
  import opened Orders

  /** PQHandle.Invalid. */
  const INVALID: int := 0x0fffffff

  datatype Heap<K> = Heap(
    nodes: seq<int>,
    hasElem: seq<bool>,
    hkey: seq<Option<K>>,
    hnode: seq<int>,
    size: int,
    max: int,
    freeList: int,
    initialized: bool)

  /** Both tables have max + 1 entries and the heap fills at most half. */
  ghost predicate Shaped<K>(h: Heap<K>) {
    && 1 <= h.max && 0 <= h.size && 2 * h.size <= h.max
    && |h.nodes| == h.max + 1 && |h.hasElem| == h.max + 1
    && |h.hkey| == h.max + 1 && |h.hnode| == h.max + 1
  }

  /** Position i holds a keyed handle whose position field points back at i. */
  ghost predicate PlacedAt<K>(h: Heap<K>, i: int) {
    && 0 <= i < |h.nodes|
    && 1 <= h.nodes[i] < |h.hkey| && h.nodes[i] < |h.hasElem| && h.nodes[i] < |h.hnode|
    && h.hasElem[h.nodes[i]] && h.hkey[h.nodes[i]].Some?
    && h.hnode[h.nodes[i]] == i
  }

  ghost predicate Placed<K>(h: Heap<K>) {
    Shaped(h) && forall i :: 1 <= i <= h.size ==> PlacedAt(h, i)
  }

  /** The key at heap position i. */
  ghost function Key<K>(h: Heap<K>, i: int): K
    requires PlacedAt(h, i)
  {
    h.hkey[h.nodes[i]].value
  }

  /** Handle x is in the heap. */
  ghost predicate Live<K>(h: Heap<K>, x: int) {
    && 0 <= x < |h.hnode|
    && 1 <= h.hnode[x] <= h.size && h.hnode[x] < |h.nodes|
    && h.nodes[h.hnode[x]] == x
  }

  /** Every parent at position lo or beyond is `leq` its children. */
  ghost predicate OrderedFrom<K>(h: Heap<K>, leq: (K, K) -> bool, lo: int) {
    && Placed(h)
    && forall k :: 2 <= k <= h.size && lo <= k / 2 ==> leq(Key(h, k / 2), Key(h, k))
  }

  /** Ordered from lo, except that position c may be above its children;
      c's parent (when it is at lo or beyond) is `leq` them nonetheless. */
  ghost predicate ExceptDown<K>(h: Heap<K>, leq: (K, K) -> bool, c: int, lo: int) {
    && Placed(h) && 1 <= c <= h.size
    && (forall k :: 2 <= k <= h.size && lo <= k / 2 && k / 2 != c ==> leq(Key(h, k / 2), Key(h, k)))
    && (1 < c && lo <= c / 2 ==>
          forall k :: 2 <= k <= h.size && k / 2 == c ==> leq(Key(h, c / 2), Key(h, k)))
  }

  /** Ordered, except that position c may be below its parent; c's parent
      is `leq` c's children nonetheless. */
  ghost predicate ExceptUp<K>(h: Heap<K>, leq: (K, K) -> bool, c: int) {
    && Placed(h) && 1 <= c <= h.size
    && (forall k :: 2 <= k <= h.size && k != c ==> leq(Key(h, k / 2), Key(h, k)))
    && (1 < c ==> forall k :: 2 <= k <= h.size && k / 2 == c ==> leq(Key(h, c / 2), Key(h, k)))
  }

  /** h' holds the same handles with the same keys as h, possibly at other
      positions; handles outside the heap and positions past its end are
      untouched. */
  ghost predicate SameLive<K>(h: Heap<K>, h': Heap<K>) {
    && h'.size == h.size && h'.max == h.max
    && h'.hasElem == h.hasElem && h'.hkey == h.hkey
    && h'.freeList == h.freeList && h'.initialized == h.initialized
    && |h'.nodes| == |h.nodes| && |h'.hnode| == |h.hnode|
    && (forall x :: Live(h, x) <==> Live(h', x))
    && (forall x :: 0 <= x < |h.hnode| && !Live(h, x) ==> h'.hnode[x] == h.hnode[x])
    && (forall i :: 0 <= i < |h.nodes| && !(1 <= i <= h.size) ==> h'.nodes[i] == h.nodes[i])
  }

  /** The free list, listed from freeList: keyless entries chained through
      their position fields and ended by 0. */
  ghost predicate FreeChain<K>(h: Heap<K>, free: seq<int>) {
    && Shaped(h)
    && (forall s, t :: 0 <= s < t < |free| ==> free[s] != free[t])
    && h.freeList == (if free == [] then 0 else free[0])
    && forall t :: 0 <= t < |free| ==>
         && 1 <= free[t] <= h.max
         && h.hasElem[free[t]] && h.hkey[free[t]] == None
         && h.hnode[free[t]] == (if t + 1 < |free| then free[t + 1] else 0)
  }

  /** Everything but the heap order. Handles are numbered 1 .. size + |free|;
      a keyed handle is in the heap; position 1 always names an entry, which
      is keyless when the heap is empty. */
  ghost predicate Structure<K>(h: Heap<K>, free: seq<int>) {
    && Placed(h)
    && FreeChain(h, free)
    && h.nodes[0] == 0 && !h.hasElem[0]
    && 1 <= h.nodes[1] <= h.max && h.hasElem[h.nodes[1]]
    && (h.size == 0 ==> h.hkey[h.nodes[1]] == None)
    && h.size + |free| <= h.max
    && (forall t :: 0 <= t < |free| ==> free[t] <= h.size + |free|)
    && (forall x :: h.size + |free| < x <= h.max ==> h.hkey[x] == None)
    && (forall x :: 1 <= x <= h.max && h.hkey[x].Some? ==> Live(h, x))
  }

  ghost predicate Inv<K>(h: Heap<K>, leq: (K, K) -> bool, free: seq<int>) {
    Structure(h, free) && (h.initialized ==> OrderedFrom(h, leq, 1))
  }

  /** The heap with the handles at positions i and j exchanged. */
  ghost function Swap<K>(h: Heap<K>, i: int, j: int): Heap<K>
    requires Placed(h) && 1 <= i <= h.size && 1 <= j <= h.size
  {
    assert PlacedAt(h, i) && PlacedAt(h, j);
    var a, b := h.nodes[i], h.nodes[j];
    h.(nodes := h.nodes[i := b][j := a], hnode := h.hnode[a := j][b := i])
  }

  lemma SwapFacts<K>(h: Heap<K>, i: int, j: int)
    requires Placed(h) && 1 <= i <= h.size && 1 <= j <= h.size && i != j
    ensures Placed(Swap(h, i, j)) && SameLive(h, Swap(h, i, j))
    ensures Key(Swap(h, i, j), i) == Key(h, j) && Key(Swap(h, i, j), j) == Key(h, i)
    ensures forall k :: 1 <= k <= h.size && k != i && k != j ==>
      Swap(h, i, j).nodes[k] == h.nodes[k] && Key(Swap(h, i, j), k) == Key(h, k)
  {
    var w := Swap(h, i, j);
    var a, b := h.nodes[i], h.nodes[j];
    assert PlacedAt(h, i) && PlacedAt(h, j);
    assert a != b;
    forall k | 1 <= k <= h.size
      ensures PlacedAt(w, k)
      ensures k != i && k != j ==> w.nodes[k] == h.nodes[k]
    {
      if k != i && k != j {
        assert PlacedAt(h, k);
        assert h.nodes[k] != a && h.nodes[k] != b;
      }
    }
    forall x ensures Live(h, x) <==> Live(w, x) {
      if Live(h, x) && x != a && x != b {
        assert PlacedAt(h, h.hnode[x]);
      }
      if Live(w, x) && x != a && x != b {
        assert PlacedAt(w, w.hnode[x]);
        assert h.hnode[x] == w.hnode[x];
      }
    }
  }

  /** Moving c's smaller child up over c keeps the order, with the exception
      moved to the child's position. */
  lemma SiftDownStep<K(!new)>(v: Heap<K>, leq: (K, K) -> bool, c: int, child: int, lo: int)
    requires TotalPreorder(leq) && 1 <= lo <= c && ExceptDown(v, leq, c, lo)
    requires child / 2 == c && child <= v.size
    requires forall s :: 2 <= s <= v.size && s / 2 == c ==> leq(Key(v, child), Key(v, s))
    requires !leq(Key(v, c), Key(v, child))
    ensures ExceptDown(Swap(v, c, child), leq, child, lo) && SameLive(v, Swap(v, c, child))
  {
    var w := Swap(v, c, child);
    SwapFacts(v, c, child);
    forall k | 2 <= k <= w.size && lo <= k / 2 && k / 2 != child
      ensures leq(Key(w, k / 2), Key(w, k))
    {
      if k == child {
      } else if k == c {
        assert leq(Key(v, c / 2), Key(v, child));
      } else if k / 2 == c {
        assert leq(Key(v, child), Key(v, k));
      } else {
        assert leq(Key(v, k / 2), Key(v, k));
      }
    }
  }

  /** The child floatDown picks, the right one only when it is `leq` the
      left, is `leq` every child of c. */
  lemma SmallerChild<K(!new)>(v: Heap<K>, leq: (K, K) -> bool, c: int, child: int)
    requires TotalPreorder(leq) && Placed(v) && 1 <= c && child <= v.size
    requires child == 2 * c || child == 2 * c + 1
    requires child == 2 * c + 1 ==> leq(Key(v, 2 * c + 1), Key(v, 2 * c))
    requires child == 2 * c && 2 * c < v.size ==> !leq(Key(v, 2 * c + 1), Key(v, 2 * c))
    ensures forall s :: 2 <= s <= v.size && s / 2 == c ==> leq(Key(v, child), Key(v, s))
  {
    forall s | 2 <= s <= v.size && s / 2 == c ensures leq(Key(v, child), Key(v, s)) {
      assert s == 2 * c || s == 2 * c + 1;
    }
  }

  /** When c is `leq` its smaller child, or has none, the order is whole. */
  lemma SiftDownDone<K(!new)>(v: Heap<K>, leq: (K, K) -> bool, c: int, child: int, lo: int)
    requires TotalPreorder(leq) && 1 <= lo <= c && ExceptDown(v, leq, c, lo)
    requires child == 2 * c || (child == 2 * c + 1 && child <= v.size)
    requires child <= v.size ==>
      && (forall s :: 2 <= s <= v.size && s / 2 == c ==> leq(Key(v, child), Key(v, s)))
      && leq(Key(v, c), Key(v, child))
    ensures OrderedFrom(v, leq, lo)
  {
    forall k | 2 <= k <= v.size && lo <= k / 2 ensures leq(Key(v, k / 2), Key(v, k)) {
      if k / 2 == c {
        assert child <= v.size;
        assert leq(Key(v, child), Key(v, k));
      }
    }
  }

  /** Moving c's parent down below c keeps the order, with the exception
      moved to the parent's position. */
  lemma SiftUpStep<K(!new)>(v: Heap<K>, leq: (K, K) -> bool, c: int)
    requires TotalPreorder(leq) && ExceptUp(v, leq, c) && 1 < c
    requires !leq(Key(v, c / 2), Key(v, c))
    ensures ExceptUp(Swap(v, c / 2, c), leq, c / 2) && SameLive(v, Swap(v, c / 2, c))
  {
    var p := c / 2;
    var w := Swap(v, p, c);
    SwapFacts(v, p, c);
    forall k | 2 <= k <= w.size && k != p ensures leq(Key(w, k / 2), Key(w, k)) {
      if k == c {
      } else if k / 2 == p {
        assert leq(Key(v, p), Key(v, k));
      } else if k / 2 == c {
        assert leq(Key(v, p), Key(v, k));
      } else {
        assert leq(Key(v, k / 2), Key(v, k));
      }
    }
    if 1 < p {
      forall k | 2 <= k <= w.size && k / 2 == p ensures leq(Key(w, p / 2), Key(w, k)) {
        assert leq(Key(v, p / 2), Key(v, p));
        if k != c {
          assert leq(Key(v, p), Key(v, k));
        }
      }
    }
  }

  /** The heap while a float is under way: hCurr is held aside and position
      curr is the hole it will drop into. */
  ghost function Held<K>(h: Heap<K>, nodes: seq<int>, hnode: seq<int>, curr: int, hCurr: int): Heap<K>
    requires 0 <= curr < |nodes| && 0 <= hCurr < |hnode|
  {
    h.(nodes := nodes[curr := hCurr], hnode := hnode[hCurr := curr])
  }

  /** floatDown's loop invariant. */
  ghost predicate DownLoop<K>(h: Heap<K>, leq: (K, K) -> bool, nodes: seq<int>, hnode: seq<int>, curr: int, hCurr: int, lo: int) {
    && 1 <= lo <= curr <= h.size && |nodes| == |h.nodes| && |hnode| == |h.hnode|
    && curr < |nodes| && 0 <= hCurr < |hnode|
    && ExceptDown(Held(h, nodes, hnode, curr, hCurr), leq, curr, lo)
    && SameLive(h, Held(h, nodes, hnode, curr, hCurr))
  }

  /** What floatDown reads is there to read. */
  lemma DownReads<K>(h: Heap<K>, leq: (K, K) -> bool, nodes: seq<int>, hnode: seq<int>, curr: int, hCurr: int, lo: int)
    requires DownLoop(h, leq, nodes, hnode, curr, hCurr, lo)
    ensures 2 * curr <= h.max && |nodes| == h.max + 1
    ensures 0 <= hCurr < |h.hkey| && h.hkey[hCurr].Some?
    ensures forall i :: 1 <= i <= h.size && i != curr ==> 0 <= nodes[i] < |h.hkey| && h.hkey[nodes[i]].Some?
  {
    var v := Held(h, nodes, hnode, curr, hCurr);
    assert PlacedAt(v, curr);
    forall i | 1 <= i <= h.size && i != curr
      ensures 0 <= nodes[i] < |h.hkey| && h.hkey[nodes[i]].Some?
    {
      assert PlacedAt(v, i);
    }
  }

  /** Moving the chosen child up into the hole moves the hole down. */
  lemma DownStep<K(!new)>(h: Heap<K>, leq: (K, K) -> bool, nodes: seq<int>, hnode: seq<int>, curr: int, hCurr: int, child: int, lo: int)
    requires TotalPreorder(leq) && DownLoop(h, leq, nodes, hnode, curr, hCurr, lo)
    requires 0 <= hCurr < |h.hkey| && h.hkey[hCurr].Some? && |nodes| > h.size
    requires forall i :: 1 <= i <= h.size && i != curr ==> 0 <= nodes[i] < |h.hkey| && h.hkey[nodes[i]].Some?
    requires child == 2 * curr || child == 2 * curr + 1
    requires child <= h.size
    requires child == 2 * curr + 1 ==>
      leq(h.hkey[nodes[2 * curr + 1]].value, h.hkey[nodes[2 * curr]].value)
    requires child == 2 * curr && 2 * curr < h.size ==>
      !leq(h.hkey[nodes[2 * curr + 1]].value, h.hkey[nodes[2 * curr]].value)
    requires !leq(h.hkey[hCurr].value, h.hkey[nodes[child]].value)
    ensures 0 <= nodes[child] < |hnode|
    ensures DownLoop(h, leq, nodes[curr := nodes[child]], hnode[nodes[child] := curr], child, hCurr, lo)
  {
    var v := Held(h, nodes, hnode, curr, hCurr);
    assert PlacedAt(v, curr) && PlacedAt(v, child);
    if child == 2 * curr + 1 || 2 * curr < h.size {
      assert PlacedAt(v, 2 * curr) && PlacedAt(v, 2 * curr + 1);
    }
    SmallerChild(v, leq, curr, child);
    SiftDownStep(v, leq, curr, child, lo);
    HeldSwap(h, nodes, hnode, curr, hCurr, child);
  }

  /** Filling the hole at i from position j of a held heap is the swap of
      positions i and j. */
  lemma HeldSwap<K>(h: Heap<K>, nodes: seq<int>, hnode: seq<int>, i: int, hCurr: int, j: int)
    requires 0 <= i < |nodes| && 0 <= hCurr < |hnode| && i != j
    requires Placed(Held(h, nodes, hnode, i, hCurr))
    requires 1 <= i <= h.size && 1 <= j <= h.size
    ensures 0 <= nodes[j] < |hnode|
    ensures Held(h, nodes[i := nodes[j]], hnode[nodes[j] := i], j, hCurr)
         == Swap(Held(h, nodes, hnode, i, hCurr), i, j)
  {
    var v := Held(h, nodes, hnode, i, hCurr);
    assert PlacedAt(v, i) && PlacedAt(v, j);
    var w := Swap(v, i, j);
    var hj := nodes[j];
    assert nodes[i := hj][j := hCurr] == w.nodes;
    assert hnode[hj := i][hCurr := j] == w.hnode;
  }

  /** Dropping hCurr into the hole once its smaller child is not below it
      completes the order. */
  lemma DownDone<K(!new)>(h: Heap<K>, leq: (K, K) -> bool, nodes: seq<int>, hnode: seq<int>, curr: int, hCurr: int, child: int, lo: int)
    requires TotalPreorder(leq) && DownLoop(h, leq, nodes, hnode, curr, hCurr, lo)
    requires 0 <= hCurr < |h.hkey| && h.hkey[hCurr].Some? && |nodes| > h.size
    requires forall i :: 1 <= i <= h.size && i != curr ==> 0 <= nodes[i] < |h.hkey| && h.hkey[nodes[i]].Some?
    requires child == 2 * curr || (child == 2 * curr + 1 && child <= h.size)
    requires child == 2 * curr + 1 ==>
      leq(h.hkey[nodes[2 * curr + 1]].value, h.hkey[nodes[2 * curr]].value)
    requires child == 2 * curr && 2 * curr < h.size ==>
      !leq(h.hkey[nodes[2 * curr + 1]].value, h.hkey[nodes[2 * curr]].value)
    requires child <= h.size ==> leq(h.hkey[hCurr].value, h.hkey[nodes[child]].value)
    ensures SameLive(h, Held(h, nodes, hnode, curr, hCurr))
    ensures OrderedFrom(Held(h, nodes, hnode, curr, hCurr), leq, lo)
  {
    var v := Held(h, nodes, hnode, curr, hCurr);
    assert PlacedAt(v, curr);
    if child <= h.size {
      assert PlacedAt(v, child);
      if child == 2 * curr + 1 || 2 * curr < h.size {
        assert PlacedAt(v, 2 * curr) && PlacedAt(v, 2 * curr + 1);
      }
      SmallerChild(v, leq, curr, child);
    }
    SiftDownDone(v, leq, curr, child, lo);
  }

  /** floatDown(curr): carries the handle at curr down to where it is `leq`
      its children. */
  method FloatDown<K(!new)>(h: Heap<K>, leq: (K, K) -> bool, curr0: int, ghost lo: int)
    returns (h': Heap<K>)
    requires TotalPreorder(leq) && 1 <= lo <= curr0 && ExceptDown(h, leq, curr0, lo)
    ensures SameLive(h, h') && OrderedFrom(h', leq, lo)
  {
    var curr := curr0;
    var hCurr := h.nodes[curr];
    var nodes, hnode := h.nodes, h.hnode;
    assert PlacedAt(h, curr);
    assert Held(h, nodes, hnode, curr, hCurr) == h;
    while true
      invariant DownLoop(h, leq, nodes, hnode, curr, hCurr, lo)
      decreases h.size - curr
    {
      DownReads(h, leq, nodes, hnode, curr, hCurr, lo);
      var child := curr * 2;
      if child < h.size && leq(h.hkey[nodes[child + 1]].value, h.hkey[nodes[child]].value) {
        child := child + 1;
      }
      var hChild := nodes[child];
      if child > h.size || leq(h.hkey[hCurr].value, h.hkey[hChild].value) {
        DownDone(h, leq, nodes, hnode, curr, hCurr, child, lo);
        nodes := nodes[curr := hCurr];
        hnode := hnode[hCurr := curr];
        h' := h.(nodes := nodes, hnode := hnode);
        return;
      }
      DownStep(h, leq, nodes, hnode, curr, hCurr, child, lo);
      nodes := nodes[curr := hChild];
      hnode := hnode[hChild := curr];
      curr := child;
    }
  }

  /** floatUp's loop invariant. */
  ghost predicate UpLoop<K>(h: Heap<K>, leq: (K, K) -> bool, nodes: seq<int>, hnode: seq<int>, curr: int, hCurr: int) {
    && 1 <= curr <= h.size && |nodes| == |h.nodes| && |hnode| == |h.hnode|
    && curr < |nodes| && 0 <= hCurr < |hnode|
    && ExceptUp(Held(h, nodes, hnode, curr, hCurr), leq, curr)
    && SameLive(h, Held(h, nodes, hnode, curr, hCurr))
  }

  /** What floatUp reads is there to read. */
  lemma UpReads<K>(h: Heap<K>, leq: (K, K) -> bool, nodes: seq<int>, hnode: seq<int>, curr: int, hCurr: int)
    requires UpLoop(h, leq, nodes, hnode, curr, hCurr)
    ensures |nodes| == h.max + 1
    ensures 0 <= hCurr < |h.hkey| && h.hkey[hCurr].Some?
    ensures curr > 1 ==> 0 <= nodes[curr / 2] < |h.hkey| && h.hkey[nodes[curr / 2]].Some?
  {
    var v := Held(h, nodes, hnode, curr, hCurr);
    assert PlacedAt(v, curr);
    if curr > 1 {
      assert PlacedAt(v, curr / 2);
    }
  }

  /** Moving the parent down into the hole moves the hole up. */
  lemma UpStep<K(!new)>(h: Heap<K>, leq: (K, K) -> bool, nodes: seq<int>, hnode: seq<int>, curr: int, hCurr: int)
    requires TotalPreorder(leq) && UpLoop(h, leq, nodes, hnode, curr, hCurr) && curr > 1
    requires 0 <= nodes[curr / 2] < |h.hkey| && h.hkey[nodes[curr / 2]].Some? && h.hkey[hCurr].Some?
    requires !leq(h.hkey[nodes[curr / 2]].value, h.hkey[hCurr].value)
    ensures 0 <= nodes[curr / 2] < |hnode|
    ensures UpLoop(h, leq, nodes[curr := nodes[curr / 2]], hnode[nodes[curr / 2] := curr], curr / 2, hCurr)
  {
    var v := Held(h, nodes, hnode, curr, hCurr);
    var parent := curr / 2;
    assert PlacedAt(v, curr) && PlacedAt(v, parent);
    SiftUpStep(v, leq, curr);
    HeldSwap(h, nodes, hnode, curr, hCurr, parent);
    assert Swap(v, curr, parent) == Swap(v, parent, curr);
  }

  /** Dropping hCurr into the hole at the top, or below a parent `leq` it,
      completes the order. */
  lemma UpDone<K(!new)>(h: Heap<K>, leq: (K, K) -> bool, nodes: seq<int>, hnode: seq<int>, curr: int, hCurr: int)
    requires TotalPreorder(leq) && UpLoop(h, leq, nodes, hnode, curr, hCurr)
    requires curr > 1 ==> 0 <= nodes[curr / 2] < |h.hkey| && h.hkey[nodes[curr / 2]].Some? && h.hkey[hCurr].Some?
    requires curr > 1 ==> leq(h.hkey[nodes[curr / 2]].value, h.hkey[hCurr].value)
    ensures SameLive(h, Held(h, nodes, hnode, curr, hCurr))
    ensures OrderedFrom(Held(h, nodes, hnode, curr, hCurr), leq, 1)
  {
    var v := Held(h, nodes, hnode, curr, hCurr);
    assert PlacedAt(v, curr);
    if curr > 1 {
      assert PlacedAt(v, curr / 2);
    }
  }

  /** floatUp(curr): carries the handle at curr up to where its parent is
      `leq` it. */
  method FloatUp<K(!new)>(h: Heap<K>, leq: (K, K) -> bool, curr0: int) returns (h': Heap<K>)
    requires TotalPreorder(leq) && ExceptUp(h, leq, curr0)
    ensures SameLive(h, h') && OrderedFrom(h', leq, 1)
  {
    var curr := curr0;
    var hCurr := h.nodes[curr];
    var nodes, hnode := h.nodes, h.hnode;
    assert PlacedAt(h, curr);
    assert Held(h, nodes, hnode, curr, hCurr) == h;
    while true
      invariant UpLoop(h, leq, nodes, hnode, curr, hCurr)
      decreases curr
    {
      UpReads(h, leq, nodes, hnode, curr, hCurr);
      var parent := curr / 2;
      var hParent := nodes[parent];
      if parent == 0 || leq(h.hkey[hParent].value, h.hkey[hCurr].value) {
        UpDone(h, leq, nodes, hnode, curr, hCurr);
        nodes := nodes[curr := hCurr];
        hnode := hnode[hCurr := curr];
        h' := h.(nodes := nodes, hnode := hnode);
        return;
      }
      UpStep(h, leq, nodes, hnode, curr, hCurr);
      nodes := nodes[curr := hParent];
      hnode := hnode[hParent := curr];
      curr := parent;
    }
  }
  /** Rearranging the heap's handles keeps everything but the order. */
  lemma StructureKept<K>(h: Heap<K>, h': Heap<K>, free: seq<int>)
    requires Structure(h, free) && SameLive(h, h') && Placed(h')
    ensures Structure(h', free)
  {
    if h.size >= 1 {
      assert PlacedAt(h', 1);
    }
    forall x | Live(h, x) ensures h.hkey[x].Some? {
      assert PlacedAt(h, h.hnode[x]);
    }
  }

  /** init(initialSize): an empty heap with room for initialSize handles.
      Position 1 names a keyless handle 1, so minimum() of the empty heap is
      nil. */
  method Init<K>(initialSize: int, leq: (K, K) -> bool) returns (h: Heap<K>, ghost free: seq<int>)
    requires initialSize >= 1
    ensures Inv(h, leq, free) && free == []
    ensures h.size == 0 && h.max == initialSize && !h.initialized && h.freeList == 0
  {
    var nodes := seq(initialSize + 1, _ => 0);
    var hasElem := seq(initialSize + 1, _ => false);
    var hkey: seq<Option<K>> := seq(initialSize + 1, _ => None);
    var hnode := seq(initialSize + 1, _ => 0);
    h := Heap(nodes[1 := 1], hasElem[1 := true], hkey, hnode, 0, initialSize, 0, false);
    free := [];
  }

  /** initialize(): floats every position down, last to first, and marks the
      heap initialized; the heap order then holds. */
  method Initialize<K(!new)>(h: Heap<K>, leq: (K, K) -> bool, ghost free: seq<int>) returns (h': Heap<K>)
    requires TotalPreorder(leq) && Structure(h, free)
    ensures Inv(h', leq, free) && h'.initialized
    ensures SameLive(h, h'.(initialized := h.initialized))
  {
    var i := h.size;
    h' := h;
    while i >= 1
      invariant 0 <= i <= h.size && SameLive(h, h') && OrderedFrom(h', leq, i + 1)
    {
      h' := FloatDown(h', leq, i, i);
      i := i - 1;
    }
    StructureKept(h, h', free);
    Reflag(h', leq, free);
    h' := h'.(initialized := true);
  }

  /** Marking the heap initialized changes nothing else. */
  lemma Reflag<K>(h: Heap<K>, leq: (K, K) -> bool, free: seq<int>)
    requires Structure(h, free) && OrderedFrom(h, leq, 1)
    ensures Structure(h.(initialized := true), free) && OrderedFrom(h.(initialized := true), leq, 1)
  {
    var h2 := h.(initialized := true);
    forall i | 1 <= i <= h.size ensures PlacedAt(h2, i) && Key(h2, i) == Key(h, i) {
      assert PlacedAt(h, i);
    }
    forall x ensures Live(h2, x) == Live(h, x) {
    }
  }

  /** Every key in an ordered heap is `leq`-above the one at the top. */
  lemma {:induction false} TopIsLeast<K(!new)>(h: Heap<K>, leq: (K, K) -> bool, i: int)
    requires TotalPreorder(leq) && OrderedFrom(h, leq, 1) && 1 <= i <= h.size
    ensures leq(Key(h, 1), Key(h, i))
    decreases i
  {
    if i > 1 {
      TopIsLeast(h, leq, i / 2);
    }
  }

  /** The top key is `leq` the key of every handle in the heap. */
  lemma TopIsMinimum<K(!new)>(h: Heap<K>, leq: (K, K) -> bool)
    requires TotalPreorder(leq) && OrderedFrom(h, leq, 1) && 1 <= h.size
    ensures forall x :: Live(h, x) ==> h.hkey[x].Some? && leq(Key(h, 1), h.hkey[x].value)
  {
    forall x | Live(h, x) ensures h.hkey[x].Some? && leq(Key(h, 1), h.hkey[x].value) {
      assert PlacedAt(h, h.hnode[x]);
      TopIsLeast(h, leq, h.hnode[x]);
    }
  }

  /** insert(v): takes the head of the free list, or the next unused handle,
      places it at the end and floats it up once the heap is initialized.
      When the heap grows past half its room, the room doubles. */
  method Insert<K(!new)>(h: Heap<K>, leq: (K, K) -> bool, ghost free: seq<int>, v: K)
    returns (h': Heap<K>, handle: int, ghost free': seq<int>)
    requires TotalPreorder(leq) && Inv(h, leq, free)
    ensures Inv(h', leq, free') && h'.size == h.size + 1 && h'.initialized == h.initialized
    ensures 1 <= handle && !Live(h, handle) && Live(h', handle)
    ensures h.freeList != 0 ==> handle == h.freeList && free' == free[1..]
    ensures h.freeList == 0 ==> handle == h.size + 1 && free' == []
    ensures forall x :: x != handle ==> (Live(h', x) <==> Live(h, x))
    ensures |h'.hkey| >= |h.hkey| && h'.hkey[handle] == Some(v)
    ensures forall x :: 0 <= x < |h.hkey| && x != handle ==> h'.hkey[x] == h.hkey[x]
    ensures h'.size + |free'| < INVALID ==> handle != INVALID
  {
    var curr := h.size + 1;
    var h1, x;
    h1, x, free' := Place(h, free, v);
    InsertPlaced(h, leq, free, h1, curr, x, v, free');
    h' := h1;
    if h1.initialized {
      h' := FloatUp(h1, leq, curr);
      StructureKept(h1, h', free');
    }
    handle := x;
  }

  /** insert's writes: the size grows by one (doubling the room when it
      passes half), the handle is taken from the free list or numbered
      next, and placed at the new last position with key v. */
  method Place<K>(h: Heap<K>, ghost free: seq<int>, v: K) returns (h1: Heap<K>, x: int, ghost free': seq<int>)
    requires Structure(h, free)
    ensures InsertWrites(h, free, h1, h.size + 1, x, v, free')
  {
    var curr := h.size + 1;
    h1 := h.(size := curr);
    if curr * 2 > h.max {
      h1 := Grow(h1);
    }
    var freeList: int;
    if h.freeList == 0 {
      x := curr;
      freeList := 0;
      free' := [];
    } else {
      x := h.freeList;
      freeList := h1.hnode[x];
      free' := free[1..];
    }
    h1 := h1.(nodes := h1.nodes[curr := x], hasElem := h1.hasElem[x := true],
              hkey := h1.hkey[x := Some(v)], hnode := h1.hnode[x := curr], freeList := freeList);
  }

  /** Doubles the room, padding both tables to max + 1 entries. */
  method Grow<K>(h: Heap<K>) returns (h': Heap<K>)
    requires |h.nodes| == |h.hasElem| == |h.hkey| == |h.hnode| == h.max + 1 && 1 <= h.max
    ensures h'.max == 2 * h.max
    ensures |h'.nodes| == |h'.hasElem| == |h'.hkey| == |h'.hnode| == h'.max + 1
    ensures h'.nodes[..|h.nodes|] == h.nodes && h'.hnode[..|h.hnode|] == h.hnode
    ensures h'.hasElem[..|h.hasElem|] == h.hasElem && h'.hkey[..|h.hkey|] == h.hkey
    ensures forall x :: |h.nodes| <= x < |h'.nodes| ==>
      h'.nodes[x] == 0 && !h'.hasElem[x] && h'.hkey[x] == None && h'.hnode[x] == 0
    ensures h'.size == h.size && h'.freeList == h.freeList && h'.initialized == h.initialized
  {
    var max := h.max * 2;
    var pad := GrowthPad(|h.nodes|, max);
    h' := h.(nodes := h.nodes + seq(pad, _ => 0), hasElem := h.hasElem + seq(pad, _ => false),
             hkey := h.hkey + seq(pad, _ => None), hnode := h.hnode + seq(pad, _ => 0), max := max);
  }

  /** The number of entries to append to a table of count entries so that
      it has room for positions and handles up to newMax. */
  function GrowthPad(count: int, newMax: int): (pad: nat)
    requires count <= newMax + 1
    ensures count + pad == newMax + 1
  {
    newMax + 1 - count
  }

  /** The padding the source computes when the room doubles: the old count
      minus the new room, plus one. */
  function GrowthPadAsWritten(count: int, newMax: int): (pad: int)
    ensures pad + newMax == count + 1
  {
    count - newMax + 1
  }

  /** For every room of 3 or more, doubling asks for a negative number of
      entries (an `Array(repeating:count:)` trap); from room 2 it appends
      none, leaving the tables one doubling short. */
  lemma GrowthPadAsWrittenFails(max: int)
    requires max >= 2
    ensures GrowthPadAsWritten(max + 1, 2 * max) + (max + 1) < 2 * max + 1
    ensures max >= 3 ==> GrowthPadAsWritten(max + 1, 2 * max) < 0
    ensures GrowthPad(max + 1, 2 * max) + (max + 1) == 2 * max + 1
  {
  }

  /** insert's writes, before floating: x is placed at the new last
      position curr, and the free list loses x when x came from it. */
  ghost predicate InsertWrites<K>(h: Heap<K>, free: seq<int>, h1: Heap<K>, curr: int, x: int, v: K, free': seq<int>) {
    && Structure(h, free) && curr == h.size + 1
    && (h.freeList != 0 ==> x == h.freeList && free' == free[1..])
    && (h.freeList == 0 ==> x == curr && free' == [])
    && 2 * curr <= h1.max && h.max <= h1.max
    && |h1.nodes| == |h1.hasElem| == |h1.hkey| == |h1.hnode| == h1.max + 1
    && h1.size == curr && h1.initialized == h.initialized
    && h1.freeList == (if h.freeList == 0 then 0 else h.hnode[x])
    && (forall i :: 0 <= i < |h.nodes| && i != curr ==> h1.nodes[i] == h.nodes[i])
    && (forall y :: 0 <= y < |h.nodes| && y != x ==>
          h1.hasElem[y] == h.hasElem[y] && h1.hkey[y] == h.hkey[y] && h1.hnode[y] == h.hnode[y])
    && (forall y :: |h.nodes| <= y < |h1.nodes| && y != x ==> !h1.hasElem[y] && h1.hkey[y] == None)
    && h1.nodes[curr] == x && h1.hasElem[x] && h1.hkey[x] == Some(v) && h1.hnode[x] == curr
  }

  /** The handle insert takes is numbered, keyless and out of the heap. */
  lemma InsertTakes<K>(h: Heap<K>, free: seq<int>, h1: Heap<K>, curr: int, x: int, v: K, free': seq<int>)
    requires InsertWrites(h, free, h1, curr, x, v, free')
    ensures 1 <= x <= h.max && h.hkey[x] == None && !Live(h, x)
    ensures x <= h1.size + |free'| && h1.size + |free'| == h.size + |free| + (if h.freeList == 0 then 1 else 0)
  {
    if h.freeList != 0 {
      assert x == free[0];
    }
    forall y | Live(h, y) ensures h.hkey[y].Some? {
      assert PlacedAt(h, h.hnode[y]);
    }
  }

  lemma InsertLive<K>(h: Heap<K>, free: seq<int>, h1: Heap<K>, curr: int, x: int, v: K, free': seq<int>)
    requires InsertWrites(h, free, h1, curr, x, v, free')
    requires 1 <= x <= h.max && h.hkey[x] == None && !Live(h, x)
    ensures Placed(h1) && Live(h1, x)
    ensures forall i :: 1 <= i < curr ==> Key(h1, i) == Key(h, i)
    ensures forall y :: y != x ==> (Live(h1, y) <==> Live(h, y))
  {
    forall i | 1 <= i <= h1.size ensures PlacedAt(h1, i) && (i < curr ==> Key(h1, i) == Key(h, i)) {
      if i < curr {
        assert PlacedAt(h, i);
        assert h.nodes[i] != x;
      }
    }
    forall y ensures y != x ==> (Live(h1, y) <==> Live(h, y)) {
      if y != x && Live(h1, y) {
        assert PlacedAt(h1, h1.hnode[y]);
        assert PlacedAt(h, h1.hnode[y]);
      }
      if y != x && Live(h, y) {
        assert PlacedAt(h, h.hnode[y]);
      }
    }
  }

  lemma InsertFree<K>(h: Heap<K>, free: seq<int>, h1: Heap<K>, curr: int, x: int, v: K, free': seq<int>)
    requires InsertWrites(h, free, h1, curr, x, v, free')
    requires Shaped(h1)
    ensures FreeChain(h1, free')
  {
    if h.freeList != 0 {
      forall t | 0 <= t < |free'|
        ensures 1 <= free'[t] <= h1.max && h1.hasElem[free'[t]] && h1.hkey[free'[t]] == None
        ensures h1.hnode[free'[t]] == (if t + 1 < |free'| then free'[t + 1] else 0)
      {
        assert free'[t] == free[t + 1] && free'[t] != x;
        assert t + 1 < |free'| ==> free'[t + 1] == free[t + 2];
        assert h.hnode[free[t + 1]] == (if t + 2 < |free| then free[t + 2] else 0);
      }
    }
  }

  /** After insert's writes, before floating: the new handle sits at the end
      and the rest of the structure holds. */
  lemma InsertPlaced<K(!new)>(h: Heap<K>, leq: (K, K) -> bool, free: seq<int>, h1: Heap<K>, curr: int, x: int, v: K, free': seq<int>)
    requires InsertWrites(h, free, h1, curr, x, v, free')
    ensures Structure(h1, free') && 1 <= x && !Live(h, x) && Live(h1, x)
    ensures forall y :: y != x ==> (Live(h1, y) <==> Live(h, y))
    ensures h1.initialized && OrderedFrom(h, leq, 1) ==> ExceptUp(h1, leq, curr)
    ensures h1.size + |free'| < INVALID ==> x != INVALID
  {
    InsertTakes(h, free, h1, curr, x, v, free');
    InsertLive(h, free, h1, curr, x, v, free');
    InsertFree(h, free, h1, curr, x, v, free');
    forall y | 1 <= y <= h1.max && h1.hkey[y].Some? ensures Live(h1, y) {
      if y != x {
        assert Live(h, y);
      }
    }
    assert h1.nodes[0] == 0;
  }

  /** The heap with position c refilled from the last position and the size
      one smaller: the first step of both extractMin and remove. */
  ghost function Fill<K>(h: Heap<K>, c: int): Heap<K>
    requires Placed(h) && 1 <= c <= h.size
  {
    assert PlacedAt(h, h.size);
    var z := h.nodes[h.size];
    h.(nodes := h.nodes[c := z], hnode := h.hnode[z := c], size := h.size - 1)
  }

  /** Refilling keeps every handle but the one at c in the heap, with the
      same key; the handles outside it keep their chain fields. */
  lemma FillLive<K>(h: Heap<K>, c: int)
    requires Placed(h) && 1 <= c <= h.size
    ensures Placed(Fill(h, c))
    ensures forall y :: Live(Fill(h, c), y) <==> Live(h, y) && y != h.nodes[c]
    ensures forall y :: 0 <= y < |h.hnode| && !Live(h, y) ==> Fill(h, c).hnode[y] == h.hnode[y]
    ensures forall i :: 1 <= i < h.size && i != c ==> Fill(h, c).nodes[i] == h.nodes[i]
    ensures c < h.size ==> Fill(h, c).nodes[c] == h.nodes[h.size]
    ensures forall i :: 0 <= i < |h.nodes| && (i == 0 || i > h.size) ==> Fill(h, c).nodes[i] == h.nodes[i]
    ensures Fill(h, c).size == 0 ==> Fill(h, c).nodes[1] == h.nodes[c]
  {
    var g := Fill(h, c);
    var z := h.nodes[h.size];
    assert PlacedAt(h, c) && PlacedAt(h, h.size);
    forall i | 1 <= i <= g.size ensures PlacedAt(g, i) {
      assert PlacedAt(h, i);
      if i != c {
        assert h.nodes[i] != z;
      }
    }
    forall y ensures Live(g, y) <==> Live(h, y) && y != h.nodes[c] {
      if Live(h, y) {
        assert PlacedAt(h, h.hnode[y]);
      }
      if Live(g, y) {
        assert PlacedAt(g, g.hnode[y]);
        if y != z {
          assert PlacedAt(h, g.hnode[y]);
        }
      }
    }
  }

  /** The order after refilling position c: it breaks at most at c, downward
      when c's parent is `leq` the new key (or c is the top), upward
      otherwise. */
  lemma FillOrder<K(!new)>(h: Heap<K>, leq: (K, K) -> bool, c: int)
    requires TotalPreorder(leq) && OrderedFrom(h, leq, 1) && 1 <= c <= h.size
    requires Placed(Fill(h, c))
    requires forall i :: 1 <= i < h.size && i != c ==> Fill(h, c).nodes[i] == h.nodes[i]
    requires c < h.size ==> Fill(h, c).nodes[c] == h.nodes[h.size]
    ensures c == h.size ==> OrderedFrom(Fill(h, c), leq, 1)
    ensures c < h.size && (c == 1 || leq(Key(Fill(h, c), c / 2), Key(Fill(h, c), c))) ==>
      ExceptDown(Fill(h, c), leq, c, 1)
    ensures c < h.size && !(c == 1 || leq(Key(Fill(h, c), c / 2), Key(Fill(h, c), c))) ==>
      ExceptUp(Fill(h, c), leq, c)
  {
    var g := Fill(h, c);
    forall i | 1 <= i <= g.size && i != c ensures Key(g, i) == Key(h, i) {
      assert PlacedAt(h, i);
    }
    if c < h.size {
      assert PlacedAt(h, h.size) && Key(g, c) == Key(h, h.size);
      if c > 1 {
        forall k | 2 <= k <= g.size && k / 2 == c ensures leq(Key(g, c / 2), Key(g, k)) {
          assert leq(Key(h, c / 2), Key(h, c));
        }
      }
      if !(c == 1 || leq(Key(g, c / 2), Key(g, c))) {
        forall k | 2 <= k <= g.size && k / 2 == c ensures leq(Key(g, c), Key(g, k)) {
          assert leq(Key(h, c / 2), Key(h, c));
        }
      }
    }
  }

  /** Freeing handle hc, which has just left the heap: its key becomes nil
      and it goes to the front of the free list. */
  ghost function Free<K>(h: Heap<K>, hc: int, freeList: int): Heap<K>
    requires 0 <= hc < |h.hkey| && hc < |h.hnode|
  {
    h.(hkey := h.hkey[hc := None], hnode := h.hnode[hc := freeList], freeList := hc)
  }

  /** Freeing a handle outside the heap changes no position and no key the
      heap holds. */
  lemma FreePlaced<K>(g: Heap<K>, hc: int, fl: int, leq: (K, K) -> bool)
    requires Placed(g) && 0 <= hc < |g.hkey| && hc < |g.hnode| && !Live(g, hc)
    ensures Placed(Free(g, hc, fl))
    ensures forall y :: Live(Free(g, hc, fl), y) <==> Live(g, y)
    ensures forall i :: 1 <= i <= g.size ==> Key(Free(g, hc, fl), i) == Key(g, i)
    ensures OrderedFrom(g, leq, 1) ==> OrderedFrom(Free(g, hc, fl), leq, 1)
    ensures ExceptDown(g, leq, 1, 1) ==> ExceptDown(Free(g, hc, fl), leq, 1, 1)
  {
    var f := Free(g, hc, fl);
    forall i | 1 <= i <= g.size ensures PlacedAt(f, i) && Key(f, i) == Key(g, i) {
      assert PlacedAt(g, i);
      assert Live(g, g.nodes[i]);
    }
    forall y | Live(f, y) ensures f.hkey[y].Some? {
      assert PlacedAt(f, f.hnode[y]);
    }
  }

  /** The link of the u-th free-list entry. */
  lemma FreeNext<K>(h: Heap<K>, free: seq<int>, u: int)
    requires FreeChain(h, free) && 0 <= u < |free|
    ensures 1 <= free[u] <= h.max && h.hkey[free[u]] == None
    ensures h.hnode[free[u]] == (if u + 1 < |free| then free[u + 1] else 0)
  {
  }

  /** A handle in the heap has a key. */
  lemma LiveKeyed<K>(h: Heap<K>, x: int)
    requires Placed(h)
    ensures Live(h, x) ==> h.hkey[x].Some?
  {
    if Live(h, x) {
      assert PlacedAt(h, h.hnode[x]);
    }
  }

  /** Entry t of a free list is a keyless handle that links to entry t + 1. */
  ghost predicate LinkAt<K>(f: Heap<K>, free: seq<int>, t: int)
    requires Shaped(f) && 0 <= t < |free|
  {
    && 1 <= free[t] <= f.max && f.hasElem[free[t]] && f.hkey[free[t]] == None
    && f.hnode[free[t]] == (if t + 1 < |free| then free[t + 1] else 0)
  }

  /** A chain with one more handle in front is a chain. */
  lemma FreeChainCons<K>(f: Heap<K>, free: seq<int>, hc: int)
    requires Shaped(f) && f.freeList == hc && 1 <= hc <= f.max
    requires f.hasElem[hc] && f.hkey[hc] == None && f.hnode[hc] == (if free == [] then 0 else free[0])
    requires forall t :: 0 <= t < |free| ==> free[t] != hc
    requires forall s, t :: 0 <= s < t < |free| ==> free[s] != free[t]
    requires forall t :: 0 <= t < |free| ==> LinkAt(f, free, t)
    ensures FreeChain(f, [hc] + free)
  {
    var free' := [hc] + free;
    forall t | 0 <= t < |free'|
      ensures 1 <= free'[t] <= f.max && f.hasElem[free'[t]] && f.hkey[free'[t]] == None
      ensures f.hnode[free'[t]] == (if t + 1 < |free'| then free'[t + 1] else 0)
    {
      if t == 0 {
        assert |free'| > 1 ==> free'[1] == free[0];
      } else {
        var u := t - 1;
        assert free'[t] == free[u] && 0 <= u < |free|;
        assert LinkAt(f, free, u);
        assert t + 1 < |free'| ==> free'[t + 1] == free[u + 1];
      }
    }
    forall s, t | 0 <= s < t < |free'| ensures free'[s] != free'[t] {
      assert free'[t] == free[t - 1];
      if s > 0 {
        assert free'[s] == free[s - 1];
      }
    }
  }

  /** Pushing hc, just out of the heap, on the free list keeps the chain. */
  lemma FreeChainPush<K>(h: Heap<K>, free: seq<int>, g: Heap<K>, hc: int)
    requires Structure(h, free) && Live(h, hc) && Shaped(g)
    requires g.size + 1 == h.size && g.max == h.max && g.hasElem == h.hasElem && g.hkey == h.hkey
    requires forall y :: 0 <= y < |h.hnode| && !Live(h, y) ==> g.hnode[y] == h.hnode[y]
    ensures FreeChain(Free(g, hc, h.freeList), [hc] + free)
    ensures forall t :: 0 <= t < |free| + 1 ==> ([hc] + free)[t] <= g.size + |free| + 1
  {
    var f := Free(g, hc, h.freeList);
    assert PlacedAt(h, h.hnode[hc]);
    assert h.hkey[hc].Some? && h.hasElem[hc] && 1 <= hc <= h.max;
    assert hc <= h.size + |free|;
    forall t | 0 <= t < |free| ensures free[t] != hc && LinkAt(f, free, t) {
      FreeNext(h, free, t);
      LiveKeyed(h, free[t]);
    }
    assert f.hnode[hc] == (if free == [] then 0 else free[0]);
    FreeChainCons(f, free, hc);
    forall t | 0 <= t < |free| + 1 ensures ([hc] + free)[t] <= g.size + |free| + 1 {
      if t > 0 {
        assert ([hc] + free)[t] == free[t - 1];
      }
    }
  }

  /** Freeing hc after it left h keeps the structure, with hc pushed on the
      free list, and keeps the order and the keys at every position. */
  lemma FreeKeeps<K>(h: Heap<K>, free: seq<int>, g: Heap<K>, hc: int, leq: (K, K) -> bool)
    requires Structure(h, free) && Live(h, hc) && Placed(g)
    requires g.size + 1 == h.size && g.max == h.max && g.hasElem == h.hasElem && g.hkey == h.hkey
    requires forall y :: Live(g, y) <==> Live(h, y) && y != hc
    requires forall y :: 0 <= y < |h.hnode| && !Live(h, y) ==> g.hnode[y] == h.hnode[y]
    requires g.nodes[0] == 0 && (g.size == 0 ==> g.nodes[1] == hc)
    ensures Structure(Free(g, hc, h.freeList), [hc] + free)
    ensures forall y :: Live(Free(g, hc, h.freeList), y) <==> Live(g, y)
    ensures OrderedFrom(g, leq, 1) ==> OrderedFrom(Free(g, hc, h.freeList), leq, 1)
    ensures ExceptDown(g, leq, 1, 1) ==> ExceptDown(Free(g, hc, h.freeList), leq, 1, 1)
  {
    var f := Free(g, hc, h.freeList);
    FreePlaced(g, hc, h.freeList, leq);
    FreeChainPush(h, free, g, hc);
    if g.size >= 1 {
      assert PlacedAt(g, 1);
    }
    forall y | 1 <= y <= f.max && f.hkey[y].Some? ensures Live(f, y) {
      assert Live(h, y);
    }
  }

  /** extractMin(): takes the top handle out, refills the top from the last
      position, frees the handle and floats the new top down. An empty heap
      is left as it is, and its minimum is nil. */
  method ExtractMin<K(!new)>(h: Heap<K>, leq: (K, K) -> bool, ghost free: seq<int>)
    returns (h': Heap<K>, m: Option<K>, ghost free': seq<int>)
    requires TotalPreorder(leq) && Inv(h, leq, free) && h.initialized
    ensures Inv(h', leq, free') && h'.initialized
    ensures h.size == 0 ==> m == None && h' == h && free' == free
    ensures h.size > 0 ==>
      && Live(h, h.nodes[1]) && m == h.hkey[h.nodes[1]] && m.Some?
      && (forall x :: Live(h, x) ==> h.hkey[x].Some? && leq(m.value, h.hkey[x].value))
      && h'.size == h.size - 1 && free' == [h.nodes[1]] + free
      && (forall x :: Live(h', x) <==> Live(h, x) && x != h.nodes[1])
      && h'.hkey == h.hkey[h.nodes[1] := None]
  {
    var hMin := h.nodes[1];
    m := h.hkey[hMin];
    if h.size == 0 {
      return h, m, free;
    }
    assert PlacedAt(h, 1);
    TopIsMinimum(h, leq);
    ghost var g := Fill(h, 1);
    FillLive(h, 1);
    FillOrder(h, leq, 1);
    assert PlacedAt(h, h.size);
    var nodes := h.nodes[1 := h.nodes[h.size]];
    var hnode := h.hnode[nodes[1] := 1];
    hnode := hnode[hMin := h.freeList];
    var h1 := h.(nodes := nodes, hkey := h.hkey[hMin := None], hnode := hnode, freeList := hMin, size := h.size - 1);
    assert h1 == Free(g, hMin, h.freeList);
    FreeKeeps(h, free, g, hMin, leq);
    free' := [hMin] + free;
    h' := h1;
    if h1.size > 0 {
      h' := FloatDown(h1, leq, 1, 1);
      StructureKept(h1, h', free');
    }
  }

  /** minimum(): the key at the top, which is `leq` every key in the heap;
      nil for an empty heap. */
  method Minimum<K(!new)>(h: Heap<K>, leq: (K, K) -> bool, ghost free: seq<int>) returns (m: Option<K>)
    requires TotalPreorder(leq) && Inv(h, leq, free) && h.initialized
    ensures m == None <==> h.size == 0
    ensures m.Some? ==> Live(h, h.nodes[1]) && m == h.hkey[h.nodes[1]]
    ensures forall x :: Live(h, x) ==> m.Some? && h.hkey[x].Some? && leq(m.value, h.hkey[x].value)
  {
    m := h.hkey[h.nodes[1]];
    if h.size > 0 {
      assert PlacedAt(h, 1);
      TopIsMinimum(h, leq);
    }
  }

  /** remove(handle), as the source's assertion requires it: a handle in
      the heap. Its position is refilled from the last one and the new
      occupant floats down or up; then the handle is freed. The parent's key
      is read only below the top (see RemoveTrapsAsWritten). */
  method Remove<K(!new)>(h: Heap<K>, leq: (K, K) -> bool, ghost free: seq<int>, hc: int)
    returns (h': Heap<K>, ghost free': seq<int>)
    requires TotalPreorder(leq) && Inv(h, leq, free) && h.initialized
    requires 1 <= hc <= h.max && h.hkey[hc].Some?
    ensures Inv(h', leq, free') && h'.initialized
    ensures h'.size == h.size - 1 && free' == [hc] + free && h'.freeList == hc
    ensures forall x :: Live(h', x) <==> Live(h, x) && x != hc
    ensures h'.hkey == h.hkey[hc := None]
  {
    assert Live(h, hc);
    var curr := h.hnode[hc];
    assert PlacedAt(h, curr) && PlacedAt(h, h.size);
    var nodes := h.nodes[curr := h.nodes[h.size]];
    var hnode := h.hnode[nodes[curr] := curr];
    var h1 := h.(nodes := nodes, hnode := hnode, size := h.size - 1);
    assert h1 == Fill(h, curr);
    FillLive(h, curr);
    FillOrder(h, leq, curr);
    ghost var g := h1;
    if curr <= h1.size {
      assert PlacedAt(h1, curr);
      if curr > 1 {
        assert PlacedAt(h1, curr / 2);
      }
      if curr <= 1 || leq(h.hkey[nodes[curr / 2]].value, h.hkey[nodes[curr]].value) {
        h1 := FloatDown(h1, leq, curr, 1);
      } else {
        h1 := FloatUp(h1, leq, curr);
      }
    }
    RemoveFrees(h, free, g, h1, hc, leq);
    h' := h1.(hkey := h1.hkey[hc := None], hnode := h1.hnode[hc := h.freeList], freeList := hc);
    free' := [hc] + free;
  }

  lemma RemoveFrees<K>(h: Heap<K>, free: seq<int>, g: Heap<K>, h1: Heap<K>, hc: int, leq: (K, K) -> bool)
    requires Structure(h, free) && Live(h, hc) && Placed(g) && Placed(h1) && SameLive(g, h1) && OrderedFrom(h1, leq, 1)
    requires g.size + 1 == h.size && g.max == h.max && g.hasElem == h.hasElem && g.hkey == h.hkey
    requires forall y :: Live(g, y) <==> Live(h, y) && y != hc
    requires forall y :: 0 <= y < |h.hnode| && !Live(h, y) ==> g.hnode[y] == h.hnode[y]
    requires g.nodes[0] == 0 && (g.size == 0 ==> g.nodes[1] == hc)
    ensures Structure(Free(h1, hc, h.freeList), [hc] + free) && OrderedFrom(Free(h1, hc, h.freeList), leq, 1)
    ensures forall y :: Live(Free(h1, hc, h.freeList), y) <==> Live(h, y) && y != hc
  {
    FreeKeeps(h, free, h1, hc, leq);
  }

  /** Whether the source's remove traps: it reads the key of the parent of
      the refilled position, before testing whether that position is the
      top, and force-unwraps it. Above the top sits handle nodes[0] = 0,
      which has no entry, so exactly a remove of the top of a heap holding
      two or more handles traps. */
  ghost function RemoveTrapsAsWritten<K>(h: Heap<K>, hc: int): (traps: bool)
    requires Placed(h) && Live(h, hc) && h.nodes[0] == 0 && !h.hasElem[0]
    ensures traps <==> h.hnode[hc] == 1 && h.size >= 2
  {
    var curr := h.hnode[hc];
    assert PlacedAt(h, curr);
    var nodes := h.nodes[curr := h.nodes[h.size]];
    assert curr / 2 >= 1 ==> PlacedAt(h, curr / 2);
    var p := nodes[curr / 2];
    curr <= h.size - 1 && !(h.hasElem[p] && h.hkey[p].Some?)
  }

  /** Removing the top handle of any heap with two or more handles traps in
      the source; Remove, which tests for the top first, does not. */
  lemma RemoveTopTrapsAsWritten<K>(h: Heap<K>, leq: (K, K) -> bool, free: seq<int>)
    requires Inv(h, leq, free) && h.size >= 2
    ensures Live(h, h.nodes[1]) && h.hkey[h.nodes[1]].Some?
    ensures RemoveTrapsAsWritten(h, h.nodes[1])
  {
    assert PlacedAt(h, 1);
  }
}
