/**
  The sort inside PriorityQueue.initialize (PriorityQueue.swift): the key
  slots 0 .. n-1 are listed in `order` and sorted by a quicksort whose pivot
  position comes from a 32-bit linear congruential generator; ranges of at
  most eleven positions are finished by insertion sort. Keys read through
  `order` come out non-increasing, so the minimum sits at position n - 1.

  The pending ranges are `StackItem`s. The proof tracks them as blocks: a
  pair of positions in no common block is already in final order.
*/
module QueueSort {
  import opened Wrappers
  import opened Orders

  /** The first seed of the pivot generator. */
  const SEED0: int := 2016473283

  /** One step of the pivot generator, seed &* 1539415821 &+ 1 on UInt32. */
  function NextSeed(seed: int): (s: int)
    requires 0 <= seed < 0x1_0000_0000
    ensures 0 <= s < 0x1_0000_0000
  {
    ((seed * 1539415821) % 0x1_0000_0000 + 1) % 0x1_0000_0000
  }

  /** keyForOrderAt(t)!: the key of the slot named at position t. */
  function KeyOf<K>(keys: seq<Option<K>>, o: seq<int>, t: int): K
    requires 0 <= t < |o| && 0 <= o[t] < |keys| && keys[o[t]].Some?
  {
    keys[o[t]].value
  }

  /** Slots 0 .. n-1 hold keys and positions 0 .. n-1 of o name such slots. */
  ghost predicate Sortable<K>(keys: seq<Option<K>>, o: seq<int>, n: int) {
    && 0 <= n < |o| && n <= |keys|
    && (forall s :: 0 <= s < n ==> keys[s].Some?)
    && (forall t :: 0 <= t < n ==> 0 <= o[t] < n)
  }

  /** The slots 0 .. n-1 in increasing order. */
  function Iota(n: nat): (s: seq<int>)
    ensures |s| == n && forall t :: 0 <= t < n ==> s[t] == t
  {
    seq(n, t => t)
  }

  /** _order.swapAt(a, b). */
  function Swap(o: seq<int>, a: int, b: int): (o': seq<int>)
    requires 0 <= a < |o| && 0 <= b < |o|
    ensures |o'| == |o| && o'[a] == o[b] && o'[b] == o[a]
    ensures forall t :: 0 <= t < |o| && t != a && t != b ==> o'[t] == o[t]
  {
    o[a := o[b]][b := o[a]]
  }

  /** o' rearranges positions p .. r of o and keeps every other position. */
  ghost predicate PermWithin(o: seq<int>, o': seq<int>, p: int, r: int) {
    && |o'| == |o| && 0 <= p <= r + 1 <= |o|
    && (forall t :: 0 <= t < |o| && (t < p || r < t) ==> o'[t] == o[t])
    && multiset(o'[p..r + 1]) == multiset(o[p..r + 1])
  }

  lemma SwapPerm(o: seq<int>, a: int, b: int, p: int, r: int)
    requires 0 <= p <= a <= r < |o| && p <= b <= r
    ensures PermWithin(o, Swap(o, a, b), p, r)
  {
    var o' := Swap(o, a, b);
    var s := o[p..r + 1];
    assert o'[p..r + 1] == s[a - p := o[b]][b - p := o[a]];
  }

  lemma PermTrans(o1: seq<int>, o2: seq<int>, o3: seq<int>, p: int, r: int)
    requires PermWithin(o1, o2, p, r) && PermWithin(o2, o3, p, r)
    ensures PermWithin(o1, o3, p, r)
  {
  }

  /** A rearrangement within p .. r is one within any wider range. */
  lemma PermWiden(o: seq<int>, o': seq<int>, p: int, r: int, lo: int, hi: int)
    requires PermWithin(o, o', p, r) && 0 <= lo <= p && r <= hi < |o|
    ensures PermWithin(o, o', lo, hi)
  {
    assert o[lo..hi + 1] == o[lo..p] + o[p..r + 1] + o[r + 1..hi + 1];
    assert o'[lo..hi + 1] == o'[lo..p] + o'[p..r + 1] + o'[r + 1..hi + 1];
    assert o'[lo..p] == o[lo..p];
    assert o'[r + 1..hi + 1] == o[r + 1..hi + 1];
  }

  /** What a rearranged position holds came from the same range. */
  lemma ValueFrom(o: seq<int>, o': seq<int>, p: int, r: int, y: int) returns (z: int)
    requires PermWithin(o, o', p, r) && p <= y <= r
    ensures p <= z <= r && o'[y] == o[z]
  {
    assert o'[y] == o'[p..r + 1][y - p];
    assert o'[y] in multiset(o[p..r + 1]);
    var k :| 0 <= k < r + 1 - p && o[p..r + 1][k] == o'[y];
    z := p + k;
  }

  lemma PermSortable<K>(keys: seq<Option<K>>, o: seq<int>, o': seq<int>, n: int, p: int, r: int)
    requires Sortable(keys, o, n) && PermWithin(o, o', p, r) && r < n
    ensures Sortable(keys, o', n)
  {
    forall t | 0 <= t < n ensures 0 <= o'[t] < n {
      if p <= t <= r {
        var z := ValueFrom(o, o', p, r, t);
      }
    }
  }

  /** A pending range p .. r of the sort (StackItem); empty when r < p. */
  datatype StackItem = StackItem(p: int, r: int)

  ghost predicate InBlock(b: StackItem, t: int) {
    b.p <= t <= b.r
  }

  ghost predicate SameBlock(B: seq<StackItem>, x: int, y: int) {
    exists k :: 0 <= k < |B| && InBlock(B[k], x) && InBlock(B[k], y)
  }

  /** The blocks lie within 0 .. n-1 and share no position. */
  ghost predicate Apart(B: seq<StackItem>, n: int) {
    && (forall k :: 0 <= k < |B| ==> 0 <= B[k].p <= B[k].r + 1 <= n)
    && (forall k, l, t :: 0 <= k < l < |B| && InBlock(B[k], t) ==> !InBlock(B[l], t))
  }

  /** Two positions in no common block are in final (non-increasing) order. */
  ghost predicate Settled<K>(keys: seq<Option<K>>, o: seq<int>, n: int, leq: (K, K) -> bool, B: seq<StackItem>) {
    && Sortable(keys, o, n)
    && forall x, y :: 0 <= x < y < n && !SameBlock(B, x, y) ==> leq(KeyOf(keys, o, y), KeyOf(keys, o, x))
  }

  /** Positions lo .. hi are in non-increasing key order. */
  ghost predicate SortedRange<K>(keys: seq<Option<K>>, o: seq<int>, n: int, leq: (K, K) -> bool, lo: int, hi: int) {
    && Sortable(keys, o, n) && 0 <= lo && hi < n
    && forall a, b :: lo <= a < b <= hi ==> leq(KeyOf(keys, o, b), KeyOf(keys, o, a))
  }

  lemma NotSameBlockAppend(B0: seq<StackItem>, b: StackItem, x: int, y: int)
    requires !SameBlock(B0, x, y) && !(InBlock(b, x) && InBlock(b, y))
    ensures !SameBlock(B0 + [b], x, y)
  {
    var B := B0 + [b];
    forall k | 0 <= k < |B| ensures !(InBlock(B[k], x) && InBlock(B[k], y)) {
      if k < |B0| {
        assert B[k] == B0[k];
      }
    }
  }

  /** The last block holds z but not x, so no block holds both. */
  lemma ApartFromLast(B: seq<StackItem>, n: int, x: int, z: int)
    requires Apart(B, n) && |B| > 0 && InBlock(B[|B| - 1], z) && !InBlock(B[|B| - 1], x)
    ensures !SameBlock(B, x, z) && !SameBlock(B, z, x)
  {
  }

  /** Rearranging the last block keeps a pair in order that it does not
      hold entirely. */
  lemma SettledPair<K(!new)>(keys: seq<Option<K>>, leq: (K, K) -> bool, n: int, B0: seq<StackItem>, b: StackItem,
                             o: seq<int>, o': seq<int>, x: int, y: int)
    requires Settled(keys, o, n, leq, B0 + [b]) && Apart(B0 + [b], n)
    requires PermWithin(o, o', b.p, b.r) && Sortable(keys, o', n)
    requires 0 <= x < y < n && !SameBlock(B0, x, y) && !(InBlock(b, x) && InBlock(b, y))
    ensures leq(KeyOf(keys, o', y), KeyOf(keys, o', x))
  {
    var B := B0 + [b];
    assert B[|B| - 1] == b;
    if InBlock(b, x) {
      var z := ValueFrom(o, o', b.p, b.r, x);
      ApartFromLast(B, n, y, z);
      assert leq(KeyOf(keys, o, y), KeyOf(keys, o, z));
    } else if InBlock(b, y) {
      var z := ValueFrom(o, o', b.p, b.r, y);
      ApartFromLast(B, n, x, z);
      assert leq(KeyOf(keys, o, z), KeyOf(keys, o, x));
    } else {
      NotSameBlockAppend(B0, b, x, y);
    }
  }

  /** The blocks of B0 are among those of B. */
  lemma PrefixBlocks(B0: seq<StackItem>, B: seq<StackItem>, x: int, y: int)
    requires |B0| <= |B| && B[..|B0|] == B0
    ensures SameBlock(B0, x, y) ==> SameBlock(B, x, y)
  {
    if SameBlock(B0, x, y) {
      var k :| 0 <= k < |B0| && InBlock(B0[k], x) && InBlock(B0[k], y);
      assert B[k] == B0[k];
    }
  }

  /** After a partition of block b, whose positions up to j are `leq`-above
      the pivot key v and from i on below it, b splits into its parts
      before i and after j. */
  lemma SplitSettled<K(!new)>(keys: seq<Option<K>>, leq: (K, K) -> bool, n: int, B0: seq<StackItem>, b: StackItem,
                              o: seq<int>, o': seq<int>, i: int, j: int, v: K, B: seq<StackItem>)
    requires TotalPreorder(leq)
    requires Settled(keys, o, n, leq, B0 + [b]) && Apart(B0 + [b], n)
    requires PermWithin(o, o', b.p, b.r) && Sortable(keys, o', n)
    requires 0 <= b.p <= j <= i <= j + 1 && i <= b.r < n
    requires forall t :: b.p <= t <= j ==> leq(v, KeyOf(keys, o', t))
    requires forall t :: i <= t <= b.r ==> leq(KeyOf(keys, o', t), v)
    requires B == B0 + [StackItem(b.p, i - 1), StackItem(j + 1, b.r)]
          || B == B0 + [StackItem(j + 1, b.r), StackItem(b.p, i - 1)]
    ensures Settled(keys, o', n, leq, B)
  {
    var a, c := StackItem(b.p, i - 1), StackItem(j + 1, b.r);
    assert B[..|B0|] == B0;
    assert {B[|B0|], B[|B0| + 1]} == {a, c};
    forall x, y | 0 <= x < y < n && !SameBlock(B, x, y)
      ensures leq(KeyOf(keys, o', y), KeyOf(keys, o', x))
    {
      PrefixBlocks(B0, B, x, y);
      assert !(InBlock(B[|B0|], x) && InBlock(B[|B0|], y));
      assert !(InBlock(B[|B0| + 1], x) && InBlock(B[|B0| + 1], y));
      if InBlock(b, x) && InBlock(b, y) {
        assert x <= j && i <= y;
        assert leq(KeyOf(keys, o', y), v) && leq(v, KeyOf(keys, o', x));
      } else {
        SettledPair(keys, leq, n, B0, b, o, o', x, y);
      }
    }
  }

  /** The split blocks are apart. */
  lemma SplitApart(B0: seq<StackItem>, b: StackItem, n: int, i: int, j: int, B: seq<StackItem>)
    requires Apart(B0 + [b], n) && b.p <= j <= i <= j + 1 && i <= b.r
    requires B == B0 + [StackItem(b.p, i - 1), StackItem(j + 1, b.r)]
          || B == B0 + [StackItem(j + 1, b.r), StackItem(b.p, i - 1)]
    ensures Apart(B, n)
  {
    var B1 := B0 + [b];
    assert B1[|B0|] == b;
    forall k | 0 <= k < |B0| ensures B[k] == B0[k] && B1[k] == B0[k] {
    }
    forall k, l, t | 0 <= k < l < |B| && InBlock(B[k], t) ensures !InBlock(B[l], t) {
      if l >= |B0| && k < |B0| {
        assert B1[k] == B[k];
        assert !InBlock(b, t);
      }
    }
  }

  /** Sorting block b, the last one, settles it. */
  lemma FinishSettled<K(!new)>(keys: seq<Option<K>>, leq: (K, K) -> bool, n: int, B0: seq<StackItem>, b: StackItem,
                               o: seq<int>, o': seq<int>)
    requires Settled(keys, o, n, leq, B0 + [b]) && Apart(B0 + [b], n)
    requires PermWithin(o, o', b.p, b.r) && SortedRange(keys, o', n, leq, b.p, b.r)
    ensures Settled(keys, o', n, leq, B0) && Apart(B0, n)
  {
    forall x, y | 0 <= x < y < n && !SameBlock(B0, x, y)
      ensures leq(KeyOf(keys, o', y), KeyOf(keys, o', x))
    {
      if !(InBlock(b, x) && InBlock(b, y)) {
        SettledPair(keys, leq, n, B0, b, o, o', x, y);
      }
    }
    var B := B0 + [b];
    forall k | 0 <= k < |B0| ensures B[k] == B0[k] {
    }
  }

  /** 4 * ((s-1)^2 + 1) fits, with room to spare, below s^2: the squared
      sizes of the two parts and their two entries weigh less than the
      block. */
  lemma SplitWeight(a: int, c: int, s: int)
    requires 0 <= a <= s - 1 && 0 <= c <= s - 1 && a + c <= s && s >= 2
    ensures a * a + c * c + 1 < s * s
  {
    if a == 0 || c == 0 {
      var m := a + c;
      SquareMono(m, s - 1);
      assert (s - 1) * (s - 1) == s * s - 2 * s + 1;
    } else {
      assert (a + c) * (a + c) == a * a + c * c + 2 * (a * c);
      assert a * c >= 1 by {
        SquareMono(1, a);
        assert a * c >= a * 1;
      }
      SquareMono(a + c, s);
    }
  }

  lemma SquareMono(x: int, y: int)
    requires 0 <= x <= y
    ensures x * x <= y * y
  {
    assert x * x <= x * y;
    assert x * y <= y * y;
  }

  function Size(b: StackItem): nat {
    if b.r < b.p then 0 else b.r - b.p + 1
  }

  /** A block weighs its squared size plus one. */
  function Weight(B: seq<StackItem>): nat {
    if B == [] then 0 else Weight(B[..|B| - 1]) + Size(B[|B| - 1]) * Size(B[|B| - 1]) + 1
  }

  lemma WeightPush(B: seq<StackItem>, b: StackItem)
    ensures Weight(B + [b]) == Weight(B) + Size(b) * Size(b) + 1
    ensures Weight(B) < Weight(B + [b])
  {
    assert (B + [b])[..|B|] == B;
  }

  /** The pivot positions up to i are above v, from j on below it; si and sj
      are positions where the next scans stop at the latest. */
  ghost predicate PartLoop<K>(keys: seq<Option<K>>, leq: (K, K) -> bool, n: int, o0: seq<int>, o: seq<int>,
                              p: int, r: int, v: K, i: int, j: int, si: int, sj: int) {
    && Sortable(keys, o, n) && PermWithin(o0, o, p, r) && 0 <= p < r < n
    && p - 1 <= i < j <= r + 1
    && i < si <= r && si <= j && leq(KeyOf(keys, o, si), v)
    && p <= sj < j && i <= sj && leq(v, KeyOf(keys, o, sj))
    && (forall t :: p <= t <= i ==> leq(v, KeyOf(keys, o, t)))
    && (forall t :: j <= t <= r ==> leq(KeyOf(keys, o, t), v))
  }

  /** The partition loop of initialize: with the pivot slot at position p,
      i scans up over keys not `leq` the pivot's, j scans down over keys
      the pivot's is not `leq`, and the two found are swapped until the
      scans cross; the last swap is undone. */
  method Partition<K(!new)>(keys: seq<Option<K>>, leq: (K, K) -> bool, n: int, o0: seq<int>, p: int, r: int)
    returns (o: seq<int>, i: int, j: int)
    requires TotalPreorder(leq) && Sortable(keys, o0, n) && 0 <= p < r < n
    ensures PartDone(keys, leq, n, o0, o, p, r, KeyOf(keys, o0, p), i, j)
  {
    var piv := o0[p];
    var v := keys[piv].value;
    o := o0;
    i := p - 1;
    j := r + 1;
    ghost var si, sj := p, p;
    ghost var last := o0;
    while true
      invariant PartLoop(keys, leq, n, o0, o, p, r, v, i, j, si, sj)
      decreases j - i
    {
      ghost var i0, j0 := i, j;
      i := ScanUp(keys, leq, n, o, v, i, si);
      j := ScanDown(keys, leq, n, o, v, j, sj);
      ghost var scanned := o;
      if i != j {
        o := Swap(o, i, j);
      }
      if i >= j {
        ScansCross(keys, leq, n, o0, scanned, p, r, v, i0, j0, i, j, si, sj);
        last := scanned;
        break;
      }
      ScanStep(keys, leq, n, o0, scanned, p, r, v, i0, j0, i, j, si, sj);
      si, sj := j, i;
    }
    assert PartDone(keys, leq, n, o0, last, p, r, v, i, j) && o == (if i != j then Swap(last, i, j) else last);
    if i != j {
      o := Swap(o, i, j);
      assert o == last;
    }
  }

  /** The outcome of the partition around the key v. */
  ghost predicate PartDone<K>(keys: seq<Option<K>>, leq: (K, K) -> bool, n: int, o0: seq<int>, o: seq<int>,
                              p: int, r: int, v: K, i: int, j: int) {
    && Sortable(keys, o, n) && PermWithin(o0, o, p, r)
    && 0 <= p <= j <= i <= j + 1 && i <= r < n
    && (forall t :: p <= t <= j ==> leq(v, KeyOf(keys, o, t)))
    && (forall t :: i <= t <= r ==> leq(KeyOf(keys, o, t), v))
  }

  /** repeat { i += 1 } while !leq(keyForOrderAt(i)!, pivot key). */
  method ScanUp<K>(keys: seq<Option<K>>, leq: (K, K) -> bool, n: int, o: seq<int>, v: K, i0: int, ghost si: int)
    returns (i: int)
    requires Sortable(keys, o, n) && -1 <= i0 < si < n && leq(KeyOf(keys, o, si), v)
    ensures i0 < i <= si && leq(KeyOf(keys, o, i), v)
    ensures forall t :: i0 < t < i ==> !leq(KeyOf(keys, o, t), v)
  {
    i := i0 + 1;
    while !leq(KeyOf(keys, o, i), v)
      invariant i0 < i <= si
      invariant forall t :: i0 < t < i ==> !leq(KeyOf(keys, o, t), v)
      decreases si - i
    {
      i := i + 1;
    }
  }

  /** repeat { j -= 1 } while !leq(pivot key, keyForOrderAt(j)!). */
  method ScanDown<K>(keys: seq<Option<K>>, leq: (K, K) -> bool, n: int, o: seq<int>, v: K, j0: int, ghost sj: int)
    returns (j: int)
    requires Sortable(keys, o, n) && 0 <= sj < j0 <= n && leq(v, KeyOf(keys, o, sj))
    ensures sj <= j < j0 && leq(v, KeyOf(keys, o, j))
    ensures forall t :: j < t < j0 ==> !leq(v, KeyOf(keys, o, t))
  {
    j := j0 - 1;
    while !leq(v, KeyOf(keys, o, j))
      invariant sj <= j < j0
      invariant forall t :: j < t < j0 ==> !leq(v, KeyOf(keys, o, t))
      decreases j - sj
    {
      j := j - 1;
    }
  }

  /** The scans found i < j: swapping them keeps the loop's state. */
  lemma ScanStep<K(!new)>(keys: seq<Option<K>>, leq: (K, K) -> bool, n: int, o0: seq<int>, o: seq<int>,
                          p: int, r: int, v: K, i0: int, j0: int, i: int, j: int, si: int, sj: int)
    requires TotalPreorder(leq) && PartLoop(keys, leq, n, o0, o, p, r, v, i0, j0, si, sj)
    requires i0 < i <= si && sj <= j < j0 && i < j
    requires forall t :: i0 < t < i ==> !leq(KeyOf(keys, o, t), v)
    requires forall t :: j < t < j0 ==> !leq(v, KeyOf(keys, o, t))
    requires leq(KeyOf(keys, o, i), v) && leq(v, KeyOf(keys, o, j))
    ensures PartLoop(keys, leq, n, o0, Swap(o, i, j), p, r, v, i, j, j, i)
  {
    var o' := Swap(o, i, j);
    SwapPerm(o, i, j, p, r);
    PermTrans(o0, o, o', p, r);
    PermSortable(keys, o, o', n, p, r);
    assert KeyOf(keys, o', i) == KeyOf(keys, o, j) && KeyOf(keys, o', j) == KeyOf(keys, o, i);
    forall t | p <= t <= i ensures leq(v, KeyOf(keys, o', t)) {
      if t < i {
        assert KeyOf(keys, o', t) == KeyOf(keys, o, t);
      }
    }
    forall t | j <= t <= r ensures leq(KeyOf(keys, o', t), v) {
      if t > j {
        assert KeyOf(keys, o', t) == KeyOf(keys, o, t);
      }
    }
  }

  /** The scans crossed: between j and i no position is left, and the
      positions up to j are above v, those from i on below. */
  lemma ScansCross<K(!new)>(keys: seq<Option<K>>, leq: (K, K) -> bool, n: int, o0: seq<int>, o: seq<int>,
                            p: int, r: int, v: K, i0: int, j0: int, i: int, j: int, si: int, sj: int)
    requires TotalPreorder(leq) && PartLoop(keys, leq, n, o0, o, p, r, v, i0, j0, si, sj)
    requires i0 < i <= si && sj <= j < j0 && j <= i
    requires forall t :: i0 < t < i ==> !leq(KeyOf(keys, o, t), v)
    requires forall t :: j < t < j0 ==> !leq(v, KeyOf(keys, o, t))
    requires leq(KeyOf(keys, o, i), v) && leq(v, KeyOf(keys, o, j))
    ensures PartDone(keys, leq, n, o0, o, p, r, v, i, j)
  {
    // position j + 1, when the down scan passed it, is below v, so the up
    // scan cannot have passed it
    assert j + 1 < j0 ==> leq(KeyOf(keys, o, j + 1), v);
  }

  /** Positions up to j hold O's, shifted from j + 1 to i, after O[i]'s key
      v was found not `leq` the keys at those positions' sources. */
  ghost predicate ShiftLoop<K>(keys: seq<Option<K>>, leq: (K, K) -> bool, n: int, O: seq<int>, o: seq<int>,
                               p: int, i: int, j: int) {
    && Sortable(keys, O, n) && 0 <= p <= j <= i < n && |o| == |O|
    && (forall t :: 0 <= t < |o| && (t <= j || i < t) ==> o[t] == O[t])
    && (forall t :: j < t <= i ==> o[t] == O[t - 1])
    && (forall t :: j <= t < i ==> !leq(KeyOf(keys, O, i), KeyOf(keys, O, t)))
  }

  /** Insertion sort of positions p .. r (the end of initialize's outer
      loop): each position's slot moves down past the keys it is not
      `leq`. */
  method InsertionSort<K(!new)>(keys: seq<Option<K>>, leq: (K, K) -> bool, n: int, o0: seq<int>, p: int, r: int)
    returns (o: seq<int>)
    requires TotalPreorder(leq) && Sortable(keys, o0, n) && 0 <= p <= r + 1 <= n
    ensures PermWithin(o0, o, p, r) && SortedRange(keys, o, n, leq, p, r)
  {
    o := o0;
    var i := p + 1;
    while i <= r
      invariant p + 1 <= i && (i <= r + 1 || i == p + 1)
      invariant PermWithin(o0, o, p, r) && SortedRange(keys, o, n, leq, p, if i <= r + 1 then i - 1 else r)
    {
      var piv := o[i];
      var j := i;
      ghost var O := o;
      while j > p && !leq(keys[piv].value, KeyOf(keys, o, j - 1))
        invariant ShiftLoop(keys, leq, n, O, o, p, i, j) && piv == O[i]
      {
        o := o[j := o[j - 1]];
        j := j - 1;
      }
      ghost var shifted := o;
      o := o[j := piv];
      assert o[j := O[j]] == shifted;
      InsertStep(keys, leq, n, O, o, p, r, i, j);
      PermTrans(o0, O, o, p, r);
      i := i + 1;
    }
  }

  /** Dropping O[i] into the hole at j rearranges p .. r and extends the
      sorted prefix to i. */
  lemma InsertStep<K(!new)>(keys: seq<Option<K>>, leq: (K, K) -> bool, n: int, O: seq<int>, o: seq<int>,
                            p: int, r: int, i: int, j: int)
    requires TotalPreorder(leq) && SortedRange(keys, O, n, leq, p, i - 1) && 0 <= p <= j <= i <= r < n
    requires |o| == |O| && o[j] == O[i]
    requires ShiftLoop(keys, leq, n, O, o[j := O[j]], p, i, j)
    requires j == p || leq(KeyOf(keys, O, i), KeyOf(keys, O, j - 1))
    ensures PermWithin(O, o, p, r) && SortedRange(keys, o, n, leq, p, i)
  {
    forall t | 0 <= t < |o| && t != j ensures o[j := O[j]][t] == o[t] {
    }
    InsertPerm(O, o, p, r, i, j);
    PermSortable(keys, O, o, n, p, r);
    forall a, b | p <= a < b <= i ensures leq(KeyOf(keys, o, b), KeyOf(keys, o, a)) {
      InsertPair(keys, leq, n, O, o, p, i, j, a, b);
    }
  }

  lemma InsertPerm(O: seq<int>, o: seq<int>, p: int, r: int, i: int, j: int)
    requires 0 <= p <= j <= i <= r < |O| && |o| == |O| && o[j] == O[i]
    requires forall t :: 0 <= t < |o| && (t < j || i < t) ==> o[t] == O[t]
    requires forall t :: j < t <= i ==> o[t] == O[t - 1]
    ensures PermWithin(O, o, p, r)
  {
    var A, M, Z := O[p..j], O[j..i], O[i + 1..r + 1];
    var L := A + [O[i]] + M + Z;
    forall k | 0 <= k < |L| ensures L[k] == o[p..r + 1][k] {
      if k < j - p {
        assert L[k] == A[k];
      } else if k == j - p {
        assert L[k] == O[i];
      } else if k <= i - p {
        assert L[k] == M[k - (j - p) - 1];
      } else {
        assert L[k] == Z[k - (i - p) - 1];
      }
    }
    assert o[p..r + 1] == L;
    assert O[p..r + 1] == A + M + [O[i]] + Z by {
      assert O[p..r + 1] == O[p..i] + [O[i]] + O[i + 1..r + 1];
      assert O[p..i] == A + M;
    }
  }

  lemma InsertPair<K(!new)>(keys: seq<Option<K>>, leq: (K, K) -> bool, n: int, O: seq<int>, o: seq<int>,
                            p: int, i: int, j: int, a: int, b: int)
    requires TotalPreorder(leq) && SortedRange(keys, O, n, leq, p, i - 1) && Sortable(keys, o, n)
    requires 0 <= p <= j <= i < n && |o| == |O| && o[j] == O[i]
    requires ShiftLoop(keys, leq, n, O, o[j := O[j]], p, i, j)
    requires j == p || leq(KeyOf(keys, O, i), KeyOf(keys, O, j - 1))
    requires p <= a < b <= i
    ensures leq(KeyOf(keys, o, b), KeyOf(keys, o, a))
  {
    var v := KeyOf(keys, O, i);
    var w := o[j := O[j]];
    assert a != j ==> w[a] == o[a];
    assert b != j ==> w[b] == o[b];
    if a < j {
      assert KeyOf(keys, o, a) == KeyOf(keys, O, a);
      // v is `leq` every key before the hole
      assert a < j - 1 ==> leq(KeyOf(keys, O, j - 1), KeyOf(keys, O, a));
      assert leq(v, KeyOf(keys, O, a));
      if b < j {
        assert KeyOf(keys, o, b) == KeyOf(keys, O, b);
      } else if b > j {
        assert KeyOf(keys, o, b) == KeyOf(keys, O, b - 1);
        assert !leq(v, KeyOf(keys, O, b - 1));
      }
    } else if a == j {
      assert KeyOf(keys, o, b) == KeyOf(keys, O, b - 1);
      assert !leq(v, KeyOf(keys, O, b - 1));
    } else {
      assert KeyOf(keys, o, a) == KeyOf(keys, O, a - 1);
      assert KeyOf(keys, o, b) == KeyOf(keys, O, b - 1);
    }
  }

  /** initialize's sort: order lists the slots 0 .. n-1 (and one spare
      entry), each popped range longer than eleven positions is split
      around the key of a pseudo-randomly chosen slot, the longer part is
      pushed and the shorter one is split on, and each range that is left
      is finished by insertion sort.
      The result lists every slot once, in non-increasing key order. */
  method SortOrder<K(!new)>(keys: seq<Option<K>>, leq: (K, K) -> bool, n: int) returns (order: seq<int>)
    requires TotalPreorder(leq) && 0 <= n <= |keys|
    requires forall s :: 0 <= s < n ==> keys[s].Some?
    ensures |order| == n + 1 && Sortable(keys, order, n)
    ensures multiset(order[..n]) == multiset(Iota(n))
    ensures SortedRange(keys, order, n, leq, 0, n - 1)
  {
    var stack: seq<StackItem> := [];
    var i := 0;
    var piv := 0;
    var seed := SEED0;
    var p := 0;
    var r := n - 1;
    order := seq(n + 1, _ => 0);
    while i <= r
      invariant 0 <= i <= n && piv == i && |order| == n + 1
      invariant forall t :: 0 <= t < i ==> order[t] == t
    {
      order := order[i := piv];
      piv := piv + 1;
      i := i + 1;
    }
    ghost var o0 := order;
    assert order[..n] == Iota(n);
    stack := stack + [StackItem(p, r)];
    assert Settled(keys, order, n, leq, stack) by {
      forall x, y | 0 <= x < y < n ensures SameBlock(stack, x, y) {
        assert InBlock(stack[0], x) && InBlock(stack[0], y);
      }
    }
    while |stack| > 0
      invariant Settled(keys, order, n, leq, stack) && Apart(stack, n)
      invariant PermWithin(o0, order, 0, n - 1) && 0 <= seed < 0x1_0000_0000
      decreases Weight(stack)
    {
      stack, order, seed := SortTop(keys, leq, n, o0, stack, order, seed);
    }
    assert forall x, y :: 0 <= x < y < n ==> !SameBlock(stack, x, y);
    assert order[0..n] == order[..n] && o0[0..n] == o0[..n];
  }

  /** One round of initialize's outer loop: pop the top range, split it
      while it is long, and finish what is left by insertion sort. */
  method SortTop<K(!new)>(keys: seq<Option<K>>, leq: (K, K) -> bool, n: int, ghost o0: seq<int>,
                          stack0: seq<StackItem>, order0: seq<int>, seed0: int)
    returns (stack: seq<StackItem>, order: seq<int>, seed: int)
    requires TotalPreorder(leq) && |stack0| > 0
    requires Settled(keys, order0, n, leq, stack0) && Apart(stack0, n)
    requires PermWithin(o0, order0, 0, n - 1) && 0 <= seed0 < 0x1_0000_0000
    ensures Settled(keys, order, n, leq, stack) && Apart(stack, n)
    ensures PermWithin(o0, order, 0, n - 1) && 0 <= seed < 0x1_0000_0000
    ensures Weight(stack) < Weight(stack0)
  {
    var top := stack0[|stack0| - 1];
    stack := stack0[..|stack0| - 1];
    assert stack0 == stack + [top];
    var p, r;
    stack, order, p, r, seed := SplitLong(keys, leq, n, o0, stack, order0, top.p, top.r, seed0, Weight(stack0));
    ghost var before := order;
    assert 0 <= p <= r + 1 <= n by {
      assert (stack + [StackItem(p, r)])[|stack|] == StackItem(p, r);
    }
    order := InsertionSort(keys, leq, n, order, p, r);
    FinishSettled(keys, leq, n, stack, StackItem(p, r), before, order);
    PermWiden(before, order, p, r, 0, n - 1);
    PermTrans(o0, before, order, 0, n - 1);
    WeightPush(stack, StackItem(p, r));
  }

  /** The inner loop of initialize: while the range p .. r is longer than
      eleven positions, split it around the key of the slot at a
      pseudo-random position, push the longer part and continue with the
      shorter. */
  method SplitLong<K(!new)>(keys: seq<Option<K>>, leq: (K, K) -> bool, n: int, ghost o0: seq<int>,
                            stack0: seq<StackItem>, order0: seq<int>, p0: int, r0: int, seed0: int, ghost total: int)
    returns (stack: seq<StackItem>, order: seq<int>, p: int, r: int, seed: int)
    requires TotalPreorder(leq)
    requires Settled(keys, order0, n, leq, stack0 + [StackItem(p0, r0)]) && Apart(stack0 + [StackItem(p0, r0)], n)
    requires PermWithin(o0, order0, 0, n - 1) && 0 <= seed0 < 0x1_0000_0000
    requires Weight(stack0 + [StackItem(p0, r0)]) <= total
    ensures Settled(keys, order, n, leq, stack + [StackItem(p, r)]) && Apart(stack + [StackItem(p, r)], n)
    ensures PermWithin(o0, order, 0, n - 1) && 0 <= seed < 0x1_0000_0000
    ensures Weight(stack + [StackItem(p, r)]) <= total && r <= p + 10
  {
    stack, order, p, r, seed := stack0, order0, p0, r0, seed0;
    while r > p + 10
      invariant Settled(keys, order, n, leq, stack + [StackItem(p, r)]) && Apart(stack + [StackItem(p, r)], n)
      invariant PermWithin(o0, order, 0, n - 1) && 0 <= seed < 0x1_0000_0000
      invariant Weight(stack + [StackItem(p, r)]) <= total
      decreases r - p
    {
      stack, order, p, r, seed := SplitOnce(keys, leq, n, o0, stack, order, p, r, seed);
    }
  }

  /** One round of initialize's inner loop: choose the pivot slot at a
      pseudo-random position of p .. r, move it to p, partition, push the
      longer side and continue with the shorter. */
  method SplitOnce<K(!new)>(keys: seq<Option<K>>, leq: (K, K) -> bool, n: int, ghost o0: seq<int>,
                            stack0: seq<StackItem>, order0: seq<int>, p0: int, r0: int, seed0: int)
    returns (stack: seq<StackItem>, order: seq<int>, p: int, r: int, seed: int)
    requires TotalPreorder(leq) && r0 > p0 + 10
    requires Settled(keys, order0, n, leq, stack0 + [StackItem(p0, r0)]) && Apart(stack0 + [StackItem(p0, r0)], n)
    requires PermWithin(o0, order0, 0, n - 1) && 0 <= seed0 < 0x1_0000_0000
    ensures Settled(keys, order, n, leq, stack + [StackItem(p, r)]) && Apart(stack + [StackItem(p, r)], n)
    ensures PermWithin(o0, order, 0, n - 1) && 0 <= seed < 0x1_0000_0000
    ensures Weight(stack + [StackItem(p, r)]) < Weight(stack0 + [StackItem(p0, r0)])
    ensures r - p < r0 - p0
  {
    stack, order, p, r, seed := stack0, order0, p0, r0, seed0;
    ghost var B0, b, before := stack, StackItem(p, r), order;
    assert 0 <= p && r < n by {
      assert (B0 + [b])[|B0|] == b;
    }
    var i, j;
    ghost var v;
    order, i, j, seed, v := PivotPartition(keys, leq, n, order, p, r, seed);
    if i - p < r - j {
      stack := stack + [StackItem(j + 1, r)];
      r := i - 1;
    } else {
      stack := stack + [StackItem(p, i - 1)];
      p := j + 1;
    }
    PartitionStep(keys, leq, n, o0, B0, b, before, order, v, i, j, stack + [StackItem(p, r)]);
    SplitLighter(B0, b, i, j, stack + [StackItem(p, r)]);
  }

  /** The pivot slot is taken at a pseudo-random position of p .. r and
      swapped to p; the range is then partitioned around its key v. */
  method PivotPartition<K(!new)>(keys: seq<Option<K>>, leq: (K, K) -> bool, n: int, order0: seq<int>,
                                 p: int, r: int, seed0: int)
    returns (order: seq<int>, i: int, j: int, seed: int, ghost v: K)
    requires TotalPreorder(leq) && Sortable(keys, order0, n) && 0 <= p < r < n && 0 <= seed0 < 0x1_0000_0000
    ensures PartDone(keys, leq, n, order0, order, p, r, v, i, j) && 0 <= seed < 0x1_0000_0000
  {
    seed := NextSeed(seed0);
    i := p + seed % (r - p + 1);
    order := order0;
    if p != i {
      order := Swap(order, i, p);
      SwapPerm(order0, i, p, p, r);
      PermSortable(keys, order0, order, n, p, r);
    }
    ghost var pivoted := order;
    v := KeyOf(keys, pivoted, p);
    order, i, j := Partition(keys, leq, n, order, p, r);
    PermTrans(order0, pivoted, order, p, r);
  }

  /** One split of initialize's inner loop, from block b of the stack B0 +
      [b] to B: the order stays a rearrangement of o0, the new blocks are
      apart and settled, and the stack gets lighter. */
  lemma PartitionStep<K(!new)>(keys: seq<Option<K>>, leq: (K, K) -> bool, n: int, o0: seq<int>,
                               B0: seq<StackItem>, b: StackItem, before: seq<int>, after: seq<int>, v: K,
                               i: int, j: int, B: seq<StackItem>)
    requires TotalPreorder(leq)
    requires Settled(keys, before, n, leq, B0 + [b]) && Apart(B0 + [b], n)
    requires PermWithin(o0, before, 0, n - 1)
    requires PartDone(keys, leq, n, before, after, b.p, b.r, v, i, j)
    requires B == B0 + [StackItem(b.p, i - 1), StackItem(j + 1, b.r)]
          || B == B0 + [StackItem(j + 1, b.r), StackItem(b.p, i - 1)]
    ensures Settled(keys, after, n, leq, B) && Apart(B, n)
    ensures PermWithin(o0, after, 0, n - 1)
  {
    SplitSettled(keys, leq, n, B0, b, before, after, i, j, v, B);
    SplitApart(B0, b, n, i, j, B);
    PermWiden(before, after, b.p, b.r, 0, n - 1);
    PermTrans(o0, before, after, 0, n - 1);
  }

  /** Splitting a block longer than one position makes the stack lighter. */
  lemma SplitLighter(B0: seq<StackItem>, b: StackItem, i: int, j: int, B: seq<StackItem>)
    requires b.p <= j <= i <= j + 1 && i <= b.r && b.p < b.r
    requires B == B0 + [StackItem(b.p, i - 1), StackItem(j + 1, b.r)]
          || B == B0 + [StackItem(j + 1, b.r), StackItem(b.p, i - 1)]
    ensures Weight(B) < Weight(B0 + [b])
  {
    var x, y := B[|B0|], B[|B0| + 1];
    assert B == B0 + [x] + [y];
    WeightPush(B0 + [x], y);
    WeightPush(B0, x);
    WeightPush(B0, b);
    assert Size(StackItem(b.p, i - 1)) == i - b.p && Size(StackItem(j + 1, b.r)) == b.r - j;
    SplitWeight(i - b.p, b.r - j, b.r - b.p + 1);
  }
}
