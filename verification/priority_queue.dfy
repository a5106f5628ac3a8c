/**
  The sweep's event queue (PriorityQueue.swift): keys inserted before
  `initialize` go into slots of a plain array and are sorted once; keys
  inserted afterwards go into a `PriorityHeap`. A handle names where its key
  lives by its sign: slot s has handle -(s + 1), heap handles are positive.

  The keys still queued are those of the pending handles (`Pending`); the
  operations are specified by how they change that set and by which key
  they hand out.
*/
module PriorityQueue {
  import opened Wrappers
  import opened Orders
  import opened Cycles
  import opened QueueSort
  import PH = PriorityHeap

  datatype Queue<K> = Queue(heap: PH.Heap<K>, keys: seq<Option<K>>, order: seq<int>,
                            size: int, max: int, initialized: bool)

  /** The handle of slot s. */
  function SlotHandle(s: int): (h: int)
    requires 0 <= s
    ensures h < 0 && HandleSlot(h) == s
  {
    -(s + 1)
  }

  /** The slot of a negative handle. */
  function HandleSlot(h: int): int {
    -(h + 1)
  }

  /** Before initialize, slots 0 .. size-1 hold the inserted keys and the
      heap is empty. After it, `order` lists the max slots that were filled
      at that moment, each once; positions 0 .. size-1 are still queued, the
      last of them holds a key, and the keys along them never increase
      (removed slots, now nil, are skipped). */
  ghost predicate Inv<K>(q: Queue<K>, leq: (K, K) -> bool, free: seq<int>) {
    && PH.Inv(q.heap, leq, free) && q.heap.initialized == q.initialized
    && if !q.initialized then
         && q.heap.size == 0 && 0 <= q.size < q.max && q.max == |q.keys|
         && (forall s :: 0 <= s < q.size ==> q.keys[s].Some?)
       else
         && 0 <= q.size <= q.max && q.max + 1 == |q.order| && q.max <= |q.keys|
         && (forall t :: 0 <= t < q.max ==> 0 <= q.order[t] < q.max)
         && (forall a, b :: 0 <= a < b < q.max ==> q.order[a] != q.order[b])
         && (q.size > 0 ==> q.keys[q.order[q.size - 1]].Some?)
         && (forall a, b :: 0 <= a < b < q.size && q.keys[q.order[a]].Some? && q.keys[q.order[b]].Some? ==>
               leq(q.keys[q.order[b]].value, q.keys[q.order[a]].value))
  }

  /** Slot s still holds a queued key. */
  ghost predicate SlotPending<K>(q: Queue<K>, s: int) {
    && 0 <= s < |q.keys| && q.keys[s].Some?
    && if !q.initialized then s < q.size
       else exists t :: 0 <= t < q.size && t < |q.order| && q.order[t] == s
  }

  /** Handle x names a queued key. */
  ghost predicate Pending<K>(q: Queue<K>, x: int) {
    if x >= 0 then PH.Live(q.heap, x) else SlotPending(q, HandleSlot(x))
  }

  /** The key a pending handle names. */
  ghost function HandleKey<K>(q: Queue<K>, x: int): K
    requires PH.Placed(q.heap) && Pending(q, x)
  {
    if x >= 0 then PH.LiveKeyed(q.heap, x); q.heap.hkey[x].value
    else q.keys[HandleSlot(x)].value
  }

  /** All pending handles. */
  ghost function PendingSet<K>(q: Queue<K>): (p: set<int>)
    ensures forall x :: x in p <==> Pending(q, x)
  {
    set x | -|q.keys| <= x < |q.heap.hnode| && Pending(q, x)
  }

  /** The key at the top of the heap. */
  ghost function HeapTop<K>(q: Queue<K>): K
    requires PH.Placed(q.heap) && q.heap.size > 0
  {
    assert PH.PlacedAt(q.heap, 1);
    PH.Key(q.heap, 1)
  }

  /** The handle extractMin hands out: the heap's top while the sorted part
      is empty or the heap's top key is `leq` the last sorted key, the last
      sorted slot otherwise. */
  ghost function NextHandle<K>(q: Queue<K>, leq: (K, K) -> bool, free: seq<int>): (n: int)
    requires Inv(q, leq, free) && q.initialized && (q.size > 0 || q.heap.size > 0)
    ensures Pending(q, n)
  {
    assert q.heap.size > 0 ==> PH.PlacedAt(q.heap, 1);
    if q.size > 0 && (q.heap.size == 0 || !leq(HeapTop(q), q.keys[q.order[q.size - 1]].value))
    then
      assert SlotPending(q, q.order[q.size - 1]);
      SlotHandle(q.order[q.size - 1])
    else q.heap.nodes[1]
  }

  /** k is `leq` the key of every pending handle. */
  ghost predicate LeqAll<K>(q: Queue<K>, leq: (K, K) -> bool, k: K) {
    PH.Placed(q.heap) && forall x :: Pending(q, x) ==> leq(k, HandleKey(q, x))
  }

  /** q' is q with handle hd no longer pending and every other handle as it
      was. */
  ghost predicate Takes<K>(q: Queue<K>, q': Queue<K>, hd: int) {
    && PH.Placed(q.heap) && PH.Placed(q'.heap) && Pending(q, hd)
    && (forall x :: Pending(q', x) <==> Pending(q, x) && x != hd)
    && (forall x :: Pending(q', x) ==> HandleKey(q', x) == HandleKey(q, x))
  }

  // ---------------------------------------------------------------------------
  // init and insert

  /** init(initialSize, leq): nothing queued, room for initialSize slots. */
  method New<K>(initialSize: int, leq: (K, K) -> bool) returns (q: Queue<K>, ghost free: seq<int>)
    requires initialSize >= 1
    ensures Inv(q, leq, free) && !q.initialized && q.max == initialSize
    ensures forall x :: !Pending(q, x)
  {
    var heap;
    heap, free := PH.Init(initialSize, leq);
    q := Queue(heap, seq(initialSize, _ => None), [], 0, initialSize, false);
    forall x ensures !Pending(q, x) {
      if x >= 0 {
        assert !PH.Live(heap, x);
      }
    }
  }

  /** The number of nil slots to append to an array of count slots so that
      it has newMax slots. */
  function QueueGrowthPad(count: int, newMax: int): (pad: nat)
    requires count <= newMax
    ensures count + pad == newMax
  {
    newMax - count
  }

  /** The slot array is padded by the same as-written count as the heap's
      tables (PriorityHeap.GrowthPadAsWritten), once the room has doubled.
      Doubling a room of 2 or more slots asks for a negative number of nil
      slots (an `Array(repeating:count:)` trap); doubling a room of 1
      appends none, so the slot array stays one short of the room. */
  lemma QueueGrowthPadAsWrittenFails(max: int)
    requires max >= 1
    ensures max >= 2 ==> PH.GrowthPadAsWritten(max, 2 * max) < 0
    ensures max == 1 ==> max + PH.GrowthPadAsWritten(max, 2 * max) < 2 * max
    ensures max + QueueGrowthPad(max, 2 * max) == 2 * max
  {
  }

  /** insert(value): before initialize the key takes the next slot and its
      handle is negative; afterwards the heap takes it and the handle is
      positive. Either way the new handle was not pending and now names the
      key, and every other handle is left as it was. */
  method Insert<K(!new)>(q: Queue<K>, leq: (K, K) -> bool, ghost free: seq<int>, v: K)
    returns (q': Queue<K>, handle: int, ghost free': seq<int>)
    requires TotalPreorder(leq) && Inv(q, leq, free)
    ensures Inv(q', leq, free') && q'.initialized == q.initialized
    ensures !q.initialized ==> handle == -(q.size + 1) && handle < 0
    ensures q.initialized ==> handle >= 1
    ensures !Pending(q, handle) && Pending(q', handle) && HandleKey(q', handle) == v
    ensures forall x :: x != handle ==> (Pending(q', x) <==> Pending(q, x))
    ensures forall x :: Pending(q, x) ==> Pending(q', x) && HandleKey(q', x) == HandleKey(q, x)
  {
    if q.initialized {
      var heap;
      heap, handle, free' := PH.Insert(q.heap, leq, free, v);
      q' := q.(heap := heap);
      PH.LiveKeyed(q.heap, handle);
      forall x | Pending(q, x) ensures Pending(q', x) && HandleKey(q', x) == HandleKey(q, x) {
        if x >= 0 {
          PH.LiveKeyed(q.heap, x);
        }
      }
      return;
    }
    var curr := q.size;
    var size := q.size + 1;
    var max := q.max;
    var keys := q.keys;
    if size >= max {
      max := max * 2;
      keys := keys + seq(QueueGrowthPad(|keys|, max), _ => None);
    }
    keys := keys[curr := Some(v)];
    q' := q.(keys := keys, size := size, max := max);
    free' := free;
    handle := -(curr + 1);
    assert HandleSlot(handle) == curr;
    forall x | x >= 0 ensures !PH.Live(q.heap, x) { }
  }

  // ---------------------------------------------------------------------------
  // initialize

  lemma {:induction false} IotaDistinct(n: nat)
    ensures Distinct(Iota(n))
  {
    if n == 0 {
      assert forall x :: multiset(Iota(0))[x] == 0;
    } else {
      IotaDistinct(n - 1);
      assert Iota(n) == Iota(n - 1) + [n - 1];
      assert n - 1 !in Iota(n - 1);
      forall x ensures multiset(Iota(n))[x] <= 1 {
        assert multiset(Iota(n))[x] == multiset(Iota(n - 1))[x] + multiset([n - 1])[x];
      }
    }
  }

  /** An arrangement of 0 .. n-1 names each slot once. */
  lemma ArrangementDistinct(o: seq<int>, n: nat)
    requires n <= |o| && multiset(o[..n]) == multiset(Iota(n))
    ensures forall a, b :: 0 <= a < b < n ==> o[a] != o[b]
  {
    IotaDistinct(n);
    assert Distinct(o[..n]);
    forall a, b | 0 <= a < b < n ensures o[a] != o[b] {
      DistinctApart(o[..n], a, b);
    }
  }

  /** initialize(): sorts the slots into non-increasing key order, so the
      least key sits at position size - 1, and initializes the heap. What is
      queued does not change. */
  method Initialize<K(!new)>(q: Queue<K>, leq: (K, K) -> bool, ghost free: seq<int>) returns (q': Queue<K>)
    requires TotalPreorder(leq) && Inv(q, leq, free) && !q.initialized
    ensures Inv(q', leq, free) && q'.initialized && q'.size == q.size && q'.keys == q.keys
    ensures multiset(q'.order[..q.size]) == multiset(Iota(q.size))
    ensures forall x :: Pending(q', x) <==> Pending(q, x)
    ensures forall x :: Pending(q, x) ==> HandleKey(q', x) == HandleKey(q, x)
  {
    var order := SortOrder(q.keys, leq, q.size);
    ArrangementDistinct(order, q.size);
    var heap := PH.Initialize(q.heap, leq, free);
    q' := q.(heap := heap, order := order, max := q.size, initialized := true);
    assert SortedRange(q.keys, order, q.size, leq, 0, q.size - 1);
    forall a, b | 0 <= a < b < q.size
      ensures leq(q.keys[order[b]].value, q.keys[order[a]].value)
    {
      assert KeyOf(q.keys, order, b) == q.keys[order[b]].value;
      assert KeyOf(q.keys, order, a) == q.keys[order[a]].value;
    }
    forall x ensures Pending(q', x) <==> Pending(q, x) {
      if x >= 0 {
        assert !PH.Live(q.heap, x) && !PH.Live(heap, x);
      } else {
        var s := HandleSlot(x);
        if 0 <= s < q.size {
          PositionOf(order, q.size, s);
        }
      }
    }
  }

  /** Every slot of 0 .. n-1 is named at some position of an arrangement. */
  lemma PositionOf(o: seq<int>, n: nat, s: int)
    requires n <= |o| && multiset(o[..n]) == multiset(Iota(n)) && 0 <= s < n
    ensures exists t :: 0 <= t < n && o[t] == s
  {
    assert Iota(n)[s] == s;
    assert s in multiset(Iota(n));
    assert s in o[..n];
    var t :| 0 <= t < n && o[..n][t] == s;
  }

  // ---------------------------------------------------------------------------
  // extractMin and minimum

  /** The last queued position holds the least key of the sorted part. */
  lemma LastIsLeast<K(!new)>(q: Queue<K>, leq: (K, K) -> bool, free: seq<int>)
    requires TotalPreorder(leq) && Inv(q, leq, free) && q.initialized && q.size > 0
    ensures forall x :: x < 0 && Pending(q, x) ==> leq(q.keys[q.order[q.size - 1]].value, HandleKey(q, x))
  {
    forall x | x < 0 && Pending(q, x) ensures leq(q.keys[q.order[q.size - 1]].value, HandleKey(q, x)) {
      var t :| 0 <= t < q.size && t < |q.order| && q.order[t] == HandleSlot(x);
      if t == q.size - 1 {
        assert leq(HandleKey(q, x), HandleKey(q, x));
      }
    }
  }

  /** The heap's top key is `leq` every key in the heap. */
  lemma HeapTopIsLeast<K(!new)>(q: Queue<K>, leq: (K, K) -> bool, free: seq<int>)
    requires TotalPreorder(leq) && Inv(q, leq, free) && q.initialized && q.heap.size > 0
    ensures PH.Live(q.heap, q.heap.nodes[1]) && HandleKey(q, q.heap.nodes[1]) == HeapTop(q)
    ensures forall x :: x >= 0 && Pending(q, x) ==> leq(HeapTop(q), HandleKey(q, x))
  {
    assert PH.PlacedAt(q.heap, 1);
    PH.TopIsMinimum(q.heap, leq);
  }

  /** The key of the handle extractMin hands out is `leq` the key of every
      pending handle. */
  lemma NextIsLeast<K(!new)>(q: Queue<K>, leq: (K, K) -> bool, free: seq<int>)
    requires TotalPreorder(leq) && Inv(q, leq, free) && q.initialized && (q.size > 0 || q.heap.size > 0)
    ensures LeqAll(q, leq, HandleKey(q, NextHandle(q, leq, free)))
  {
    var n := NextHandle(q, leq, free);
    var k := HandleKey(q, n);
    if q.heap.size > 0 {
      HeapTopIsLeast(q, leq, free);
    }
    if q.size > 0 {
      LastIsLeast(q, leq, free);
    }
    forall x | Pending(q, x) ensures leq(k, HandleKey(q, x)) {
      if x < 0 {
        assert q.size > 0;
      }
    }
  }

  /** Nothing is pending exactly when both parts are empty. */
  lemma EmptyQueue<K>(q: Queue<K>, leq: (K, K) -> bool, free: seq<int>)
    requires Inv(q, leq, free) && q.initialized
    ensures (forall x :: !Pending(q, x)) <==> q.size == 0 && q.heap.size == 0
  {
    if q.size > 0 || q.heap.size > 0 {
      assert Pending(q, NextHandle(q, leq, free));
    } else {
      forall x ensures !Pending(q, x) {
        if x >= 0 {
          assert !PH.Live(q.heap, x);
        }
      }
    }
  }

  /** A heap operation that takes out a handle leaves the sorted part. */
  lemma HeapTakes<K>(q: Queue<K>, q': Queue<K>, hd: int)
    requires PH.Placed(q.heap) && PH.Placed(q'.heap) && PH.Live(q.heap, hd)
    requires q' == q.(heap := q'.heap)
    requires forall x :: PH.Live(q'.heap, x) <==> PH.Live(q.heap, x) && x != hd
    requires q'.heap.hkey == q.heap.hkey[hd := None]
    ensures Takes(q, q', hd)
  {
    forall x | Pending(q', x) ensures HandleKey(q', x) == HandleKey(q, x) {
      if x >= 0 {
        PH.LiveKeyed(q.heap, x);
        PH.LiveKeyed(q'.heap, x);
      }
    }
  }

  /** extractMin()'s heap branch: the heap's top leaves. */
  method ExtractTop<K(!new)>(q: Queue<K>, leq: (K, K) -> bool, ghost free: seq<int>)
    returns (q': Queue<K>, m: Option<K>, ghost free': seq<int>)
    requires TotalPreorder(leq) && Inv(q, leq, free) && q.initialized && q.heap.size > 0
    ensures Inv(q', leq, free') && q'.initialized
    ensures PH.Live(q.heap, q.heap.nodes[1]) && m == Some(HandleKey(q, q.heap.nodes[1]))
    ensures Takes(q, q', q.heap.nodes[1])
  {
    var heap;
    heap, m, free' := PH.ExtractMin(q.heap, leq, free);
    q' := q.(heap := heap);
    HeapTakes(q, q', q.heap.nodes[1]);
  }

  /** extractMin()'s sorted branch: the last position is popped, and so
      are the removed positions before it. */
  method PopSorted<K(!new)>(q: Queue<K>, leq: (K, K) -> bool, ghost free: seq<int>)
    returns (q': Queue<K>, m: Option<K>)
    requires Inv(q, leq, free) && q.initialized && q.size > 0
    ensures Inv(q', leq, free) && q'.initialized
    ensures m == Some(HandleKey(q, SlotHandle(q.order[q.size - 1])))
    ensures Takes(q, q', SlotHandle(q.order[q.size - 1]))
  {
    m := q.keys[q.order[q.size - 1]];
    var size := q.size - 1;
    while size > 0 && q.keys[q.order[size - 1]].None?
      invariant 0 <= size < q.size
      invariant forall t :: size <= t < q.size - 1 ==> q.keys[q.order[t]].None?
    {
      size := size - 1;
    }
    q' := q.(size := size);
    SortedPop(q, q', leq, free);
  }

  /** Popping the last sorted position and the removed ones before it. */
  lemma SortedPop<K(!new)>(q: Queue<K>, q': Queue<K>, leq: (K, K) -> bool, free: seq<int>)
    requires Inv(q, leq, free) && q.initialized && q.size > 0
    requires q' == q.(size := q'.size) && 0 <= q'.size < q.size
    requires forall t :: q'.size <= t < q.size - 1 ==> q.keys[q.order[t]].None?
    requires q'.size > 0 ==> q.keys[q.order[q'.size - 1]].Some?
    ensures Inv(q', leq, free)
    ensures Takes(q, q', SlotHandle(q.order[q.size - 1]))
  {
    var hd := SlotHandle(q.order[q.size - 1]);
    assert SlotPending(q, q.order[q.size - 1]);
    forall x ensures Pending(q', x) <==> Pending(q, x) && x != hd {
      if x < 0 {
        var s := HandleSlot(x);
        if Pending(q, x) && x != hd {
          var t :| 0 <= t < q.size && t < |q.order| && q.order[t] == s;
          assert t != q.size - 1;
          assert t < q'.size;
        }
        if Pending(q', x) {
          var t :| 0 <= t < q'.size && t < |q.order| && q.order[t] == s;
          assert q.order[t] != q.order[q.size - 1];
        }
      }
    }
  }

  /** After initialize, extractMin() hands out the handle NextHandle names:
      its key is `leq` every queued key, it leaves the queue, and everything
      else stays. The heap's top wins ties with the last sorted key. With
      nothing queued it returns nil and changes nothing. */
  method ExtractMin<K(!new)>(q: Queue<K>, leq: (K, K) -> bool, ghost free: seq<int>)
    returns (q': Queue<K>, m: Option<K>, ghost free': seq<int>, ghost hd: int)
    requires TotalPreorder(leq) && Inv(q, leq, free) && q.initialized
    ensures Inv(q', leq, free') && q'.initialized
    ensures m.None? <==> forall x :: !Pending(q, x)
    ensures m.None? ==> q' == q
    ensures m.Some? ==>
      && (q.size > 0 || q.heap.size > 0) && hd == NextHandle(q, leq, free)
      && m.value == HandleKey(q, hd) && LeqAll(q, leq, m.value) && Takes(q, q', hd)
  {
    EmptyQueue(q, leq, free);
    hd := 0;
    free' := free;
    if q.size == 0 && q.heap.size == 0 {
      return q, None, free, hd;
    }
    NextIsLeast(q, leq, free);
    if q.size == 0 {
      hd := q.heap.nodes[1];
      q', m, free' := ExtractTop(q, leq, free);
      return;
    }
    var sortMin := q.keys[q.order[q.size - 1]];
    if q.heap.size != 0 {
      var heapMin := PH.Minimum(q.heap, leq, free);
      assert heapMin.value == HeapTop(q) by { assert PH.PlacedAt(q.heap, 1); }
      if leq(heapMin.value, sortMin.value) {
        hd := q.heap.nodes[1];
        q', m, free' := ExtractTop(q, leq, free);
        return;
      }
    }
    hd := SlotHandle(q.order[q.size - 1]);
    q', m := PopSorted(q, leq, free);
  }

  /** minimum(): the key extractMin would hand out, with nothing changed;
      nil when nothing is queued. */
  method Minimum<K(!new)>(q: Queue<K>, leq: (K, K) -> bool, ghost free: seq<int>) returns (m: Option<K>)
    requires TotalPreorder(leq) && Inv(q, leq, free) && q.initialized
    ensures m.None? <==> forall x :: !Pending(q, x)
    ensures m.Some? ==>
      && (q.size > 0 || q.heap.size > 0)
      && m.value == HandleKey(q, NextHandle(q, leq, free)) && LeqAll(q, leq, m.value)
  {
    EmptyQueue(q, leq, free);
    if q.size == 0 && q.heap.size == 0 {
      return None;
    }
    NextIsLeast(q, leq, free);
    if q.size == 0 {
      m := PH.Minimum(q.heap, leq, free);
      assert PH.PlacedAt(q.heap, 1);
      return;
    }
    var sortMin := q.keys[q.order[q.size - 1]];
    if q.heap.size != 0 {
      var heapMin := PH.Minimum(q.heap, leq, free);
      assert heapMin.value == HeapTop(q) by { assert PH.PlacedAt(q.heap, 1); }
      if leq(heapMin.value, sortMin.value) {
        return heapMin;
      }
    }
    m := sortMin;
  }

  // ---------------------------------------------------------------------------
  // remove

  /** remove(handle), as the source's assertions require it: a heap handle
      goes to the heap; a slot handle names a slot below max that still holds
      a key, which is cleared, and trailing removed positions are dropped.
      Exactly that handle stops being pending. */
  method Remove<K(!new)>(q: Queue<K>, leq: (K, K) -> bool, ghost free: seq<int>, hc: int)
    returns (q': Queue<K>, ghost free': seq<int>)
    requires TotalPreorder(leq) && Inv(q, leq, free) && q.initialized
    requires hc >= 0 ==> 1 <= hc <= q.heap.max && q.heap.hkey[hc].Some?
    requires hc < 0 ==> HandleSlot(hc) < q.max && q.keys[HandleSlot(hc)].Some?
    ensures Inv(q', leq, free') && q'.initialized
    ensures forall x :: Pending(q', x) <==> Pending(q, x) && x != hc
    ensures forall x :: Pending(q', x) ==> HandleKey(q', x) == HandleKey(q, x)
  {
    if hc >= 0 {
      q', free' := RemoveHeapHandle(q, leq, free, hc);
    } else {
      q' := RemoveSlot(q, leq, free, hc);
      free' := free;
    }
  }

  /** remove of a heap handle: the heap removes it. */
  method RemoveHeapHandle<K(!new)>(q: Queue<K>, leq: (K, K) -> bool, ghost free: seq<int>, hc: int)
    returns (q': Queue<K>, ghost free': seq<int>)
    requires TotalPreorder(leq) && Inv(q, leq, free) && q.initialized
    requires 1 <= hc <= q.heap.max && q.heap.hkey[hc].Some?
    ensures Inv(q', leq, free') && q'.initialized
    ensures forall x :: Pending(q', x) <==> Pending(q, x) && x != hc
    ensures forall x :: Pending(q', x) ==> HandleKey(q', x) == HandleKey(q, x)
  {
    var heap;
    heap, free' := PH.Remove(q.heap, leq, free, hc);
    q' := q.(heap := heap);
    forall x | Pending(q', x) ensures HandleKey(q', x) == HandleKey(q, x) {
      if x >= 0 {
        PH.LiveKeyed(q.heap, x);
        PH.LiveKeyed(heap, x);
      }
    }
  }

  /** remove of a slot handle: the slot is cleared and the trailing removed
      positions of the sorted order are dropped. */
  method RemoveSlot<K(!new)>(q: Queue<K>, leq: (K, K) -> bool, ghost free: seq<int>, hc: int)
    returns (q': Queue<K>)
    requires Inv(q, leq, free) && q.initialized
    requires hc < 0 && HandleSlot(hc) < q.max && q.keys[HandleSlot(hc)].Some?
    ensures Inv(q', leq, free) && q'.initialized
    ensures forall x :: Pending(q', x) <==> Pending(q, x) && x != hc
    ensures forall x :: Pending(q', x) ==> HandleKey(q', x) == HandleKey(q, x)
  {
    var curr := HandleSlot(hc);
    var keys := q.keys[curr := None];
    var size := q.size;
    while size > 0 && keys[q.order[size - 1]].None?
      invariant 0 <= size <= q.size
      invariant forall t :: size <= t < q.size ==> keys[q.order[t]].None?
    {
      size := size - 1;
    }
    q' := q.(keys := keys, size := size);
    SlotCleared(q, q', leq, free, hc);
  }

  /** Clearing a slot and dropping the trailing removed positions. */
  lemma SlotCleared<K(!new)>(q: Queue<K>, q': Queue<K>, leq: (K, K) -> bool, free: seq<int>, hc: int)
    requires Inv(q, leq, free) && q.initialized && hc < 0 && 0 <= HandleSlot(hc) < q.max
    requires q' == q.(keys := q.keys[HandleSlot(hc) := None], size := q'.size) && 0 <= q'.size <= q.size
    requires forall t :: q'.size <= t < q.size ==> q'.keys[q.order[t]].None?
    requires q'.size > 0 ==> q'.keys[q.order[q'.size - 1]].Some?
    ensures Inv(q', leq, free)
    ensures forall x :: Pending(q', x) <==> Pending(q, x) && x != hc
    ensures forall x :: Pending(q', x) ==> HandleKey(q', x) == HandleKey(q, x)
  {
    forall x ensures Pending(q', x) <==> Pending(q, x) && x != hc {
      if x < 0 {
        var s := HandleSlot(x);
        if Pending(q, x) && x != hc {
          var t :| 0 <= t < q.size && t < |q.order| && q.order[t] == s;
          assert t < q'.size;
        }
      }
    }
  }

  // ---------------------------------------------------------------------------
  // draining

  /** The state of a drain of q that has handed out hs with keys ks and is
      left with cur. */
  ghost predicate Draining<K>(q: Queue<K>, cur: Queue<K>, leq: (K, K) -> bool, ks: seq<K>, hs: seq<int>) {
    && PH.Placed(q.heap) && PH.Placed(cur.heap)
    && (forall x :: Pending(cur, x) ==> Pending(q, x) && HandleKey(cur, x) == HandleKey(q, x))
    && (forall x :: Pending(q, x) <==> x in hs || Pending(cur, x))
    && (forall x :: x in hs ==> !Pending(cur, x))
    && |hs| == |ks| && (forall i, j :: 0 <= i < j < |hs| ==> hs[i] != hs[j])
    && (forall i :: 0 <= i < |ks| ==> Pending(q, hs[i]) && ks[i] == HandleKey(q, hs[i]))
    && Sorted(ks, leq)
    && (forall i, x :: 0 <= i < |ks| && Pending(cur, x) ==> leq(ks[i], HandleKey(cur, x)))
  }

  lemma ProperSubsetSmaller(a: set<int>, b: set<int>, x: int)
    requires a <= b && x in b && x !in a
    ensures |a| < |b|
  {
    assert b == a + (b - a) && a * (b - a) == {};
    assert x in b - a;
  }

  /** One more extractMin keeps the drain's state. */
  lemma DrainStep<K(!new)>(q: Queue<K>, cur: Queue<K>, next: Queue<K>, leq: (K, K) -> bool,
                          ks: seq<K>, hs: seq<int>, k: K, hd: int)
    requires TotalPreorder(leq) && Draining(q, cur, leq, ks, hs)
    requires Takes(cur, next, hd) && k == HandleKey(cur, hd) && LeqAll(cur, leq, k)
    ensures Draining(q, next, leq, ks + [k], hs + [hd])
    ensures |PendingSet(next)| < |PendingSet(cur)|
  {
    assert hd in PendingSet(cur) && hd !in PendingSet(next);
    ProperSubsetSmaller(PendingSet(next), PendingSet(cur), hd);
    var ks', hs' := ks + [k], hs + [hd];
    forall i, j | 0 <= i < j < |ks'| ensures leq(ks'[i], ks'[j]) {
      if j == |ks| {
        assert ks'[j] == k;
      }
    }
    forall i, x | 0 <= i < |ks'| && Pending(next, x) ensures leq(ks'[i], HandleKey(next, x)) {
      if i < |ks| {
        assert leq(ks[i], HandleKey(cur, x));
      }
    }
  }

  /** A drain that has emptied the queue has handed out every key. */
  lemma DrainDone<K>(q: Queue<K>, cur: Queue<K>, leq: (K, K) -> bool, ks: seq<K>, hs: seq<int>)
    requires Draining(q, cur, leq, ks, hs) && forall x :: !Pending(cur, x)
    ensures |hs| == |ks| && (forall i, j :: 0 <= i < j < |hs| ==> hs[i] != hs[j])
    ensures forall x :: x in hs <==> Pending(q, x)
    ensures forall i :: 0 <= i < |ks| ==> Pending(q, hs[i]) && ks[i] == HandleKey(q, hs[i])
    ensures Sorted(ks, leq)
  {
  }

  /** Successive extractMin calls hand out every queued key exactly once,
      in non-decreasing order. */
  method Drain<K(!new)>(q: Queue<K>, leq: (K, K) -> bool, ghost free: seq<int>)
    returns (ks: seq<K>, ghost hs: seq<int>)
    requires TotalPreorder(leq) && Inv(q, leq, free) && q.initialized
    ensures |hs| == |ks| && (forall i, j :: 0 <= i < j < |hs| ==> hs[i] != hs[j])
    ensures forall x :: x in hs <==> Pending(q, x)
    ensures forall i :: 0 <= i < |ks| ==> Pending(q, hs[i]) && ks[i] == HandleKey(q, hs[i])
    ensures Sorted(ks, leq)
  {
    var cur := q;
    ghost var fr := free;
    ks, hs := [], [];
    while true
      invariant Inv(cur, leq, fr) && cur.initialized && Draining(q, cur, leq, ks, hs)
      decreases |PendingSet(cur)|
    {
      var next, m;
      ghost var fr', hd;
      next, m, fr', hd := ExtractMin(cur, leq, fr);
      if m.None? {
        DrainDone(q, cur, leq, ks, hs);
        break;
      }
      DrainStep(q, cur, next, leq, ks, hs, m.value, hd);
      ks, hs := ks + [m.value], hs + [hd];
      cur, fr := next, fr';
    }
  }
}
